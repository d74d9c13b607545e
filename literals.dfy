/** The pure decoders of the compiler and the built-in functions: string
    literals, hexadecimal colours and font styles. */
module Literals {
  import opened Values

  datatype Result<+T> = Ok(value: T) | NumberFormatError

  // ---------------------------------------------------------------------------
  // Hexadecimal colours: `parseHexColor` and the `#` branch of `color`.

  predicate IsHexDigit(c: char)
  {
    '0' <= c <= '9' || 'a' <= c <= 'f' || 'A' <= c <= 'F'
  }

  function HexValue(c: char): (v: int)
    requires IsHexDigit(c)
    ensures 0 <= v < 16
  {
    if '0' <= c <= '9' then c as int - '0' as int
    else if 'a' <= c <= 'f' then c as int - 'a' as int + 10
    else c as int - 'A' as int + 10
  }

  predicate AllHex(s: string)
  {
    forall i :: 0 <= i < |s| ==> IsHexDigit(s[i])
  }

  /** The value of a string of hex digits, most significant first. */
  function HexNumber(s: string): nat
    requires AllHex(s)
    decreases |s|
  {
    if s == [] then 0 else 16 * HexNumber(s[..|s| - 1]) + HexValue(s[|s| - 1])
  }

  /** `Integer.parseInt(s, 16)` (on the one- or two-character strings
      `parseHexColor` passes it): hex digits, optionally after one sign `+` or
      `-` that must be followed by at least one digit; anything else is a
      NumberFormatException. */
  function ParseInt16(s: string): (r: Result<int>)
    requires 1 <= |s| <= 2
    ensures r.Ok? <==> AllHex(s) || ((s[0] == '+' || s[0] == '-') && |s| >= 2 && AllHex(s[1..]))
    ensures AllHex(s) ==> r == Ok(HexNumber(s))
    ensures (s[0] == '+' || s[0] == '-') && |s| >= 2 && AllHex(s[1..]) ==>
      var n: int := HexNumber(s[1..]); r == Ok(if s[0] == '-' then -n else n)
    ensures r.Ok? ==> -15 <= r.value <= 255
  {
    assert s[..|s| - 1][..0] == [];
    assert |s| == 2 && AllHex(s[1..]) ==> IsHexDigit(s[1]) && HexNumber(s[1..]) == HexValue(s[1]) by {
      if |s| == 2 && AllHex(s[1..]) {
        assert s[1..][0] == s[1];
        assert s[1..][..0] == [];
      }
    }
    if s[0] == '+' || s[0] == '-' then
      if |s| == 2 && IsHexDigit(s[1]) then
        Ok(if s[0] == '-' then -HexValue(s[1]) else HexValue(s[1]))
      else NumberFormatError
    else if |s| == 1 then
      if IsHexDigit(s[0]) then Ok(HexValue(s[0])) else NumberFormatError
    else if IsHexDigit(s[0]) && IsHexDigit(s[1]) then
      assert s[..1] == [s[0]];
      Ok(16 * HexValue(s[0]) + HexValue(s[1]))
    else NumberFormatError
  }

  /** `parseHexColor`: one digit scaled by 16, two digits as they are, any other length -1. */
  function ParseHexColor(hex: string): (r: Result<int>)
    ensures r.NumberFormatError? <==>
      (|hex| == 1 || |hex| == 2) && !AllHex(hex) &&
      !((hex[0] == '+' || hex[0] == '-') && |hex| == 2 && IsHexDigit(hex[1]))
    ensures |hex| == 1 && AllHex(hex) ==> r == Ok(16 * HexNumber(hex))
    ensures |hex| == 2 && AllHex(hex) ==> r == Ok(HexNumber(hex))
    ensures r.Ok? ==> r.value == -1 || -240 <= r.value <= 255
  {
    if |hex| == 1 then
      match ParseInt16(hex)
      case Ok(v) => Ok(v * 16)
      case NumberFormatError => NumberFormatError
    else if |hex| == 2 then
      assert AllHex(hex[1..]) <==> IsHexDigit(hex[1]);
      ParseInt16(hex)
    else Ok(-1)
  }

  lemma ParseHexColorOneDigit(c: char)
    requires IsHexDigit(c)
    ensures ParseHexColor([c]) == Ok(16 * HexValue(c))
  {
  }

  lemma ParseHexColorTwoDigits(c: char, d: char)
    requires IsHexDigit(c) && IsHexDigit(d)
    ensures ParseHexColor([c, d]) == Ok(16 * HexValue(c) + HexValue(d))
    ensures 0 <= 16 * HexValue(c) + HexValue(d) <= 255
  {
  }

  lemma ParseHexColorOtherLength(hex: string)
    requires |hex| != 1 && |hex| != 2
    ensures ParseHexColor(hex) == Ok(-1)
  {
  }

  /** One digit is scaled, not repeated: `f` gives 240, not 255. */
  lemma ParseHexColorShortIsNotRepeated()
    ensures ParseHexColor("f") == Ok(240)
    ensures ParseHexColor("ff") == Ok(255)
  {
  }

  /** `Integer.parseInt` accepts a sign, so `-f` parses to -15. */
  lemma ParseHexColorAcceptsSign()
    ensures ParseHexColor("-f") == Ok(-15)
    ensures ParseHexColor("-") == NumberFormatError
    ensures ParseHexColor("g") == NumberFormatError
  {
  }

  /** What `color(name)` decodes: red, green and blue for a `#` name (each -1
      when the length is neither 4 nor 7), or a name to look up. */
  datatype ColorSpec = Rgb(red: int, green: int, blue: int) | Named(name: string)

  function Rgb3(r: Result<int>, g: Result<int>, b: Result<int>): Result<ColorSpec>
  {
    if r.Ok? && g.Ok? && b.Ok? then Ok(Rgb(r.value, g.value, b.value)) else NumberFormatError
  }

  /** The `#` branch of `color`: `#rrggbb` split at 1-3/3-5/5-7, `#rgb` at single characters. */
  function ColorComponents(colorName: string): (r: Result<ColorSpec>)
    ensures (|colorName| == 0 || colorName[0] != '#') ==> r == Ok(Named(colorName))
  {
    if |colorName| == 0 || colorName[0] != '#' then Ok(Named(colorName))
    else if |colorName| == 7 then
      Rgb3(ParseHexColor(colorName[1..3]), ParseHexColor(colorName[3..5]), ParseHexColor(colorName[5..7]))
    else if |colorName| == 4 then
      Rgb3(ParseHexColor(colorName[1..2]), ParseHexColor(colorName[2..3]), ParseHexColor(colorName[3..4]))
    else Ok(Rgb(-1, -1, -1))
  }

  lemma ColorLongForm(r1: char, r2: char, g1: char, g2: char, b1: char, b2: char)
    requires IsHexDigit(r1) && IsHexDigit(r2) && IsHexDigit(g1)
    requires IsHexDigit(g2) && IsHexDigit(b1) && IsHexDigit(b2)
    ensures ColorComponents(['#', r1, r2, g1, g2, b1, b2]) ==
      Ok(Rgb(16 * HexValue(r1) + HexValue(r2), 16 * HexValue(g1) + HexValue(g2),
             16 * HexValue(b1) + HexValue(b2)))
  {
    var s := ['#', r1, r2, g1, g2, b1, b2];
    assert s[1..3] == [r1, r2] && s[3..5] == [g1, g2] && s[5..7] == [b1, b2];
  }

  lemma ColorShortForm(r: char, g: char, b: char)
    requires IsHexDigit(r) && IsHexDigit(g) && IsHexDigit(b)
    ensures ColorComponents(['#', r, g, b]) ==
      Ok(Rgb(16 * HexValue(r), 16 * HexValue(g), 16 * HexValue(b)))
  {
    var s := ['#', r, g, b];
    assert s[1..2] == [r] && s[2..3] == [g] && s[3..4] == [b];
  }

  lemma ColorExamples()
    ensures ColorComponents("#fff") == Ok(Rgb(240, 240, 240))
    ensures ColorComponents("#ff8000") == Ok(Rgb(255, 128, 0))
    ensures ColorComponents("#ff") == Ok(Rgb(-1, -1, -1))
    ensures ColorComponents("red") == Ok(Named("red"))
  {
    ColorShortForm('f', 'f', 'f');
    ColorLongForm('f', 'f', '8', '0', '0', '0');
  }

  // ---------------------------------------------------------------------------
  // Font styles: `parseStyle` and the fold in the `font` built-in.

  const PLAIN: int := 0
  const BOLD: int := 1
  const ITALIC: int := 2

  function LowerChar(c: char): char
  {
    if 'A' <= c <= 'Z' then (c as int - 'A' as int + 'a' as int) as char else c
  }

  /** `toLowerCase` (ASCII letters): the length is kept, no capital letter
      remains, every other character is kept, and each capital becomes its
      small letter. */
  function Lower(s: string): (r: string)
    ensures |r| == |s|
    ensures forall i :: 0 <= i < |r| ==> !('A' <= r[i] <= 'Z')
    ensures forall i :: 0 <= i < |s| && !('A' <= s[i] <= 'Z') ==> r[i] == s[i]
    ensures forall i :: 0 <= i < |s| && 'A' <= s[i] <= 'Z' ==>
      r[i] as int - s[i] as int == 'a' as int - 'A' as int
  {
    seq(|s|, i requires 0 <= i < |s| => LowerChar(s[i]))
  }

  /** Lowercasing twice is lowercasing once. */
  lemma LowerIdempotent(s: string)
    ensures Lower(Lower(s)) == Lower(s)
  {
    var t := Lower(s);
    assert forall i :: 0 <= i < |t| ==> Lower(t)[i] == t[i];
  }

  /** `parseStyle`: case-insensitive `b`/`bold`, `i`/`italic`, `p`/`plain`; anything else -1. */
  function ParseStyle(style: string): (r: int)
    ensures r == BOLD <==> Lower(style) in {"b", "bold"}
    ensures r == ITALIC <==> Lower(style) in {"i", "italic"}
    ensures r == PLAIN <==> Lower(style) in {"p", "plain"}
    ensures r == -1 <==> Lower(style) !in {"b", "bold", "i", "italic", "p", "plain"}
  {
    var l := Lower(style);
    if l == "b" || l == "bold" then BOLD
    else if l == "i" || l == "italic" then ITALIC
    else if l == "p" || l == "plain" then PLAIN
    else -1
  }

  lemma ParseStyleExamples()
    ensures ParseStyle("Bold") == BOLD && ParseStyle("I") == ITALIC && ParseStyle("bolder") == -1
  {
    assert Lower("Bold") == "bold";
    assert Lower("I") == "i";
    assert Lower("bolder") == "bolder";
  }

  /** Characters the regular expression `\s` matches. */
  predicate IsRegexSpace(c: char)
  {
    c == ' ' || c == '\t' || c == '\n' || c == '\U{B}' || c == '\U{C}' || c == '\r'
  }

  /** The pieces between single `\s` characters (empty pieces included). */
  function SplitWs(s: string): (r: seq<string>)
    ensures |r| >= 1
  {
    if s == [] then [[]]
    else
      var rest := SplitWs(s[1..]);
      if IsRegexSpace(s[0]) then [[]] + rest else [[s[0]] + rest[0]] + rest[1..]
  }

  lemma {:induction false} SplitWithoutSpace(w: string)
    requires forall i :: 0 <= i < |w| ==> !IsRegexSpace(w[i])
    ensures SplitWs(w) == [w]
  {
    if w != [] {
      SplitWithoutSpace(w[1..]);
      assert w == [w[0]] + w[1..];
    }
  }

  /** A word without `\s` characters joins the first piece of what follows it. */
  lemma {:induction false} SplitPrepend(w: string, rest: string)
    requires forall i :: 0 <= i < |w| ==> !IsRegexSpace(w[i])
    ensures SplitWs(w + rest) == [w + SplitWs(rest)[0]] + SplitWs(rest)[1..]
  {
    if w != [] {
      var r := SplitWs(rest);
      SplitPrepend(w[1..], rest);
      var t := w + rest;
      assert t[0] == w[0] && !IsRegexSpace(t[0]);
      assert t[1..] == w[1..] + rest;
      var inner := SplitWs(t[1..]);
      assert inner == [w[1..] + r[0]] + r[1..];
      assert SplitWs(t) == [[t[0]] + inner[0]] + inner[1..];
      assert [w[0]] + (w[1..] + r[0]) == w + r[0];
    } else {
      var r := SplitWs(rest);
      assert w + rest == rest && w + r[0] == r[0];
      assert [r[0]] + r[1..] == r;
    }
  }

  /** `String.trim`: strips leading and trailing characters up to U+0020. */
  function TrimStart(s: string): (r: string)
    ensures |r| <= |s| && r == s[|s| - |r|..]
    ensures r == [] || r[0] > ' '
    ensures forall i :: 0 <= i < |s| - |r| ==> s[i] <= ' '
  {
    if s != [] && s[0] <= ' ' then TrimStart(s[1..]) else s
  }

  function TrimEnd(s: string): (r: string)
    ensures |r| <= |s| && r == s[..|r|]
    ensures r == [] || r[|r| - 1] > ' '
    ensures forall i :: |r| <= i < |s| ==> s[i] <= ' '
  {
    if s != [] && s[|s| - 1] <= ' ' then TrimEnd(s[..|s| - 1]) else s
  }

  function Trim(s: string): (r: string)
    ensures |r| <= |s|
    ensures r == [] || (r[0] > ' ' && r[|r| - 1] > ' ')
  {
    TrimEnd(TrimStart(s))
  }

  /** The trimmed, non-empty pieces the `font` built-in folds over. */
  function Tokens(pieces: seq<string>): (r: seq<string>)
    ensures |r| <= |pieces|
    ensures forall i :: 0 <= i < |r| ==> r[i] != [] && r[i][0] > ' ' && r[i][|r[i]| - 1] > ' '
  {
    if pieces == [] then []
    else if Trim(pieces[0]) == [] then Tokens(pieces[1..])
    else [Trim(pieces[0])] + Tokens(pieces[1..])
  }

  /** One piece yields its trimmed form, or nothing when that is empty. */
  lemma TokensOne(p: string)
    ensures Tokens([p]) == if Trim(p) == [] then [] else [Trim(p)]
  {
    assert [p][1..] == [];
  }

  /** The pieces are processed one by one, in order: tokens distribute over concatenation. */
  lemma {:induction false} TokensAppend(a: seq<string>, b: seq<string>)
    ensures Tokens(a + b) == Tokens(a) + Tokens(b)
  {
    if a != [] {
      assert (a + b)[0] == a[0];
      assert (a + b)[1..] == a[1..] + b;
      TokensAppend(a[1..], b);
    } else {
      assert a + b == b;
    }
  }

  /** The values a style fold can hold: -1 or a combination of BOLD and ITALIC. */
  predicate IsStyle(x: int) { -1 <= x <= 3 }

  /** Java `|` on these values: -1 (all bits set) absorbs, otherwise the bits combine. */
  lemma JavaOrStyles(x: int, y: int)
    requires IsStyle(x) && -1 <= y <= 2
    ensures JavaOr(x, y) == if x == -1 || y == -1 then -1
                            else if x == 3 || y == 3 || (x == 1 && y == 2) || (x == 2 && y == 1) then 3
                            else if x > y then x else y
  {
    Pow2At32();
    if x == -1 {
      OrBitsOnes(Unsigned(y), 32);
    } else if y == -1 {
      OrBitsOnes(Unsigned(x), 32);
      OrBitsSym(Unsigned(x), Unsigned(y), 32);
    } else {
      OrBitsSmall(x, y, 32);
    }
  }

  /** The stream `reduce(PLAIN, |)` over the styles of the tokens, left to right. */
  function StyleFold(acc: int, tokens: seq<string>): (r: int)
    requires IsStyle(acc)
    ensures IsStyle(r)
    decreases |tokens|
  {
    if tokens == [] then acc
    else
      JavaOrStyles(acc, ParseStyle(tokens[0]));
      StyleFold(JavaOr(acc, ParseStyle(tokens[0])), tokens[1..])
  }

  /** The style the `font` built-in computes from its style string. */
  function FontStyle(styleStr: string): (r: int)
    ensures r == -1 || r == PLAIN || r == BOLD || r == ITALIC || r == BOLD + ITALIC
  {
    StyleFold(PLAIN, Tokens(SplitWs(styleStr)))
  }

  predicate SomeToken(tokens: seq<string>, words: set<string>)
  {
    exists i :: 0 <= i < |tokens| && Lower(tokens[i]) in words
  }

  /** Some word is not a style name. */
  predicate SomeUnknown(tokens: seq<string>)
  {
    exists i :: 0 <= i < |tokens| && ParseStyle(tokens[i]) == -1
  }

  lemma SomeTokenCons(tokens: seq<string>, words: set<string>)
    requires tokens != []
    ensures SomeToken(tokens, words) <==> Lower(tokens[0]) in words || SomeToken(tokens[1..], words)
  {
    if SomeToken(tokens[1..], words) {
      var j :| 0 <= j < |tokens[1..]| && Lower(tokens[1..][j]) in words;
      assert Lower(tokens[j + 1]) in words;
    }
  }

  lemma SomeUnknownCons(tokens: seq<string>)
    requires tokens != []
    ensures SomeUnknown(tokens) <==> ParseStyle(tokens[0]) == -1 || SomeUnknown(tokens[1..])
  {
    if SomeUnknown(tokens[1..]) {
      var j :| 0 <= j < |tokens[1..]| && ParseStyle(tokens[1..][j]) == -1;
      assert ParseStyle(tokens[j + 1]) == -1;
    }
  }

  /** The style of a sequence of words, stated without the fold: -1 as soon as
      one word is not a style name, otherwise BOLD if a bold word occurs plus
      ITALIC if an italic word occurs. */
  function StyleOf(tokens: seq<string>): int
  {
    if SomeUnknown(tokens) then -1
    else StyleBits(SomeToken(tokens, {"b", "bold"}), SomeToken(tokens, {"i", "italic"}))
  }

  function StyleBits(bold: bool, italic: bool): (r: int)
    ensures IsStyle(r) && r != -1
  {
    (if bold then BOLD else 0) + (if italic then ITALIC else 0)
  }

  /** One step of the fold on an accumulator that is not -1. */
  lemma StyleStep(bold: bool, italic: bool, word: string)
    ensures JavaOr(StyleBits(bold, italic), ParseStyle(word)) ==
      if ParseStyle(word) == -1 then -1
      else StyleBits(bold || Lower(word) in {"b", "bold"}, italic || Lower(word) in {"i", "italic"})
  {
    JavaOrStyles(StyleBits(bold, italic), ParseStyle(word));
  }

  lemma {:induction false} StyleFoldSpec(bold: bool, italic: bool, tokens: seq<string>)
    ensures StyleFold(StyleBits(bold, italic), tokens) ==
      if SomeUnknown(tokens) then -1
      else StyleBits(bold || SomeToken(tokens, {"b", "bold"}), italic || SomeToken(tokens, {"i", "italic"}))
    decreases |tokens|
  {
    if tokens != [] {
      var w := tokens[0];
      var rest := tokens[1..];
      StyleStep(bold, italic, w);
      SomeUnknownCons(tokens);
      SomeTokenCons(tokens, {"b", "bold"});
      SomeTokenCons(tokens, {"i", "italic"});
      if ParseStyle(w) == -1 {
        StyleFoldMinusOne(rest);
      } else {
        StyleFoldSpec(bold || Lower(w) in {"b", "bold"}, italic || Lower(w) in {"i", "italic"}, rest);
      }
    }
  }

  /** Once the fold holds -1 it keeps it. */
  lemma {:induction false} StyleFoldMinusOne(tokens: seq<string>)
    ensures StyleFold(-1, tokens) == -1
    decreases |tokens|
  {
    if tokens != [] {
      JavaOrStyles(-1, ParseStyle(tokens[0]));
      StyleFoldMinusOne(tokens[1..]);
    }
  }

  /** The `font` built-in's style is -1 when any word is not a style name, and
      otherwise the OR of BOLD and ITALIC over the words that name them. */
  lemma FontStyleSpec(styleStr: string)
    ensures FontStyle(styleStr) == StyleOf(Tokens(SplitWs(styleStr)))
  {
    StyleFoldSpec(false, false, Tokens(SplitWs(styleStr)));
  }

  lemma SplitBoldItalic()
    ensures SplitWs("bold italic") == ["bold", "italic"]
  {
    SplitWithoutSpace("italic");
    var sp := " italic";
    assert sp[0] == ' ' && sp[1..] == "italic";
    assert SplitWs(sp) == [[]] + SplitWs("italic");
    assert SplitWs(sp) == [[], "italic"];
    SplitPrepend("bold", sp);
    assert "bold" + [] == "bold";
    assert "bold" + sp == "bold italic";
  }

  lemma TokensBoldItalic()
    ensures Tokens(["bold", "italic"]) == ["bold", "italic"]
  {
    assert Trim("bold") == "bold";
    assert Trim("italic") == "italic";
    var p := ["bold", "italic"];
    assert p[1..] == ["italic"];
    assert Tokens(["italic"]) == ["italic"];
  }

  lemma FontStyleEmpty()
    ensures FontStyle("") == PLAIN
  {
    assert SplitWs("") == [[]];
    assert Tokens([[]]) == [];
  }

  lemma StyleOfBoldItalic(t: seq<string>)
    requires t == ["bold", "italic"]
    ensures StyleOf(t) == BOLD + ITALIC
  {
    assert Lower(t[0]) == "bold" && Lower(t[1]) == "italic";
    assert SomeToken(t, {"b", "bold"}) && SomeToken(t, {"i", "italic"});
    assert ParseStyle(t[0]) == BOLD && ParseStyle(t[1]) == ITALIC;
    assert !SomeUnknown(t);
  }

  lemma FontStyleBoldItalic()
    ensures FontStyle("bold italic") == BOLD + ITALIC
  {
    SplitBoldItalic();
    TokensBoldItalic();
    FontStyleSpec("bold italic");
    StyleOfBoldItalic(Tokens(SplitWs("bold italic")));
  }

  // ---------------------------------------------------------------------------
  // String literals.

  /** `String.replace(target, replacement)`: left to right, non-overlapping. */
  function Replace(s: string, pat: string, rep: string): (r: string)
    requires |pat| > 0
    ensures |rep| <= |pat| ==> |r| <= |s|
    decreases |s|
  {
    if |s| < |pat| then s
    else if s[..|pat|] == pat then rep + Replace(s[|pat|..], pat, rep)
    else [s[0]] + Replace(s[1..], pat, rep)
  }

  /** A string without the pattern's first character is left as it is. */
  lemma {:induction false} ReplaceWithoutLead(s: string, pat: string, rep: string)
    requires |pat| > 0 && pat[0] !in s
    ensures Replace(s, pat, rep) == s
    decreases |s|
  {
    if |s| >= |pat| {
      assert s[..|pat|][0] == s[0];
      ReplaceWithoutLead(s[1..], pat, rep);
      assert s == [s[0]] + s[1..];
    }
  }

  /** A character that cannot start the pattern passes through. */
  lemma ReplaceCons(c: char, s: string, pat: string, rep: string)
    requires |pat| > 0 && c != pat[0]
    ensures Replace([c] + s, pat, rep) == [c] + Replace(s, pat, rep)
  {
    var t := [c] + s;
    if |t| < |pat| {
      assert Replace(s, pat, rep) == s;
    } else {
      assert t[..|pat|][0] == c;
      assert t[1..] == s;
    }
  }

  /** The pattern itself at the front is replaced. */
  lemma ReplaceHead(s: string, pat: string, rep: string)
    requires |pat| > 0
    ensures Replace(pat + s, pat, rep) == rep + Replace(s, pat, rep)
  {
    var t := pat + s;
    assert t[..|pat|] == pat;
    assert t[|pat|..] == s;
  }

  /** Decoding applies the four replacements in this order. */
  function Unescape(body: string): (r: string)
    ensures |r| <= |body|
  {
    Replace(Replace(Replace(Replace(body, "\\n", "\n"), "\\r", "\r"), "\\t", "\t"), "\\\\", "\\")
  }

  /** `visitString`: drop the delimiting quotes, then decode. The lexer's STRING
      token always carries both quotes. */
  function StringLiteral(token: string): (r: string)
    requires |token| >= 2
    ensures |r| <= |token| - 2
  {
    Unescape(token[1..|token| - 1])
  }

  /** A body without backslashes is its own value. */
  lemma UnescapePlain(body: string)
    requires '\\' !in body
    ensures Unescape(body) == body
  {
    ReplaceWithoutLead(body, "\\n", "\n");
    ReplaceWithoutLead(body, "\\r", "\r");
    ReplaceWithoutLead(body, "\\t", "\t");
    ReplaceWithoutLead(body, "\\\\", "\\");
  }

  lemma StringLiteralPlain(token: string)
    requires |token| >= 2 && '\\' !in token
    ensures StringLiteral(token) == token[1..|token| - 1]
  {
    UnescapePlain(token[1..|token| - 1]);
  }

  /** How a program text would write a backslash-free string: newline, return
      and tab as two-character escapes. */
  function Escape(s: string): string
  {
    if s == [] then []
    else
      (if s[0] == '\n' then "\\n" else if s[0] == '\r' then "\\r"
       else if s[0] == '\t' then "\\t" else [s[0]]) + Escape(s[1..])
  }

  /** Decoding undoes escaping for every string without backslashes. */
  lemma {:induction false} UnescapeEscape(s: string)
    requires '\\' !in s
    ensures Unescape(Escape(s)) == s
    decreases |s|
  {
    if s != [] {
      var c := s[0];
      var x := Escape(s[1..]);
      UnescapeEscape(s[1..]);
      var p1 := Replace(x, "\\n", "\n");
      var p2 := Replace(p1, "\\r", "\r");
      var p3 := Replace(p2, "\\t", "\t");
      assert Replace(p3, "\\\\", "\\") == s[1..];
      if c == '\n' {
        ReplaceHead(x, "\\n", "\n");
        ReplaceCons('\n', p1, "\\r", "\r");
        ReplaceCons('\n', p2, "\\t", "\t");
        ReplaceCons('\n', p3, "\\\\", "\\");
      } else if c == '\r' {
        assert "\\r" + x == ['\\'] + (['r'] + x);
        ReplaceBackslashOther('r', x, 'n', "\n");
        ReplaceHead(p1, "\\r", "\r");
        ReplaceCons('\r', p2, "\\t", "\t");
        ReplaceCons('\r', p3, "\\\\", "\\");
      } else if c == '\t' {
        ReplaceBackslashOther('t', x, 'n', "\n");
        ReplaceBackslashOther('t', p1, 'r', "\r");
        ReplaceHead(p2, "\\t", "\t");
        ReplaceCons('\t', p3, "\\\\", "\\");
      } else {
        ReplaceCons(c, x, "\\n", "\n");
        ReplaceCons(c, p1, "\\r", "\r");
        ReplaceCons(c, p2, "\\t", "\t");
        ReplaceCons(c, p3, "\\\\", "\\");
      }
    }
  }

  /** A two-character pattern whose second character does not follow keeps the first. */
  lemma ReplaceMismatch(c: char, e: char, x: string, pat: string, rep: string)
    requires |pat| == 2 && pat[0] == c && pat[1] != e
    ensures Replace([c, e] + x, pat, rep) == [c] + Replace([e] + x, pat, rep)
  {
    var t := [c, e] + x;
    assert t[..2] != pat by { assert t[..2][1] == e; }
    assert t[1..] == [e] + x;
  }

  /** A backslash followed by a letter other than the pattern's second keeps both. */
  lemma ReplaceBackslashOther(e: char, x: string, p: char, rep: string)
    requires e != p && e != '\\'
    ensures Replace(['\\', e] + x, ['\\', p], rep) == ['\\', e] + Replace(x, ['\\', p], rep)
  {
    ReplaceMismatch('\\', e, x, ['\\', p], rep);
    ReplaceCons(e, x, ['\\', p], rep);
  }

  /** The replacements run one after another: an escaped backslash followed by
      `n` decodes to a backslash and a newline, not to a backslash and `n`. */
  lemma UnescapeOrderQuirk()
    ensures Unescape(['\\', '\\', 'n']) == ['\\', '\n']
  {
    ReplaceMismatch('\\', '\\', ['n'], "\\n", "\n");
    ReplaceHead([], "\\n", "\n");
    assert ['\\', 'n'] + [] == "\\n";
    assert Replace(['\\', '\\', 'n'], "\\n", "\n") == ['\\', '\n'];
    ReplaceBackslashOther('\n', [], 'r', "\r");
    ReplaceBackslashOther('\n', [], 't', "\t");
    ReplaceBackslashOther('\n', [], '\\', "\\");
  }

  lemma UnescapeExamples()
    ensures Unescape("\\t") == "\t"
    ensures Unescape("\\\\") == "\\"
  {
    ReplaceBackslashOther('t', [], 'n', "\n");
    ReplaceBackslashOther('t', [], 'r', "\r");
    ReplaceHead([], "\\t", "\t");
    assert "\\t" + [] == "\\t";
    ReplaceMismatch('\\', '\\', [], "\\n", "\n");
    ReplaceMismatch('\\', '\\', [], "\\r", "\r");
    ReplaceMismatch('\\', '\\', [], "\\t", "\t");
    ReplaceHead([], "\\\\", "\\");
    assert "\\\\" + [] == "\\\\";
  }
}
