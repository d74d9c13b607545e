/** Runtime values of the language, their type tags, and the assignability
    relation that dispatch uses in place of java.lang.Class.isAssignableFrom. */
module Values {

  datatype Option<+T> = None | Some(value: T)

  /** The runtime classes the engine dispatches on. `ObjectT` is the root;
      `DecimalT` (java.math.BigDecimal) sits below `NumberT` (java.lang.Number). */
  datatype Tag = ObjectT | NumberT | DecimalT | StringT | ColorT | FontT | DictT | MapT

  /** The direct superclass of a tag, `None` for the root. */
  function Parent(t: Tag): Option<Tag>
  {
    match t
    case ObjectT => None
    case DecimalT => Some(NumberT)
    case _ => Some(ObjectT)
  }

  /** Distance of a tag from the root: makes the climb in IsAssignableFrom terminate. */
  function Depth(t: Tag): nat
  {
    match t
    case ObjectT => 0
    case DecimalT => 2
    case _ => 1
  }

  /** `declared.isAssignableFrom(actual)`: `declared` is `actual` or one of its ancestors. */
  predicate IsAssignableFrom(declared: Tag, actual: Tag)
    decreases Depth(actual)
  {
    declared == actual ||
    match Parent(actual)
    case None => false
    case Some(p) => Depth(p) < Depth(actual) && IsAssignableFrom(declared, p)
  }

  lemma AssignableReflexive(t: Tag)
    ensures IsAssignableFrom(t, t)
  {
  }

  /** Every runtime type is assignable to Object, so an `Object` parameter accepts anything. */
  lemma {:induction false} ObjectAcceptsAll(t: Tag)
    ensures IsAssignableFrom(ObjectT, t)
    decreases Depth(t)
  {
    match Parent(t)
    case None =>
    case Some(p) => ObjectAcceptsAll(p);
  }

  lemma {:induction false} AssignableTransitive(a: Tag, b: Tag, c: Tag)
    requires IsAssignableFrom(a, b) && IsAssignableFrom(b, c)
    ensures IsAssignableFrom(a, c)
    decreases Depth(c)
  {
    if b != c {
      match Parent(c)
      case Some(p) => AssignableTransitive(a, b, p);
    }
  }

  /** A value that a cell can carry. Foreign objects (Color, Font, Dict, Map) are opaque ids. */
  datatype Value =
    | Num(n: int)
    | Str(s: string)
    | ColorV(id: nat)
    | FontV(id: nat)
    | DictV(id: nat)
    | MapV(id: nat)

  /** `x.getClass()` for a non-null value. */
  function TypeOf(v: Value): (t: Tag)
    ensures t != ObjectT && t != NumberT
  {
    match v
    case Num(_) => DecimalT
    case Str(_) => StringT
    case ColorV(_) => ColorT
    case FontV(_) => FontT
    case DictV(_) => DictT
    case MapV(_) => MapT
  }

  /** A Java reference that may be null: `None` is null. */
  type Nullable = Option<Value>

  /** Identifiers standing in for Java objects the model keeps abstract:
      consumers (closures), bindings, cells, function bodies, renderers. */
  type ConsumerId = nat
  type BindingId = nat
  type CellId = nat


  // Java `int` arithmetic (32-bit two's complement, wrapping).

  const Two32: int := 0x1_0000_0000
  const Two31: int := 0x8000_0000

  predicate IsInt32(x: int) { -Two31 <= x < Two31 }

  function Wrap32(x: int): (r: int)
    ensures IsInt32(r)
    ensures (r - x) % Two32 == 0
    ensures IsInt32(x) ==> r == x
  {
    var m := (x + Two31) % Two32;
    assert (m - Two31 - x) == ((x + Two31) % Two32) - (x + Two31);
    m - Two31
  }

  /** Multiplying both sides keeps a congruence modulo 2^32. */
  lemma MulCongruent32(a: int, x: int, y: int)
    requires (x - y) % Two32 == 0
    ensures (a * x - a * y) % Two32 == 0
  {
    var k := (x - y) / Two32;
    assert x - y == Two32 * k;
    assert a * x - a * y == Two32 * (a * k);
  }

  /** Congruence modulo 2^32 is transitive. */
  lemma TransCongruent32(x: int, y: int, z: int)
    requires (x - y) % Two32 == 0 && (y - z) % Two32 == 0
    ensures (x - z) % Two32 == 0
  {
    var k := (x - y) / Two32;
    var j := (y - z) / Two32;
    assert x - y == Two32 * k && y - z == Two32 * j;
    assert x - z == Two32 * (k + j);
  }

  function Pow2(n: nat): (p: nat)
    ensures p >= 1
  {
    if n == 0 then 1 else 2 * Pow2(n - 1)
  }

  lemma Pow2At32()
    ensures Pow2(32) == Two32
  {
    assert Pow2(8) == 256;
    assert Pow2(16) == 65536 by {
      assert Pow2(10) == 1024; assert Pow2(12) == 4096; assert Pow2(14) == 16384;
    }
    assert Pow2(24) == 16777216 by {
      assert Pow2(18) == 262144; assert Pow2(20) == 1048576; assert Pow2(22) == 4194304;
    }
    assert Pow2(26) == 67108864; assert Pow2(28) == 268435456; assert Pow2(30) == 1073741824;
  }

  /** The low `n` bits of `x | y` for non-negative `x` and `y`, bit by bit. */
  function OrBits(x: nat, y: nat, n: nat): nat
    decreases n
  {
    if n == 0 then 0
    else 2 * OrBits(x / 2, y / 2, n - 1) + (if x % 2 == 1 || y % 2 == 1 then 1 else 0)
  }

  /** The 32-bit pattern of a Java int, read as an unsigned number. */
  function Unsigned(x: int): (u: nat)
    requires IsInt32(x)
    ensures u < Two32 && (u - x) % Two32 == 0
  {
    if x < 0 then x + Two32 else x
  }

  /** Java `x | y` on int. */
  function JavaOr(x: int, y: int): int
    requires IsInt32(x) && IsInt32(y)
  {
    var u := OrBits(Unsigned(x), Unsigned(y), 32);
    if u >= Two31 then u - Two32 else u
  }

  lemma {:induction false} OrBitsZero(y: nat, n: nat)
    requires y < Pow2(n)
    ensures OrBits(0, y, n) == y
  {
    if n > 0 { OrBitsZero(y / 2, n - 1); }
  }

  /** All bits set absorbs: `-1 | y == -1`. */
  lemma {:induction false} OrBitsOnes(y: nat, n: nat)
    requires y < Pow2(n)
    ensures OrBits(Pow2(n) - 1, y, n) == Pow2(n) - 1
  {
    if n > 0 {
      assert (Pow2(n) - 1) / 2 == Pow2(n - 1) - 1;
      OrBitsOnes(y / 2, n - 1);
    }
  }

  lemma {:induction false} OrBitsSym(x: nat, y: nat, n: nat)
    ensures OrBits(x, y, n) == OrBits(y, x, n)
  {
    if n > 0 { OrBitsSym(x / 2, y / 2, n - 1); }
  }

  /** On two-bit values the OR is computed bit by bit. */
  lemma OrBitsSmall(x: nat, y: nat, n: nat)
    requires x < 4 && y < 4 && n >= 2
    ensures OrBits(x, y, n) ==
      2 * (if x / 2 == 1 || y / 2 == 1 then 1 else 0) + (if x % 2 == 1 || y % 2 == 1 then 1 else 0)
  {
    OrBitsZero(0, n - 2);
    assert OrBits(x / 2, y / 2, n - 1) ==
      2 * OrBits(0, 0, n - 2) + (if x / 2 == 1 || y / 2 == 1 then 1 else 0);
  }
}
