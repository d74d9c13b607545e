/** The dispatch keys: `Selector` (name and exact parameter types, the renderer
    key), `FunctionMap.SpecificSelector` (parameter types only) and
    `FunctionMap.GenericSelector` (name and arity), with their `equals` and
    `hashCode`. Class objects are tags; their identity hash codes are an input. */
module Selectors {
  import opened Values

  datatype Selector = Selector(name: string, parameterTypes: seq<Tag>)
  datatype SpecificSelector = SpecificSelector(parameterTypes: seq<Tag>)
  datatype GenericSelector = GenericSelector(name: string, arity: int)

  /** The argument of `equals(Object)`: one of the key classes, or anything else. */
  datatype JavaObject =
    | SelectorObj(sel: Selector)
    | SpecificObj(spec: SpecificSelector)
    | GenericObj(gen: GenericSelector)
    | OtherObj

  /** `Arrays.equals` on two (non-null) `Class[]`: same length, identical class at every index. */
  function ArraysEquals(a: seq<Tag>, b: seq<Tag>): (r: bool)
    ensures r ==> |a| == |b|
    ensures |a| == |b| && a != [] && a[0] != b[0] ==> !r
  {
    if |a| != |b| then false
    else if a == [] then true
    else a[0] == b[0] && ArraysEquals(a[1..], b[1..])
  }

  /** Elementwise equality of type arrays is exactly equality of the tuples. */
  lemma {:induction false} ArraysEqualsIsEquality(a: seq<Tag>, b: seq<Tag>)
    ensures ArraysEquals(a, b) <==> a == b
  {
    if |a| == |b| && a != [] {
      ArraysEqualsIsEquality(a[1..], b[1..]);
      assert a == [a[0]] + a[1..] && b == [b[0]] + b[1..];
    }
  }

  /** `Selector.equals`: false for a non-Selector; otherwise equal names and
      elementwise-equal parameter types. */
  function Equals(s: Selector, obj: JavaObject): (r: bool)
    ensures r <==> obj.SelectorObj? && obj.sel.name == s.name &&
                   |obj.sel.parameterTypes| == |s.parameterTypes| &&
                   forall i :: 0 <= i < |s.parameterTypes| ==>
                     s.parameterTypes[i] == obj.sel.parameterTypes[i]
  {
    match obj
    case SelectorObj(o) =>
      ArraysEqualsIsEquality(s.parameterTypes, o.parameterTypes);
      s.name == o.name && ArraysEquals(s.parameterTypes, o.parameterTypes)
    case _ => false
  }

  /** `SpecificSelector.equals`: false for any other class, else `Arrays.equals`. */
  function SpecificEquals(s: SpecificSelector, obj: JavaObject): (r: bool)
    ensures r <==> obj == SpecificObj(s)
  {
    match obj
    case SpecificObj(o) =>
      ArraysEqualsIsEquality(s.parameterTypes, o.parameterTypes);
      ArraysEquals(s.parameterTypes, o.parameterTypes)
    case _ => false
  }

  /** `GenericSelector.equals`: same name and same arity. */
  function GenericEquals(s: GenericSelector, obj: JavaObject): (r: bool)
    ensures r <==> obj == GenericObj(s)
  {
    match obj
    case GenericObj(o) => s.name == o.name && s.arity == o.arity
    case _ => false
  }

  lemma EqualsReflexive(s: Selector)
    ensures Equals(s, SelectorObj(s))
  {
  }

  lemma EqualsSymmetric(s: Selector, t: Selector)
    ensures Equals(s, SelectorObj(t)) <==> Equals(t, SelectorObj(s))
  {
  }

  /** Two selectors are equal keys exactly when they are the same value, so a
      Hashtable keyed by them behaves as a map keyed by (name, type tuple). */
  lemma EqualsIsValueEquality(s: Selector, t: Selector)
    ensures Equals(s, SelectorObj(t)) <==> s == t
  {
    if Equals(s, SelectorObj(t)) {
      assert s.parameterTypes == t.parameterTypes;
    }
  }

  // hashCode

  /** `String.hashCode`: h = 31*h + c over the characters, in Java int arithmetic. */
  function StringHash(s: string): (h: int)
    ensures IsInt32(h)
    ensures s == [] ==> h == 0
    ensures |s| == 1 ==> h == s[0] as int
  {
    if s == [] then 0 else Wrap32(31 * StringHash(s[..|s| - 1]) + s[|s| - 1] as int)
  }

  /** `Arrays.hashCode(Class[])`: starts at 1, then h = 31*h + element hash. */
  function ArraysHash(a: seq<Tag>, classHash: Tag -> int): (h: int)
    ensures IsInt32(h)
    ensures a == [] ==> h == 1
  {
    if a == [] then 1 else Wrap32(31 * ArraysHash(a[..|a| - 1], classHash) + Wrap32(classHash(a[|a| - 1])))
  }

  /** `Selector.hashCode`: the product of the name's and the types' hash codes. */
  function HashCode(s: Selector, classHash: Tag -> int): (h: int)
    ensures IsInt32(h)
    ensures (h - StringHash(s.name) * ArraysHash(s.parameterTypes, classHash)) % Two32 == 0
    ensures s.parameterTypes == [] ==> h == StringHash(s.name)
  {
    Wrap32(StringHash(s.name) * ArraysHash(s.parameterTypes, classHash))
  }

  /** Equal selectors have equal hash codes, whatever the classes' identity hashes are. */
  lemma EqualSelectorsHashEqual(s: Selector, t: Selector, classHash: Tag -> int)
    requires Equals(s, SelectorObj(t))
    ensures HashCode(s, classHash) == HashCode(t, classHash)
  {
    EqualsIsValueEquality(s, t);
  }

  /** `SpecificSelector.hashCode` is `Arrays.hashCode`; equal keys hash equally. */
  lemma EqualSpecificSelectorsHashEqual(s: SpecificSelector, t: SpecificSelector, classHash: Tag -> int)
    requires SpecificEquals(s, SpecificObj(t))
    ensures ArraysHash(s.parameterTypes, classHash) == ArraysHash(t.parameterTypes, classHash)
  {
  }

  /** `GenericSelector.hashCode`: the name's hash times the arity. */
  function GenericHashCode(s: GenericSelector): (h: int)
    ensures IsInt32(h)
    ensures (h - StringHash(s.name) * s.arity) % Two32 == 0
    ensures s.arity == 0 ==> h == 0
    ensures s.arity == 1 ==> h == StringHash(s.name)
  {
    var a := StringHash(s.name);
    var w := Wrap32(s.arity);
    MulCongruent32(a, w, s.arity);
    TransCongruent32(Wrap32(a * w), a * w, a * s.arity);
    Wrap32(a * w)
  }

  /** Equal generic selectors hash equally; all nullary ones hash to 0 and are
      told apart by `equals` alone. */
  lemma GenericSelectorsHash(s: GenericSelector, t: GenericSelector)
    requires GenericEquals(s, GenericObj(t))
    ensures GenericHashCode(s) == GenericHashCode(t)
    ensures GenericHashCode(GenericSelector(s.name, 0)) == 0
  {
  }

  /** The empty type array hashes to 1, so a selector with no parameters hashes to its name's hash. */
  lemma NullarySelectorHash(name: string, classHash: Tag -> int)
    ensures HashCode(Selector(name, []), classHash) == StringHash(name)
  {
  }
}
