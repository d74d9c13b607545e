/** The renderer registry (RendererMap): draw procedures keyed by (name, exact
    parameter types), resolved by the same dispatch rule as generic functions. */
module Renderers {
  import opened Values
  import opened Selectors
  import opened FunctionRegistry

  /** The renderers `resolve` filters out for a name and argument types. */
  ghost function RendererCandidates(renderers: map<Selector, Body>, name: string, types: seq<Tag>): set<Body>
  {
    set k | k in renderers && k.name == name && Admissible(k.parameterTypes, types) :: renderers[k]
  }

  class RendererMap {
    var renderers: map<Selector, Body>

    constructor ()
      ensures renderers == map[]
    {
      renderers := map[];
    }

    /** `define(name, types, r)`: overwrites the renderer of an equal selector,
        leaves every other selector's renderer as it was. */
    method Define(name: string, parameterTypes: seq<Tag>, renderer: Body)
      modifies this
      ensures renderers == old(renderers)[Selector(name, parameterTypes) := renderer]
      ensures forall k :: k in old(renderers) && k != Selector(name, parameterTypes) ==>
        k in renderers && renderers[k] == old(renderers)[k]
    {
      renderers := renderers[Selector(name, parameterTypes) := renderer];
    }

    /** `define(name, P0, r)`: a one-argument renderer passed `args[0]`. */
    method Define1(name: string, p0: Tag, r: nat)
      modifies this
      ensures renderers == old(renderers)[Selector(name, [p0]) := Positional(r, 1)]
    {
      Define(name, [p0], Positional(r, 1));
    }

    /** `define(name, P0, P1, P2, r)`: passed `args[0..2]`. */
    method Define3(name: string, p0: Tag, p1: Tag, p2: Tag, r: nat)
      modifies this
      ensures renderers == old(renderers)[Selector(name, [p0, p1, p2]) := Positional(r, 3)]
    {
      Define(name, [p0, p1, p2], Positional(r, 3));
    }

    /** `define(name, P0, P1, P2, P3, r)`: passed `args[0..3]`. */
    method Define4(name: string, p0: Tag, p1: Tag, p2: Tag, p3: Tag, r: nat)
      modifies this
      ensures renderers == old(renderers)[Selector(name, [p0, p1, p2, p3]) := Positional(r, 4)]
    {
      Define(name, [p0, p1, p2, p3], Positional(r, 4));
    }

    /** `resolve`: some renderer with the query's name and arity whose every
        declared type is assignable from the argument's, or null when none is. */
    method Resolve(name: string, types: seq<Tag>) returns (r: Option<Body>)
      ensures r.None? <==>
        forall k :: k in renderers ==> !(k.name == name && Admissible(k.parameterTypes, types))
      ensures r.Some? ==>
        exists k :: k in renderers && renderers[k] == r.value && k.name == name &&
          |k.parameterTypes| == |types| &&
          (forall i :: 0 <= i < |types| ==> IsAssignableFrom(k.parameterTypes[i], types[i]))
      ensures r.None? <==> RendererCandidates(renderers, name, types) == {}
      ensures r.Some? ==> r.value in RendererCandidates(renderers, name, types)
    {
      if k :| k in renderers && k.name == name && Admissible(k.parameterTypes, types) {
        r := Some(renderers[k]);
        assert r.value in RendererCandidates(renderers, name, types);
      } else {
        r := None;
      }
    }
  }

  /** The built-in `fillRect(BigDecimal x4)` accepts four decimals and nothing of another arity. */
  lemma FillRectDispatch(r: Body)
    ensures RendererCandidates(map[Selector("fillRect", [DecimalT, DecimalT, DecimalT, DecimalT]) := r],
                               "fillRect", [DecimalT, DecimalT, DecimalT, DecimalT]) == {r}
    ensures RendererCandidates(map[Selector("fillRect", [DecimalT, DecimalT, DecimalT, DecimalT]) := r],
                               "fillRect", [DecimalT, DecimalT]) == {}
  {
    var k := Selector("fillRect", [DecimalT, DecimalT, DecimalT, DecimalT]);
    assert Admissible(k.parameterTypes, [DecimalT, DecimalT, DecimalT, DecimalT]);
  }
}
