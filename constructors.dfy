/** The constructor registry (ConstructorMap): nullary object constructors by
    name, an overwrite map. Constructors are ids of the suppliers. */
module Constructors {
  import opened Values

  class ConstructorMap {
    var constructors: map<string, nat>

    constructor ()
      ensures constructors == map[]
    {
      constructors := map[];
    }

    /** `define`: the name now maps to `c`, replacing any earlier constructor;
        every other name keeps its constructor. */
    method Define(name: string, c: nat)
      modifies this
      ensures name in constructors && constructors[name] == c
      ensures forall n :: n != name ==>
        (n in constructors <==> n in old(constructors)) &&
        (n in constructors ==> constructors[n] == old(constructors)[n])
    {
      constructors := constructors[name := c];
    }

    /** `resolve`: the constructor defined last under the name, null if none was. */
    method Resolve(name: string) returns (r: Option<nat>)
      ensures name !in constructors ==> r == None
      ensures name in constructors ==> r == Some(constructors[name])
    {
      r := if name in constructors then Some(constructors[name]) else None;
    }
  }

  /** Define then resolve: the last definition wins and other names are untouched. */
  method DefineResolveScenario(m: ConstructorMap, a: string, b: string, c1: nat, c2: nat)
    requires a != b
    requires b !in m.constructors
    modifies m
    ensures a in m.constructors && m.constructors[a] == c2
    ensures b !in m.constructors
  {
    m.Define(a, c1);
    m.Define(a, c2);
    var r := m.Resolve(a);
    assert r == Some(c2);
    var s := m.Resolve(b);
    assert s == None;
  }
}
