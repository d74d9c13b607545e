/** The generic-function registry (FunctionMap): per (name, arity) a reactive
    table from exact parameter-type tuples to overloads, and multiple dispatch
    over it. */
module FunctionRegistry {
  import opened Values
  import opened Cells
  import opened Selectors

  /** An overload body. Closures are ids: `Raw(id)` receives the whole locals
      array; `Positional(id, k)` is the adapter the typed `define` overloads
      build, which casts and passes `args[0..k-1]` to function `id`. */
  datatype Body = Raw(id: nat) | Positional(id: nat, k: nat)

  /** `SpecificFunctionInfo`: how many locals to allocate, and the body. */
  datatype FunctionInfo = FunctionInfo(localCount: int, body: Body)

  /** The overload table of one generic function. */
  type Table = map<SpecificSelector, FunctionInfo>

  /** What invoking a body calls: a foreign function and the arguments it gets,
      or `None` when the adapter's `args[i]` is out of bounds. */
  function Invocation(body: Body, locals: seq<Nullable>): (r: Option<(nat, seq<Nullable>)>)
    ensures body.Raw? ==> r == Some((body.id, locals))
    ensures body.Positional? ==> (r.Some? <==> body.k <= |locals|)
    ensures r.Some? && body.Positional? ==>
      r.value.0 == body.id && |r.value.1| == body.k &&
      forall i :: 0 <= i < body.k ==> r.value.1[i] == locals[i]
  {
    match body
    case Raw(id) => Some((id, locals))
    case Positional(id, k) => if k <= |locals| then Some((id, locals[..k])) else None
  }

  /** An overload declared with `declared` may take arguments of runtime types
      `actual`: same arity, and every declared type is assignable from the argument's. */
  predicate Admissible(declared: seq<Tag>, actual: seq<Tag>)
    ensures Admissible(declared, actual) ==> |declared| == |actual|
    ensures declared == actual ==> Admissible(declared, actual)
  {
    |declared| == |actual| &&
    forall i :: 0 <= i < |actual| ==> IsAssignableFrom(declared[i], actual[i])
  }

  /** The overloads `resolve` filters out of the table for the argument types. */
  ghost function Candidates(functions: Table, types: seq<Tag>): (c: set<FunctionInfo>)
    ensures c <= functions.Values
    ensures SpecificSelector(types) in functions ==> functions[SpecificSelector(types)] in c
  {
    set k | k in functions && Admissible(k.parameterTypes, types) :: functions[k]
  }

  /** `resolve`: some admissible overload, or null when there is none. The
      table's iteration order is unspecified, so which admissible overload is
      returned is left open; the most specific one is not preferred. */
  method Resolve(functions: Table, types: seq<Tag>) returns (r: Option<FunctionInfo>)
    ensures r.None? <==> forall k :: k in functions ==> !Admissible(k.parameterTypes, types)
    ensures r.Some? ==>
      exists k :: k in functions && functions[k] == r.value &&
        |k.parameterTypes| == |types| &&
        (forall i :: 0 <= i < |types| ==> IsAssignableFrom(k.parameterTypes[i], types[i]))
    ensures r.None? <==> Candidates(functions, types) == {}
    ensures r.Some? ==> r.value in Candidates(functions, types)
  {
    if k :| k in functions && Admissible(k.parameterTypes, types) {
      r := Some(functions[k]);
      assert r.value in Candidates(functions, types);
    } else {
      r := None;
    }
  }

  /** Dispatch does not pick the most specific overload: with `f(Object)` and
      `f(BigDecimal)` both defined, either may be returned for a decimal argument. */
  lemma AmbiguousDispatchAllowsEither(general: FunctionInfo, specific: FunctionInfo)
    ensures Candidates(map[SpecificSelector([ObjectT]) := general,
                           SpecificSelector([DecimalT]) := specific], [DecimalT]) == {general, specific}
  {
    var t := map[SpecificSelector([ObjectT]) := general, SpecificSelector([DecimalT]) := specific];
    ObjectAcceptsAll(DecimalT);
    assert Admissible([ObjectT], [DecimalT]);
    assert Admissible([DecimalT], [DecimalT]);
    assert general == t[SpecificSelector([ObjectT])];
    assert specific == t[SpecificSelector([DecimalT])];
  }

  /** An overload taking `Object` everywhere accepts every argument tuple of its arity. */
  lemma {:induction false} ObjectOverloadAcceptsAll(types: seq<Tag>)
    ensures Admissible(seq(|types|, _ => ObjectT), types)
  {
    forall i | 0 <= i < |types| ensures IsAssignableFrom(ObjectT, types[i]) {
      ObjectAcceptsAll(types[i]);
    }
  }

  /** GenericFunction: the reactive overload table for one (name, arity). */
  class GenericFunction {
    var applicableSpecificFunctions: Table
    var consumers: seq<ConsumerId>
    /** Every copy of the table pushed to a subscriber, in order. */
    ghost var log: seq<Delivered<Table>>

    constructor ()
      ensures applicableSpecificFunctions == map[] && consumers == [] && log == []
    {
      applicableSpecificFunctions, consumers, log := map[], [], [];
    }

    /** `update()`: a copy of the whole table to every subscriber, in list order. */
    method Update()
      modifies this
      ensures log == old(log) + Fanout(consumers, applicableSpecificFunctions)
      ensures consumers == old(consumers)
      ensures applicableSpecificFunctions == old(applicableSpecificFunctions)
    {
      for i := 0 to |consumers|
        invariant log == old(log) + Fanout(consumers[..i], applicableSpecificFunctions)
        invariant consumers == old(consumers)
        invariant applicableSpecificFunctions == old(applicableSpecificFunctions)
      {
        assert consumers[..i + 1] == consumers[..i] + [consumers[i]];
        FanoutAppend(consumers[..i], [consumers[i]], applicableSpecificFunctions);
        log := log + [Delivered(consumers[i], applicableSpecificFunctions)];
      }
      assert consumers[..|consumers|] == consumers;
    }

    /** `define`: puts the overload under its type tuple (overwriting an equal
        tuple's entry), then pushes the new table to every subscriber. Copies
        pushed earlier stay in the log as they were. */
    method Define(parameterTypes: seq<Tag>, info: FunctionInfo)
      modifies this
      ensures applicableSpecificFunctions ==
        old(applicableSpecificFunctions)[SpecificSelector(parameterTypes) := info]
      ensures forall k :: k != SpecificSelector(parameterTypes) ==>
        (k in applicableSpecificFunctions <==> k in old(applicableSpecificFunctions)) &&
        (k in applicableSpecificFunctions ==>
          applicableSpecificFunctions[k] == old(applicableSpecificFunctions)[k])
      ensures log == old(log) + Fanout(consumers, applicableSpecificFunctions)
      ensures consumers == old(consumers)
    {
      applicableSpecificFunctions := applicableSpecificFunctions[SpecificSelector(parameterTypes) := info];
      Update();
    }

    /** `consume`: adds the subscriber and pushes it a copy of the current table at
        once. Its binding is `Unsubscribe(c)`. */
    method Consume(c: ConsumerId)
      modifies this
      ensures consumers == old(consumers) + [c]
      ensures log == old(log) + [Delivered(c, applicableSpecificFunctions)]
      ensures applicableSpecificFunctions == old(applicableSpecificFunctions)
    {
      consumers := consumers + [c];
      log := log + [Delivered(c, applicableSpecificFunctions)];
    }

    /** The binding `consume` returns: removes that subscriber. */
    method Unsubscribe(c: ConsumerId)
      modifies this
      ensures consumers == RemoveFirst(old(consumers), c)
      ensures log == old(log) && applicableSpecificFunctions == old(applicableSpecificFunctions)
    {
      consumers := RemoveFirst(consumers, c);
    }
  }

  /** FunctionMap: the table of generic functions, keyed by (name, arity). */
  class FunctionMap {
    var genericFunctions: map<GenericSelector, GenericFunction>
    ghost var Repr: set<object>

    ghost predicate Valid()
      reads this, Repr
    {
      && this in Repr
      && (forall k :: k in genericFunctions ==> genericFunctions[k] in Repr)
      && (forall k1, k2 :: k1 in genericFunctions && k2 in genericFunctions && k1 != k2 ==>
            genericFunctions[k1] != genericFunctions[k2])
    }

    /** The overloads a generic function holds, empty when it does not exist yet. */
    ghost function TableOf(sel: GenericSelector): Table
      reads this, Repr
      requires Valid()
    {
      if sel in genericFunctions then genericFunctions[sel].applicableSpecificFunctions else map[]
    }

    /** The subscribers of a generic function, none when it does not exist yet. */
    ghost function ConsumersOf(sel: GenericSelector): seq<ConsumerId>
      reads this, Repr
      requires Valid()
    {
      if sel in genericFunctions then genericFunctions[sel].consumers else []
    }

    /** The tables a generic function has pushed, none when it does not exist yet. */
    ghost function LogOf(sel: GenericSelector): seq<Delivered<Table>>
      reads this, Repr
      requires Valid()
    {
      if sel in genericFunctions then genericFunctions[sel].log else []
    }

    constructor ()
      ensures Valid() && fresh(Repr) && genericFunctions == map[]
    {
      genericFunctions := map[];
      Repr := {this};
    }

    /** `getGenericFunction`: the one generic function for `sel`, created (empty,
        with no subscribers) only when absent. */
    method GetGenericFunction(sel: GenericSelector) returns (gf: GenericFunction)
      requires Valid()
      modifies this
      ensures Valid() && fresh(Repr - old(Repr))
      ensures sel in genericFunctions && gf == genericFunctions[sel]
      ensures sel in old(genericFunctions) ==>
        genericFunctions == old(genericFunctions) && Repr == old(Repr)
      ensures sel !in old(genericFunctions) ==>
        fresh(gf) && genericFunctions == old(genericFunctions)[sel := gf] &&
        gf.applicableSpecificFunctions == map[] && gf.consumers == [] && gf.log == []
    {
      if sel in genericFunctions {
        gf := genericFunctions[sel];
      } else {
        gf := new GenericFunction();
        genericFunctions := genericFunctions[sel := gf];
        Repr := Repr + {gf};
      }
    }

    /** `define(name, types, localCount, f)`: registers into the generic function
        for (name, |types|), which pushes its new table to its subscribers; no
        other generic function changes. */
    method Define(name: string, parameterTypes: seq<Tag>, localCount: int, body: Body)
      requires Valid()
      modifies this, Repr
      ensures Valid() && fresh(Repr - old(Repr))
      ensures GenericSelector(name, |parameterTypes|) in genericFunctions
      ensures genericFunctions.Keys == old(genericFunctions).Keys + {GenericSelector(name, |parameterTypes|)}
      ensures TableOf(GenericSelector(name, |parameterTypes|)) ==
        old(TableOf(GenericSelector(name, |parameterTypes|)))[SpecificSelector(parameterTypes) := FunctionInfo(localCount, body)]
      ensures ConsumersOf(GenericSelector(name, |parameterTypes|)) == old(ConsumersOf(GenericSelector(name, |parameterTypes|)))
      ensures LogOf(GenericSelector(name, |parameterTypes|)) ==
        old(LogOf(GenericSelector(name, |parameterTypes|))) + Fanout(ConsumersOf(GenericSelector(name, |parameterTypes|)), TableOf(GenericSelector(name, |parameterTypes|)))
      ensures forall k :: k in old(genericFunctions) && k != GenericSelector(name, |parameterTypes|) ==>
        k in genericFunctions && genericFunctions[k] == old(genericFunctions[k]) && unchanged(genericFunctions[k])
    {
      var gf := GetGenericFunction(GenericSelector(name, |parameterTypes|));
      gf.Define(parameterTypes, FunctionInfo(localCount, body));
    }

    /** `define(name, types, f)`: as above with `localCount` = the number of parameter types. */
    method DefineTypes(name: string, parameterTypes: seq<Tag>, body: Body)
      requires Valid()
      modifies this, Repr
      ensures Valid() && fresh(Repr - old(Repr))
      ensures GenericSelector(name, |parameterTypes|) in genericFunctions
      ensures genericFunctions.Keys == old(genericFunctions).Keys + {GenericSelector(name, |parameterTypes|)}
      ensures TableOf(GenericSelector(name, |parameterTypes|)) ==
        old(TableOf(GenericSelector(name, |parameterTypes|)))[SpecificSelector(parameterTypes) := FunctionInfo(|parameterTypes|, body)]
      ensures ConsumersOf(GenericSelector(name, |parameterTypes|)) == old(ConsumersOf(GenericSelector(name, |parameterTypes|)))
      ensures LogOf(GenericSelector(name, |parameterTypes|)) ==
        old(LogOf(GenericSelector(name, |parameterTypes|))) + Fanout(ConsumersOf(GenericSelector(name, |parameterTypes|)), TableOf(GenericSelector(name, |parameterTypes|)))
      ensures forall k :: k in old(genericFunctions) && k != GenericSelector(name, |parameterTypes|) ==>
        k in genericFunctions && genericFunctions[k] == old(genericFunctions[k]) && unchanged(genericFunctions[k])
    {
      Define(name, parameterTypes, |parameterTypes|, body);
    }

    /** `define(name, supplier)`: a nullary overload whose adapter ignores the locals. */
    method Define0(name: string, f: nat)
      requires Valid()
      modifies this, Repr
      ensures Valid() && fresh(Repr - old(Repr))
      ensures GenericSelector(name, 0) in genericFunctions
      ensures genericFunctions.Keys == old(genericFunctions).Keys + {GenericSelector(name, 0)}
      ensures TableOf(GenericSelector(name, 0)) ==
        old(TableOf(GenericSelector(name, 0)))[SpecificSelector([]) := FunctionInfo(0, Positional(f, 0))]
      ensures ConsumersOf(GenericSelector(name, 0)) == old(ConsumersOf(GenericSelector(name, 0)))
      ensures LogOf(GenericSelector(name, 0)) ==
        old(LogOf(GenericSelector(name, 0))) + Fanout(ConsumersOf(GenericSelector(name, 0)), TableOf(GenericSelector(name, 0)))
      ensures forall k :: k in old(genericFunctions) && k != GenericSelector(name, 0) ==>
        k in genericFunctions && genericFunctions[k] == old(genericFunctions[k]) && unchanged(genericFunctions[k])
    {
      DefineTypes(name, [], Positional(f, 0));
    }

    /** `define(name, P0, f)`: a unary overload passed `args[0]`. */
    method Define1(name: string, p0: Tag, f: nat)
      requires Valid()
      modifies this, Repr
      ensures Valid() && fresh(Repr - old(Repr))
      ensures GenericSelector(name, 1) in genericFunctions
      ensures genericFunctions.Keys == old(genericFunctions).Keys + {GenericSelector(name, 1)}
      ensures TableOf(GenericSelector(name, 1)) ==
        old(TableOf(GenericSelector(name, 1)))[SpecificSelector([p0]) := FunctionInfo(1, Positional(f, 1))]
      ensures ConsumersOf(GenericSelector(name, 1)) == old(ConsumersOf(GenericSelector(name, 1)))
      ensures LogOf(GenericSelector(name, 1)) ==
        old(LogOf(GenericSelector(name, 1))) + Fanout(ConsumersOf(GenericSelector(name, 1)), TableOf(GenericSelector(name, 1)))
      ensures forall k :: k in old(genericFunctions) && k != GenericSelector(name, 1) ==>
        k in genericFunctions && genericFunctions[k] == old(genericFunctions[k]) && unchanged(genericFunctions[k])
    {
      DefineTypes(name, [p0], Positional(f, 1));
    }

    /** `define(name, P0, P1, f)`: a binary overload passed `args[0], args[1]`. */
    method Define2(name: string, p0: Tag, p1: Tag, f: nat)
      requires Valid()
      modifies this, Repr
      ensures Valid() && fresh(Repr - old(Repr))
      ensures GenericSelector(name, 2) in genericFunctions
      ensures genericFunctions.Keys == old(genericFunctions).Keys + {GenericSelector(name, 2)}
      ensures TableOf(GenericSelector(name, 2)) ==
        old(TableOf(GenericSelector(name, 2)))[SpecificSelector([p0, p1]) := FunctionInfo(2, Positional(f, 2))]
      ensures ConsumersOf(GenericSelector(name, 2)) == old(ConsumersOf(GenericSelector(name, 2)))
      ensures LogOf(GenericSelector(name, 2)) ==
        old(LogOf(GenericSelector(name, 2))) + Fanout(ConsumersOf(GenericSelector(name, 2)), TableOf(GenericSelector(name, 2)))
      ensures forall k :: k in old(genericFunctions) && k != GenericSelector(name, 2) ==>
        k in genericFunctions && genericFunctions[k] == old(genericFunctions[k]) && unchanged(genericFunctions[k])
    {
      DefineTypes(name, [p0, p1], Positional(f, 2));
    }
  }
}
