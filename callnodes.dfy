/** The dataflow operators the compiler builds: the call node of an expression
    call, the one-shot `copy` macro, and the output call of a call statement,
    which keeps one draw entry in the canvas's list. */
module CallNodes {
  import opened Values
  import opened Cells
  import opened Slots
  import opened FunctionRegistry
  import opened Renderers
  import opened Selectors

  /** `allMatch(x -> x != null)` over the arguments. */
  predicate AllPresent(args: seq<Nullable>)
  {
    forall i :: 0 <= i < |args| ==> args[i].Some?
  }

  /** The runtime classes of the (non-null) arguments, in order. */
  function TypesOf(args: seq<Nullable>): (types: seq<Tag>)
    requires AllPresent(args)
    ensures |types| == |args|
    ensures forall i :: 0 <= i < |args| ==> types[i] == TypeOf(args[i].value)
  {
    seq(|args|, i requires 0 <= i < |args| => TypeOf(args[i].value))
  }

  /** How `new Object[localCount]` followed by `System.arraycopy` of the
      arguments ends: the locals, or the exception it throws. */
  datatype LocalsResult = Locals(locals: seq<Nullable>) | NegativeArraySize | IndexOutOfBounds

  /** The locals array of an invocation: `localCount` slots, the arguments first,
      null after them. */
  method MakeLocals(callArgs: seq<Nullable>, localCount: int) returns (r: LocalsResult)
    ensures r.NegativeArraySize? <==> localCount < 0
    ensures r.IndexOutOfBounds? <==> 0 <= localCount < |callArgs|
    ensures r.Locals? ==>
      |r.locals| == localCount && r.locals[..|callArgs|] == callArgs &&
      forall j :: |callArgs| <= j < localCount ==> r.locals[j] == None
  {
    if localCount < 0 {
      return NegativeArraySize;
    }
    var locals := new Nullable[localCount](_ => None);
    if localCount < |callArgs| {
      return IndexOutOfBounds;
    }
    for i := 0 to |callArgs|
      invariant locals[..i] == callArgs[..i]
      invariant forall j :: i <= j < localCount ==> locals[j] == None
    {
      locals[i] := callArgs[i];
    }
    assert callArgs[..|callArgs|] == callArgs;
    r := Locals(locals[..]);
  }

  /** One compiled call `name(e1, ..., en)`: the `arguments` array is allocated
      once, when the call is compiled, and every binding subscribed to the
      call's cells writes into it. */
  class CallSite {
    const name: string
    const arguments: array<Nullable>

    constructor (name: string, arity: nat)
      ensures this.name == name && arguments.Length == arity && fresh(arguments)
      ensures forall i :: 0 <= i < arity ==> arguments[i] == None
    {
      this.name := name;
      arguments := new Nullable[arity](_ => None);
    }
  }

  /** What one `update()` of a call node did. */
  datatype Outcome =
    | Waiting
    | NoOverload
    | Threw(info: FunctionInfo)
    | Published(info: FunctionInfo, locals: seq<Nullable>, v: Nullable)

  /** Invoking `info` on `n` arguments throws: `new Object[localCount]` is too
      small for `System.arraycopy` (or negative), or the typed adapter reads
      `args[i]` past the locals. */
  predicate Throws(info: FunctionInfo, n: nat)
  {
    info.localCount < n || (info.body.Positional? && info.localCount < info.body.k)
  }

  /** What `update()` does with arguments `args` and table `functions`: it waits
      until every argument is non-null and a table has arrived; it then
      dispatches on the arguments' runtime types; an admissible overload is
      invoked on its locals (the arguments, then nulls), and the body's result
      is published unless the invocation throws. */
  ghost predicate Dispatched(args: seq<Nullable>, functions: Option<Table>,
                             apply: (nat, seq<Nullable>) -> Nullable, o: Outcome)
  {
    && (o.Waiting? <==> !AllPresent(args) || functions.None?)
    && (o.NoOverload? <==>
          AllPresent(args) && functions.Some? && Candidates(functions.value, TypesOf(args)) == {})
    && ((o.Threw? || o.Published?) ==>
          AllPresent(args) && functions.Some? &&
          o.info in Candidates(functions.value, TypesOf(args)) &&
          (o.Threw? <==> Throws(o.info, |args|)))
    && (o.Published? ==>
          |o.locals| == o.info.localCount && |args| <= |o.locals| &&
          o.locals[..|args|] == args &&
          (forall j :: |args| <= j < |o.locals| ==> o.locals[j] == None) &&
          Invocation(o.info.body, o.locals).Some? &&
          o.v == apply(Invocation(o.info.body, o.locals).value.0, Invocation(o.info.body, o.locals).value.1))
  }

  /** The binding a call node holds on its generic function: removing it
      unsubscribes `consumer`. */
  datatype GenericFunctionBinding = GenericFunctionBinding(gf: GenericFunction, consumer: ConsumerId)

  /** The binding a call node's `consume` returns, with the node's state: the
      overload table last received, the values pushed to the downstream
      subscriber, its subscription to the generic function, and the argument
      bindings it holds and has released. */
  class CallNode {
    const site: CallSite
    var functions: Option<Table>
    var genericFunctionBinding: Option<GenericFunctionBinding>
    ghost var published: seq<Nullable>
    ghost const argumentBindings: seq<BindingId>
    ghost var released: seq<BindingId>

    constructor (site: CallSite, argumentBindings: seq<BindingId>)
      ensures this.site == site && functions == None && genericFunctionBinding == None
      ensures published == [] && released == []
      ensures this.argumentBindings == argumentBindings
    {
      this.site := site;
      functions := None;
      genericFunctionBinding := None;
      published := [];
      this.argumentBindings := argumentBindings;
      released := [];
    }

    /** `update()`, with `apply` standing for the foreign function bodies. */
    method Update(apply: (nat, seq<Nullable>) -> Nullable) returns (o: Outcome)
      modifies this
      ensures functions == old(functions) && released == old(released)
      ensures genericFunctionBinding == old(genericFunctionBinding)
      ensures Dispatched(site.arguments[..], functions, apply, o)
      ensures published == old(published) + (if o.Published? then [o.v] else [])
    {
      var callArgs := site.arguments[..];
      if !AllPresent(callArgs) || functions.None? {
        return Waiting;
      }
      var types := TypesOf(callArgs);
      var resolved := Resolve(functions.value, types);
      if resolved.None? {
        return NoOverload;
      }
      var info := resolved.value;
      var locals := MakeLocals(callArgs, info.localCount);
      if !locals.Locals? {
        return Threw(info);
      }
      var call := Invocation(info.body, locals.locals);
      if call.None? {
        return Threw(info);
      }
      var v := apply(call.value.0, call.value.1);
      published := published + [v];
      o := Published(info, locals.locals, v);
    }

    /** The callback on the generic function: store its table, then update. */
    method OnFunctions(f: Table, apply: (nat, seq<Nullable>) -> Nullable) returns (o: Outcome)
      modifies this
      ensures functions == Some(f) && released == old(released)
      ensures genericFunctionBinding == old(genericFunctionBinding)
      ensures Dispatched(site.arguments[..], Some(f), apply, o)
      ensures published == old(published) + (if o.Published? then [o.v] else [])
    {
      functions := Some(f);
      o := Update(apply);
    }

    /** The callback on argument cell `i`: write the shared array, then update. */
    method OnArgument(i: nat, x: Nullable, apply: (nat, seq<Nullable>) -> Nullable) returns (o: Outcome)
      requires i < site.arguments.Length
      modifies this, site.arguments
      ensures site.arguments[..] == old(site.arguments[..])[i := x]
      ensures functions == old(functions) && released == old(released)
      ensures genericFunctionBinding == old(genericFunctionBinding)
      ensures x.None? ==> o.Waiting?
      ensures Dispatched(site.arguments[..], functions, apply, o)
      ensures published == old(published) + (if o.Published? then [o.v] else [])
    {
      site.arguments[i] := x;
      o := Update(apply);
    }

    /** The binding's construction: get (or create) the generic function for
        (name, arity) and subscribe to it as `c`; it pushes its table at once,
        so the node may publish right away from arguments other bindings wrote. */
    method Subscribe(fm: FunctionMap, c: ConsumerId, apply: (nat, seq<Nullable>) -> Nullable) returns (o: Outcome)
      requires fm.Valid()
      modifies this, fm, fm.Repr
      ensures fm.Valid() && fresh(fm.Repr - old(fm.Repr))
      ensures var sel := GenericSelector(site.name, site.arguments.Length);
        && sel in fm.genericFunctions
        && fm.genericFunctions.Keys == old(fm.genericFunctions).Keys + {sel}
        && genericFunctionBinding == Some(GenericFunctionBinding(fm.genericFunctions[sel], c))
        && functions == Some(old(fm.TableOf(sel)))
        && fm.TableOf(sel) == old(fm.TableOf(sel))
        && fm.ConsumersOf(sel) == old(fm.ConsumersOf(sel)) + [c]
        && fm.LogOf(sel) == old(fm.LogOf(sel)) + [Delivered(c, old(fm.TableOf(sel)))]
        && (forall k :: k in old(fm.genericFunctions) && k != sel ==>
              k in fm.genericFunctions && fm.genericFunctions[k] == old(fm.genericFunctions[k]) &&
              unchanged(fm.genericFunctions[k]))
      ensures site.arguments[..] == old(site.arguments[..]) && released == old(released)
      ensures Dispatched(site.arguments[..], functions, apply, o)
      ensures published == old(published) + (if o.Published? then [o.v] else [])
    {
      var gf := fm.GetGenericFunction(GenericSelector(site.name, site.arguments.Length));
      gf.Consume(c);
      genericFunctionBinding := Some(GenericFunctionBinding(gf, c));
      o := OnFunctions(gf.applicableSpecificFunctions, apply);
    }

    /** `remove()`: every argument binding, in order, then the generic-function
        binding, which takes the node off the generic function's subscribers. */
    method Remove()
      modifies this, if genericFunctionBinding.Some? then {genericFunctionBinding.value.gf} else {}
      ensures released == old(released) + argumentBindings
      ensures genericFunctionBinding == old(genericFunctionBinding)
      ensures genericFunctionBinding.Some? ==> var b := genericFunctionBinding.value;
        && b.gf.consumers == RemoveFirst(old(b.gf.consumers), b.consumer)
        && b.gf.log == old(b.gf.log)
        && b.gf.applicableSpecificFunctions == old(b.gf.applicableSpecificFunctions)
      ensures functions == old(functions) && published == old(published)
    {
      released := released + argumentBindings;
      if genericFunctionBinding.Some? {
        genericFunctionBinding.value.gf.Unsubscribe(genericFunctionBinding.value.consumer);
      }
    }
  }

  /** Once a call node is removed, no later definition pushes a table to it. */
  method RemovedNodeGetsNoTables(node: CallNode, parameterTypes: seq<Tag>, info: FunctionInfo)
    requires node.genericFunctionBinding.Some?
    requires multiset(node.genericFunctionBinding.value.gf.consumers)[node.genericFunctionBinding.value.consumer] == 1
    modifies node, node.genericFunctionBinding.value.gf
    ensures node.genericFunctionBinding == old(node.genericFunctionBinding)
    ensures var b := old(node.genericFunctionBinding.value);
      && b.consumer !in b.gf.consumers
      && |old(b.gf.log)| <= |b.gf.log|
      && forall d :: d in b.gf.log[|old(b.gf.log)|..] ==> d.to != b.consumer
  {
    var b := node.genericFunctionBinding.value;
    var gf := b.gf;
    var before := gf.consumers;
    node.Remove();
    RemoveFirstOnce(before, b.consumer);
    var mid := gf.log;
    assert |mid| == |old(gf.log)|;
    gf.Define(parameterTypes, info);
    var pushed := Fanout(gf.consumers, gf.applicableSpecificFunctions);
    FanoutSkipsAbsent(gf.consumers, gf.applicableSpecificFunctions, b.consumer);
    assert gf.log[|mid|..] == pushed;
  }

  /** Two bindings of one compiled call share its arguments: a value delivered
      to one of them lets the other dispatch on it. */
  method SharedArgumentsScenario(b1: CallNode, b2: CallNode, x: Value, apply: (nat, seq<Nullable>) -> Nullable)
    returns (o1: Outcome, o2: Outcome)
    requires b1 != b2 && b1.site == b2.site && b1.site.arguments.Length == 1
    requires b2.functions.Some? && Candidates(b2.functions.value, [TypeOf(x)]) != {}
    modifies b1, b2, b1.site.arguments
    ensures b2.site.arguments[..] == [Some(x)]
    ensures o2.Threw? || o2.Published?
  {
    o1 := b1.OnArgument(0, Some(x), apply);
    assert b2.site.arguments[..] == [Some(x)];
    assert TypesOf([Some(x)]) == [TypeOf(x)];
    o2 := b2.Update(apply);
  }

  // ---------------------------------------------------------------------------
  // The copy macro.

  /** The cell `copy(e)` instantiates: it subscribes to `e`'s cell, forwards
      what that cell pushes while being subscribed to, and removes that
      subscription before `consume` returns. The binding it returns is a no-op. */
  class CopyCell {
    var binding: Option<BindingId>
    ghost var forwarded: seq<Nullable>
    ghost var released: seq<BindingId>

    constructor ()
      ensures binding == None && forwarded == [] && released == []
    {
      binding, forwarded, released := None, [], [];
    }

    /** `consume`: `pushed` is what the operand delivered during its own
        `consume`; `upstream` is the binding it returned. The binding handed
        back is `() -> { }`, given here by what removing it releases: nothing. */
    method Consume(pushed: seq<Nullable>, upstream: BindingId) returns (removes: seq<BindingId>)
      modifies this
      ensures binding == Some(upstream)
      ensures forwarded == old(forwarded) + pushed
      ensures released == old(released) + [upstream]
      ensures removes == []
    {
      binding := Some(upstream);
      forwarded := forwarded + pushed;
      released := released + [binding.value];
      removes := [];
    }
  }

  /** `copy(x)` on a slot: the subscriber gets the slot's current value, if it is
      non-null, and nothing else; the slot's subscriber list is as before, so
      no later update of the slot reaches it. The slot's binding for
      subscriber `c` is identified by `c`. */
  method CopyOfSlot(copy: CopyCell, s: SlotCell, c: ConsumerId)
    requires c !in s.consumers
    modifies copy, s
    ensures s.consumers == old(s.consumers) && c !in s.consumers
    ensures s.value == old(s.value)
    ensures s.log == old(s.log) + (if old(s.value).Some? then [Delivered(c, old(s.value))] else [])
    ensures copy.forwarded == old(copy.forwarded) + (if old(s.value).Some? then [old(s.value)] else [])
    ensures copy.released == old(copy.released) + [c]
  {
    var pushed := if s.value.Some? then [s.value] else [];
    s.Consume(c);
    s.Unsubscribe(c);
    RemoveFirstAppended(old(s.consumers), c);
    var removes := copy.Consume(pushed, c);
  }

  // ---------------------------------------------------------------------------
  // Output calls.

  /** A draw entry's procedure: render the call's (live) arguments with the
      renderer resolved at the last update, which may be null. */
  datatype DrawProcedure = DrawWith(renderer: Option<Body>)

  /** `RendererAllocation`: one entry of the canvas's draw list. */
  class RendererAllocation {
    var value: Option<DrawProcedure>

    constructor ()
      ensures value == None
    {
      value := None;
    }
  }

  /** The frame's `graphicsConsumers` list, painted in order. */
  class Canvas {
    var graphicsConsumers: seq<RendererAllocation>

    constructor ()
      ensures graphicsConsumers == []
    {
      graphicsConsumers := [];
    }

    /** `createGraphicsConsumer`: a new entry, appended to the list. */
    method CreateGraphicsConsumer() returns (a: RendererAllocation)
      modifies this
      ensures fresh(a) && a.value == None
      ensures graphicsConsumers == old(graphicsConsumers) + [a]
    {
      a := new RendererAllocation();
      graphicsConsumers := graphicsConsumers + [a];
    }
  }

  /** A call statement `name(e1, ..., en)`: its argument array and its draw entry. */
  class OutputCall {
    const name: string
    const arguments: array<Nullable>
    var graphicsAllocation: Option<RendererAllocation>
    ghost const argumentBindings: seq<BindingId>
    ghost var released: seq<BindingId>

    /** The draw entry, once allocated, is in the canvas's list exactly once. */
    ghost predicate Valid(canvas: Canvas)
      reads this, canvas
    {
      graphicsAllocation.Some? ==> multiset(canvas.graphicsConsumers)[graphicsAllocation.value] == 1
    }

    constructor (name: string, arguments: array<Nullable>, argumentBindings: seq<BindingId>)
      ensures this.name == name && this.arguments == arguments && graphicsAllocation == None
      ensures this.argumentBindings == argumentBindings && released == []
    {
      this.name := name;
      this.arguments := arguments;
      graphicsAllocation := None;
      this.argumentBindings := argumentBindings;
      released := [];
    }

    /** `update()`: once every argument is non-null, allocate the draw entry on
        the first such update, reuse it afterwards, and set it to draw with
        the renderer resolved for the arguments' runtime types. */
    method Update(canvas: Canvas, renderers: RendererMap)
      requires Valid(canvas)
      modifies this, canvas, if graphicsAllocation.Some? then {graphicsAllocation.value} else {}
      ensures Valid(canvas)
      ensures !AllPresent(arguments[..]) ==>
        graphicsAllocation == old(graphicsAllocation) && canvas.graphicsConsumers == old(canvas.graphicsConsumers) &&
        (old(graphicsAllocation).Some? ==> graphicsAllocation.value.value == old(graphicsAllocation.value.value))
      ensures AllPresent(arguments[..]) && old(graphicsAllocation).Some? ==>
        graphicsAllocation == old(graphicsAllocation) && canvas.graphicsConsumers == old(canvas.graphicsConsumers)
      ensures AllPresent(arguments[..]) && old(graphicsAllocation).None? ==>
        graphicsAllocation.Some? && fresh(graphicsAllocation.value) &&
        canvas.graphicsConsumers == old(canvas.graphicsConsumers) + [graphicsAllocation.value]
      ensures AllPresent(arguments[..]) ==>
        graphicsAllocation.Some? && graphicsAllocation.value.value.Some? &&
        var r := graphicsAllocation.value.value.value.renderer;
        (r.None? <==> RendererCandidates(renderers.renderers, name, TypesOf(arguments[..])) == {}) &&
        (r.Some? ==> r.value in RendererCandidates(renderers.renderers, name, TypesOf(arguments[..])))
      ensures released == old(released)
    {
      var args := arguments[..];
      if AllPresent(args) {
        var a: RendererAllocation;
        if graphicsAllocation.None? {
          a := canvas.CreateGraphicsConsumer();
          assert multiset(canvas.graphicsConsumers)[a] == multiset(old(canvas.graphicsConsumers))[a] + 1;
          graphicsAllocation := Some(a);
        } else {
          a := graphicsAllocation.value;
        }
        var renderer := renderers.Resolve(name, TypesOf(args));
        a.value := Some(DrawWith(renderer));
      }
    }

    /** The callback on argument cell `i`: write the array, then update. */
    method OnArgument(i: nat, x: Nullable, canvas: Canvas, renderers: RendererMap)
      requires i < arguments.Length && Valid(canvas)
      modifies this, arguments, canvas, if graphicsAllocation.Some? then {graphicsAllocation.value} else {}
      ensures Valid(canvas)
      ensures arguments[..] == old(arguments[..])[i := x]
      ensures x.None? ==>
        graphicsAllocation == old(graphicsAllocation) && canvas.graphicsConsumers == old(canvas.graphicsConsumers)
      ensures !AllPresent(arguments[..]) ==>
        graphicsAllocation == old(graphicsAllocation) && canvas.graphicsConsumers == old(canvas.graphicsConsumers) &&
        (old(graphicsAllocation).Some? ==> graphicsAllocation.value.value == old(graphicsAllocation.value.value))
      ensures AllPresent(arguments[..]) && old(graphicsAllocation).Some? ==>
        graphicsAllocation == old(graphicsAllocation) && canvas.graphicsConsumers == old(canvas.graphicsConsumers)
      ensures AllPresent(arguments[..]) && old(graphicsAllocation).None? ==>
        graphicsAllocation.Some? && fresh(graphicsAllocation.value) &&
        canvas.graphicsConsumers == old(canvas.graphicsConsumers) + [graphicsAllocation.value]
      ensures AllPresent(arguments[..]) ==>
        graphicsAllocation.Some? && graphicsAllocation.value.value.Some? &&
        var r := graphicsAllocation.value.value.value.renderer;
        (r.None? <==> RendererCandidates(renderers.renderers, name, TypesOf(arguments[..])) == {}) &&
        (r.Some? ==> r.value in RendererCandidates(renderers.renderers, name, TypesOf(arguments[..])))
      ensures released == old(released)
    {
      arguments[i] := x;
      Update(canvas, renderers);
    }

    /** The statement's binding: release every argument binding, then remove the
        draw entry from the list; a call that never drew throws NullPointerException. */
    method Remove(canvas: Canvas) returns (ok: bool)
      requires Valid(canvas)
      modifies this, canvas
      ensures released == old(released) + argumentBindings
      ensures ok <==> graphicsAllocation.Some?
      ensures graphicsAllocation == old(graphicsAllocation)
      ensures ok ==>
        canvas.graphicsConsumers == RemoveFirst(old(canvas.graphicsConsumers), graphicsAllocation.value) &&
        graphicsAllocation.value !in canvas.graphicsConsumers
      ensures !ok ==> canvas.graphicsConsumers == old(canvas.graphicsConsumers)
    {
      released := released + argumentBindings;
      if graphicsAllocation.None? {
        return false;
      }
      RemoveFirstOnce(canvas.graphicsConsumers, graphicsAllocation.value);
      canvas.graphicsConsumers := RemoveFirst(canvas.graphicsConsumers, graphicsAllocation.value);
      ok := true;
    }
  }
}
