/** The compiler: parse trees of expressions and statements, the expressions
    they compile to (the `Expression` objects, as a tree of node kinds), the
    left fold of operator chains, the compound-assignment rewrite, the walk to
    an assignment's target scope and the function-definition rule. */
module Compiler {
  import opened Values
  import opened Literals
  import opened Slots
  import opened Cells

  /** The parse tree of an expression, as the grammar delivers it. Operator
      tokens are kept as their text. Numbers carry their (integral) value. */
  datatype Expr =
    | AddExpr(mulOperands: seq<Expr>, addOps: seq<string>)
    | MulExpr(leafOperands: seq<Expr>, mulOps: seq<string>)
    | Leaf(target: Expr, accessChain: seq<string>)
    | NumberLit(n: int)
    | StringLit(token: string)
    | IdRef(id: string)
    | CallExpr(name: string, args: seq<Expr>)

  /** What the parser guarantees: a chain has one more operand than operators,
      and a string token carries its two quotes. */
  predicate WellFormed(e: Expr)
  {
    match e
    case AddExpr(xs, ops) => |xs| >= 1 && |ops| == |xs| - 1 && forall i :: 0 <= i < |xs| ==> WellFormed(xs[i])
    case MulExpr(xs, ops) => |xs| >= 1 && |ops| == |xs| - 1 && forall i :: 0 <= i < |xs| ==> WellFormed(xs[i])
    case Leaf(t, _) => WellFormed(t)
    case StringLit(token) => |token| >= 2
    case CallExpr(_, args) => forall i :: 0 <= i < |args| ==> WellFormed(args[i])
    case _ => true
  }

  /** A compiled expression. `Call` is a call node, `Copy` the one-shot copy
      macro (it keeps all its operands; only the first is instantiated), `Id`
      a read of a slot of a scope (null when the assignment target walk ended
      at null), `Const` a constant cell, `Member` one access-chain step and
      `Construct` an argument-less call, which instantiates a constructor. */
  datatype CExpr =
    | Call(name: string, args: seq<CExpr>)
    | Copy(operands: seq<CExpr>)
    | Id(scope: Option<DictCell>, id: string)
    | Const(v: Value)
    | Member(of: CExpr, member: string)
    | Construct(name: string)

  const MACRO_COPY: string := "copy"

  /** `createFunctionCall`: the name `copy` is the macro, any other a call node. */
  function CreateFunctionCall(name: string, args: seq<CExpr>): (r: CExpr)
    ensures name == MACRO_COPY <==> r.Copy?
    ensures r.Copy? ==> r.operands == args
    ensures r.Call? ==> r.name == name && r.args == args
  {
    if name == MACRO_COPY then Copy(args) else Call(name, args)
  }

  /** `op(n-1)( ... op(1)(op(0)(x0, x1), x2) ..., x(n-1))`: operator i-1 joins operand i. */
  function LeftFold(xs: seq<CExpr>, ops: seq<string>): (r: CExpr)
    requires |xs| >= 1 && |ops| == |xs| - 1
    ensures |xs| == 1 ==> r == xs[0]
    ensures |xs| > 1 ==> (r.Copy? <==> ops[|ops| - 1] == MACRO_COPY) && (r.Call? || r.Copy?)
    ensures |xs| > 1 && r.Call? ==> r.name == ops[|ops| - 1] && |r.args| == 2 && r.args[1] == xs[|xs| - 1]
    decreases |xs|
  {
    if |xs| == 1 then xs[0]
    else CreateFunctionCall(ops[|ops| - 1], [LeftFold(xs[..|xs| - 1], ops[..|ops| - 1]), xs[|xs| - 1]])
  }

  /** The loop of `visitAddExpression` / `visitMulExpression`: `lhs` is rebound
      to a call of operator i-1 on the previous `lhs` and operand i. */
  method FoldChain(xs: seq<CExpr>, ops: seq<string>) returns (lhs: CExpr)
    requires |xs| >= 1 && |ops| == |xs| - 1
    ensures lhs == LeftFold(xs, ops)
  {
    lhs := xs[0];
    assert xs[..1] == [xs[0]];
    for i := 1 to |xs|
      invariant lhs == LeftFold(xs[..i], ops[..i - 1])
    {
      assert xs[..i + 1][..i] == xs[..i] && ops[..i][..i - 1] == ops[..i - 1];
      lhs := CreateFunctionCall(ops[i - 1], [lhs, xs[i]]);
    }
    assert xs[..|xs|] == xs && ops[..|xs| - 1] == ops;
  }

  /** Reads a left-nested chain of `n` binary calls back into operands and operators. */
  function Unfold(e: CExpr, n: nat): (seq<CExpr>, seq<string>)
  {
    if n == 0 then ([e], [])
    else match e
      case Call(name, args) =>
        if |args| == 2 then
          var (xs, ops) := Unfold(args[0], n - 1);
          (xs + [args[1]], ops + [name])
        else ([e], [])
      case _ => ([e], [])
  }

  /** The fold loses nothing: operands and operators can be read back, in order,
      from the nested calls (no operator token is `copy`). */
  lemma {:induction false} UnfoldLeftFold(xs: seq<CExpr>, ops: seq<string>)
    requires |xs| >= 1 && |ops| == |xs| - 1
    requires forall i :: 0 <= i < |ops| ==> ops[i] != MACRO_COPY
    ensures Unfold(LeftFold(xs, ops), |ops|) == (xs, ops)
    decreases |xs|
  {
    if |xs| > 1 {
      var xs' := xs[..|xs| - 1];
      var ops' := ops[..|ops| - 1];
      UnfoldLeftFold(xs', ops');
      var op := ops[|ops| - 1];
      var l := LeftFold(xs', ops');
      assert LeftFold(xs, ops) == Call(op, [l, xs[|xs| - 1]]);
      assert Unfold(Call(op, [l, xs[|xs| - 1]]), |ops|) == (xs' + [xs[|xs| - 1]], ops' + [op]);
      assert xs' + [xs[|xs| - 1]] == xs;
      assert ops' + [op] == ops;
    } else {
      assert xs == [xs[0]] && ops == [];
    }
  }

  /** `a op1 b op2 c` is `op2(op1(a, b), c)`: the fold associates to the left. */
  lemma LeftFoldThree(a: CExpr, b: CExpr, c: CExpr, op1: string, op2: string)
    requires op1 != MACRO_COPY && op2 != MACRO_COPY
    ensures LeftFold([a, b, c], [op1, op2]) == Call(op2, [Call(op1, [a, b]), c])
  {
    assert [a, b, c][..2] == [a, b] && [op1, op2][..1] == [op1];
    assert [a, b][..1] == [a] && [op1][..0] == [];
    assert LeftFold([a], []) == a;
    assert LeftFold([a, b], [op1]) == Call(op1, [a, b]);
  }

  /** The access chain `t.m1.m2...`: one `Member` step per identifier, outermost last. */
  function MemberChain(t: CExpr, chain: seq<string>): CExpr
    decreases |chain|
  {
    if chain == [] then t else Member(MemberChain(t, chain[..|chain| - 1]), chain[|chain| - 1])
  }

  /** Following a chain piecewise is following it at once. */
  lemma {:induction false} MemberChainAppend(t: CExpr, a: seq<string>, b: seq<string>)
    ensures MemberChain(t, a + b) == MemberChain(MemberChain(t, a), b)
    decreases |b|
  {
    if b == [] {
      assert a + b == a;
    } else {
      MemberChainAppend(t, a, b[..|b| - 1]);
      assert (a + b)[..|a + b| - 1] == a + b[..|b| - 1];
    }
  }

  /** `parseExpression` on a well-formed tree, in scope `self`. */
  function Compile(e: Expr, self: DictCell): (r: CExpr)
    requires WellFormed(e)
    ensures e.CallExpr? ==> (r.Construct? <==> e.args == [])
    ensures e.CallExpr? ==> (r.Copy? <==> e.args != [] && e.name == MACRO_COPY)
    ensures e.CallExpr? && r.Call? ==> r.name == e.name && |r.args| == |e.args|
    ensures e.IdRef? ==> r == Id(Some(self), e.id)
    ensures e.Leaf? && e.accessChain == [] ==> r == Compile(e.target, self)
    decreases e
  {
    match e
    case AddExpr(xs, ops) => LeftFold(seq(|xs|, i requires 0 <= i < |xs| => Compile(xs[i], self)), ops)
    case MulExpr(xs, ops) => LeftFold(seq(|xs|, i requires 0 <= i < |xs| => Compile(xs[i], self)), ops)
    case Leaf(t, chain) => MemberChain(Compile(t, self), chain)
    case NumberLit(n) => Const(Num(n))
    case StringLit(token) => Const(Str(StringLiteral(token)))
    case IdRef(id) => Id(Some(self), id)
    case CallExpr(name, args) =>
      if |args| > 0 then CreateFunctionCall(name, seq(|args|, i requires 0 <= i < |args| => Compile(args[i], self)))
      else Construct(name)
  }

  /** A call without arguments instantiates a constructor, even when named `copy`. */
  lemma NullaryCallConstructs(name: string, self: DictCell)
    ensures Compile(CallExpr(name, []), self) == Construct(name)
  {
  }

  // ---------------------------------------------------------------------------
  // Assignment.

  datatype AssignOp = Assign | AddAssign | SubAssign | MulAssign | DivAssign

  /** The operator a compound assignment applies; none for plain `=`. */
  function OperatorName(op: AssignOp): (r: Option<string>)
    ensures r.None? <==> op == Assign
    ensures r.Some? ==> r.value in {"+", "-", "*", "/"} && r.value != MACRO_COPY
  {
    match op
    case Assign => None
    case AddAssign => Some("+")
    case SubAssign => Some("-")
    case MulAssign => Some("*")
    case DivAssign => Some("/")
  }

  /** The value a statement assigns: for `x op= v`, a call of the operator on a
      one-shot copy of the target slot and `v`; for `x = v`, `v` itself. */
  function RewriteValue(target: Option<DictCell>, id: string, op: AssignOp, value: CExpr): (r: CExpr)
    ensures op == Assign ==> r == value
    ensures op != Assign ==>
      r.Call? && Some(r.name) == OperatorName(op) && r.args == [Copy([Id(target, id)]), value]
  {
    match OperatorName(op)
    case None => value
    case Some(name) => CreateFunctionCall(name, [CreateFunctionCall(MACRO_COPY, [Id(target, id)]), value])
  }

  /** The rewrite is invertible: the operator and the operand are read back from it. */
  function Uncompound(r: CExpr): Option<(string, CExpr)>
  {
    if r.Call? && |r.args| == 2 && r.args[0].Copy? && |r.args[0].operands| == 1 && r.args[0].operands[0].Id?
    then Some((r.name, r.args[1])) else None
  }

  lemma UncompoundRewrite(target: Option<DictCell>, id: string, op: AssignOp, value: CExpr)
    requires op != Assign
    ensures Uncompound(RewriteValue(target, id, op, value)) == Some((OperatorName(op).value, value))
  {
  }

  /** In the scope itself, `x += v` compiles exactly as `x = copy(x) + v`. */
  lemma CompoundIsCopySugar(self: DictCell, x: string, v: Expr)
    requires WellFormed(v)
    ensures WellFormed(AddExpr([CallExpr(MACRO_COPY, [IdRef(x)]), v], ["+"]))
    ensures Compile(AddExpr([CallExpr(MACRO_COPY, [IdRef(x)]), v], ["+"]), self) ==
      RewriteValue(Some(self), x, AddAssign, Compile(v, self))
  {
    var e := AddExpr([CallExpr(MACRO_COPY, [IdRef(x)]), v], ["+"]);
    var xs := [CallExpr(MACRO_COPY, [IdRef(x)]), v];
    assert WellFormed(xs[0]) && WellFormed(xs[1]);
    var cs := seq(|xs|, i requires 0 <= i < |xs| => Compile(xs[i], self));
    var ids := [IdRef(x)];
    assert seq(|ids|, i requires 0 <= i < |ids| => Compile(ids[i], self)) == [Id(Some(self), x)];
    assert Compile(xs[0], self) == Copy([Id(Some(self), x)]);
    assert cs[0] == Copy([Id(Some(self), x)]);
    assert cs[1] == Compile(v, self);
    assert [cs[0], cs[1]] == cs;
    assert cs[..1] == [cs[0]] && ["+"][..0] == [];
    assert LeftFold(cs, ["+"]) == Call("+", [cs[0], cs[1]]);
  }

  /** Where walking the non-final segments of an assignment's target leads: a
      scope, null, or an exception. */
  datatype Walk = At(target: Option<DictCell>) | NullPointer | ClassCast

  /** One segment: `(DictCell)target.getValueCell(id)`. The upstream cell of the
      slot must be a scope (an object literal); null casts to null; any other
      cell throws ClassCastException; walking on from null throws NullPointerException. */
  ghost function Step(w: Walk, id: string): (r: Walk)
    reads *
    ensures !w.At? ==> r == w
    ensures w == At(None) ==> r == NullPointer
    ensures r.At? ==> w.At? && w.target.Some?
  {
    match w
    case At(None) => NullPointer
    case At(Some(d)) =>
      if id !in d.slots then At(None)
      else (match d.slots[id].valueCell
            case None => At(None)
            case Some(DictRef(e)) => At(Some(e))
            case Some(_) => ClassCast)
    case _ => w
  }

  /** The walk over `path`, one segment at a time. */
  ghost function WalkFrom(w: Walk, path: seq<string>): (r: Walk)
    reads *
    ensures r.At? ==> w.At?
    ensures r.At? && path != [] ==> w.target.Some?
    decreases |path|
  {
    if path == [] then w else Step(WalkFrom(w, path[..|path| - 1]), path[|path| - 1])
  }

  /** An exception ends the walk. */
  lemma {:induction false} WalkFromError(w: Walk, path: seq<string>)
    requires !w.At?
    ensures WalkFrom(w, path) == w
    decreases |path|
  {
    if path != [] {
      WalkFromError(w, path[..|path| - 1]);
    }
  }

  /** The walk read front to back: the first segment, then the rest. */
  lemma {:induction false} WalkFromCons(w: Walk, id: string, rest: seq<string>)
    ensures WalkFrom(w, [id] + rest) == WalkFrom(Step(w, id), rest)
    decreases |rest|
  {
    if rest == [] {
      assert ([id] + rest)[..0] == [];
    } else {
      var p := [id] + rest;
      assert p[..|p| - 1] == [id] + rest[..|rest| - 1];
      WalkFromCons(w, id, rest[..|rest| - 1]);
    }
  }

  /** A segment bound to an object literal leads into it; a segment bound to
      another variable's slot is not a scope. */
  lemma WalkThroughObject(d: DictCell, id: string, e: DictCell, rest: seq<string>)
    requires id in d.slots && d.slots[id].valueCell == Some(DictRef(e))
    ensures WalkFrom(At(Some(d)), [id] + rest) == WalkFrom(At(Some(e)), rest)
  {
    WalkFromCons(At(Some(d)), id, rest);
  }

  lemma WalkThroughAlias(d: DictCell, id: string, s: SlotCell, rest: seq<string>)
    requires id in d.slots && d.slots[id].valueCell == Some(SlotRef(s))
    ensures WalkFrom(At(Some(d)), [id] + rest) == ClassCast
  {
    WalkFromCons(At(Some(d)), id, rest);
    WalkFromError(ClassCast, rest);
  }

  /** The loop of `visitAssign` that reassigns `targetTmp` segment by segment. */
  method WalkTarget(self: DictCell, path: seq<string>) returns (w: Walk)
    ensures w == WalkFrom(At(Some(self)), path)
  {
    var t: Option<DictCell> := Some(self);
    var i := 0;
    while i < |path|
      invariant 0 <= i <= |path|
      invariant WalkFrom(At(Some(self)), path[..i]) == At(t)
    {
      assert path[..i + 1][..i] == path[..i];
      if t.None? {
        assert WalkFrom(At(Some(self)), path[..i + 1]) == NullPointer;
        WalkRest(At(Some(self)), path, i + 1);
        return NullPointer;
      }
      var d := t.value;
      var upstream := if path[i] in d.slots then d.slots[path[i]].valueCell else None;
      match upstream {
        case None =>
          t := None;
        case Some(DictRef(e)) =>
          t := Some(e);
        case Some(_) =>
          assert WalkFrom(At(Some(self)), path[..i + 1]) == ClassCast;
          WalkRest(At(Some(self)), path, i + 1);
          return ClassCast;
      }
      i := i + 1;
    }
    assert path[..|path|] == path;
    w := At(t);
  }

  /** Once a prefix of the path throws, the whole path throws the same way. */
  lemma {:induction false} WalkRest(w: Walk, path: seq<string>, i: nat)
    requires i <= |path| && !WalkFrom(w, path[..i]).At?
    ensures WalkFrom(w, path) == WalkFrom(w, path[..i])
    decreases |path| - i
  {
    if i < |path| {
      assert path[..i + 1][..i] == path[..i];
      assert WalkFrom(w, path[..i + 1]) == WalkFrom(w, path[..i]);
      WalkRest(w, path, i + 1);
    } else {
      assert path[..i] == path;
    }
  }

  /** A compiled assignment: the action puts `value` into slot `id` of `target`,
      or the walk threw while compiling. */
  datatype AssignPlan = AssignAction(target: Option<DictCell>, id: string, value: CExpr) | WalkFailed(error: Walk)

  /** `visitAssign`: the target is the last identifier, reached through the others. */
  method CompileAssign(self: DictCell, ids: seq<string>, op: AssignOp, value: CExpr) returns (r: AssignPlan)
    requires |ids| >= 1
    ensures var w := WalkFrom(At(Some(self)), ids[..|ids| - 1]);
      (w.At? ==> r == AssignAction(w.target, ids[|ids| - 1], RewriteValue(w.target, ids[|ids| - 1], op, value))) &&
      (!w.At? ==> r == WalkFailed(w))
    ensures |ids| == 1 ==> r == AssignAction(Some(self), ids[0], RewriteValue(Some(self), ids[0], op, value))
  {
    assert |ids| == 1 ==> ids[..|ids| - 1] == [];
    var id := ids[|ids| - 1];
    var w := WalkTarget(self, ids[..|ids| - 1]);
    if w.At? {
      r := AssignAction(w.target, id, RewriteValue(w.target, id, op, value));
    } else {
      r := WalkFailed(w);
    }
  }

  /** The assignment's action: `target.put(id, cell)` with the value expression's
      cell; a null target throws NullPointerException. Returns a no-op binding. */
  method RunAssign(target: Option<DictCell>, id: string, cell: CellRef, sync: seq<Nullable>, returned: Option<BindingId>)
    returns (ok: bool)
    requires target.Some? ==> target.value.Valid()
    requires target.Some? && returned.Some? ==>
      returned.value !in target.value.SlotOf(id).acquired && returned.value !in target.value.SlotOf(id).released
    modifies if target.Some? then {target.value} + target.value.Repr else {}
    ensures ok <==> target.Some?
    ensures ok ==> var d := target.value;
      && d.Valid() && fresh(d.Repr - old(d.Repr))
      && id in d.slots && d.slots.Keys == old(d.slots).Keys + {id}
      && d.Upstream(id) == Some(cell)
      && (var o := old(d.SlotOf(id)); var n := d.SlotOf(id);
          && n.valueCell == Some(cell) && n.valueCellBinding == returned
          && n.consumers == o.consumers
          && n.released == o.released + (if o.valueCellBinding.Some? then [o.valueCellBinding.value] else [])
          && n.acquired == o.acquired + (if returned.Some? then [returned.value] else [])
          && n.value == (if sync == [] then o.value else sync[|sync| - 1])
          && n.log == o.log + FanoutAll(o.consumers, sync))
      && (forall k :: k in old(d.slots) && k != id ==>
            d.slots[k] == old(d.slots[k]) && d.SlotOf(k) == old(d.SlotOf(k)))
  {
    if target.None? {
      return false;
    }
    target.value.Put(id, cell, sync, returned);
    ok := true;
  }

  // ---------------------------------------------------------------------------
  // Function definitions.

  /** `VariableInfo`: a local's declared type, name and nesting depth. */
  datatype VariableInfo = VariableInfo(typ: Tag, name: string, depth: int)

  /** The locals of a definition: one per parameter, typed Object, at depth 0. */
  function FunctionLocals(params: seq<string>): (r: seq<VariableInfo>)
    ensures |r| == |params|
    ensures forall i :: 0 <= i < |r| ==> r[i] == VariableInfo(ObjectT, params[i], 0)
  {
    seq(|params|, i requires 0 <= i < |params| => VariableInfo(ObjectT, params[i], 0))
  }

  /** The types of the locals declared at `depth`, in order. */
  function ParameterTypes(locals: seq<VariableInfo>, depth: int): (r: seq<Tag>)
    ensures r == [] <==> forall i :: 0 <= i < |locals| ==> locals[i].depth != depth
    ensures |r| <= |locals|
  {
    if locals == [] then []
    else
      var rest := ParameterTypes(locals[1..], depth);
      assert forall i :: 1 <= i < |locals| ==> locals[i] == locals[1..][i - 1];
      if locals[0].depth == depth then [locals[0].typ] + rest else rest
  }

  /** What a definition registers: an overload of a generic function, or a constructor. */
  datatype Definition =
    | OverloadDefinition(name: string, parameterTypes: seq<Tag>, localCount: int, body: Expr)
    | ConstructorDefinition(name: string, body: Expr)

  /** `visitFunctionDefinition` at nesting `depth`: the parameters are filtered by
      depth `depth + 1`; an empty result makes the definition a constructor. */
  function CompileDefinition(name: string, params: seq<string>, body: Expr, depth: int): (d: Definition)
    ensures d.OverloadDefinition? <==> |params| > 0 && depth + 1 == 0
    ensures d.OverloadDefinition? ==> d.localCount == |params| && |d.parameterTypes| > 0
    ensures d.name == name && d.body == body
  {
    var locals := FunctionLocals(params);
    var types := ParameterTypes(locals, depth + 1);
    if |types| > 0 then OverloadDefinition(name, types, |locals|, body)
    else ConstructorDefinition(name, body)
  }

  /** At every depth the compiler reaches (0 and up), a function definition,
      with parameters or without, registers a constructor. */
  lemma EveryDefinitionIsAConstructor(name: string, params: seq<string>, body: Expr, depth: nat)
    ensures CompileDefinition(name, params, body, depth) == ConstructorDefinition(name, body)
  {
  }
}
