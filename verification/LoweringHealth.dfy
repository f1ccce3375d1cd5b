/** Every body the pass builds is well-formed SSA over a table of distinct symbols. */
module LoweringHealth {
  import opened FluxAst
  import opened Options
  import opened Ssa
  import opened Lowering
  import opened LoweringLaws

  ghost predicate BindsBelow(scopes: Scopes, bound: nat) {
    forall i, x :: 0 <= i < |scopes| && x in scopes[i] ==> scopes[i][x] < bound
  }

  ghost predicate Healthy(st: State) {
    && WellFormed(st.ops, st.params, st.symbols)
    && DistinctNames(st.symbols)
    && Find(st.symbols, "pow").Some?
    && BindsBelow(st.scopes, st.Next())
  }

  /** A result that may be used as an operand from here on. */
  ghost predicate HealthyResult(r: Lowered) {
    Healthy(r.state) && (r.value.Some? ==> r.value.value < r.state.Next())
  }

  lemma {:induction false} LookupIsBelow(scopes: Scopes, x: string, bound: nat)
    requires BindsBelow(scopes, bound)
    ensures Lookup(scopes, x).Some? ==> Lookup(scopes, x).value < bound
  {
    if scopes != [] && x !in scopes[|scopes| - 1] {
      LookupIsBelow(scopes[..|scopes| - 1], x, bound);
    }
  }

  lemma EmitIsHealthy(st: State, op: Op)
    requires Healthy(st) && DefinedBefore(op, st.Next())
    requires op.CallOp? ==> Find(st.symbols, op.callee).Some?
    ensures HealthyResult(st.EmitValue(op))
  {
  }

  lemma DeclareIsHealthy(st: State, name: string, arity: nat)
    requires Healthy(st)
    ensures Healthy(st.(symbols := Declare(st.symbols, name, arity).1))
    ensures Find(Declare(st.symbols, name, arity).1, name) == Some(Declare(st.symbols, name, arity).0)
  {
    var after := Declare(st.symbols, name, arity).1;
    if Find(st.symbols, name).None? {
      forall x
        ensures Find(st.symbols, x).Some? ==> Find(after, x).Some?
        ensures x == name ==> Find(after, x) == Some(|st.symbols|)
      {
        FindFromAppended(st.symbols, after[|st.symbols|], x, 0);
      }
    }
  }

  lemma BindIsHealthy(st: State, x: string, id: nat)
    requires Healthy(st) && id < st.Next()
    ensures Healthy(st.Bind(x, id)) && Healthy(st.Push().Bind(x, id))
  {
  }

  lemma OperatorIsHealthy(op: BinaryOp, l: nat, r: nat, st: State)
    requires Healthy(st) && l < st.Next() && r < st.Next()
    ensures HealthyResult(LowerOperator(op, l, r, st))
  {
    hide WellFormed, BindsBelow, DistinctNames;
    match op
    case Arith(a) => EmitIsHealthy(st, ArithF(a, l, r));
    case Power =>
      var i := Find(st.symbols, "pow").value;
      EmitIsHealthy(st, CallOp("pow", [l, r], st.symbols[i].hasResult));
    case Compare(c) =>
      EmitIsHealthy(st, CmpF(PredicateOf(c), l, r));
      EmitIsHealthy(st.Emit(CmpF(PredicateOf(c), l, r)), UiToFp(st.Next()));
    case OtherBinary =>
  }

  /** Whether or not the expression lowers, what has been emitted and declared stays well-formed. */
  lemma {:induction false} LoweringIsHealthy(e: Expr, st: State)
    requires Healthy(st)
    ensures HealthyResult(LowerExpr(e, st))
    decreases e, 1, 0
  {
    hide WellFormed, BindsBelow, DistinctNames;
    match e
    case Number(d) => EmitIsHealthy(st, Constant(d));
    case Variable(x) => LookupIsBelow(st.scopes, x, st.Next());
    case Unary(op, a) =>
      LoweringIsHealthy(a, st);
      var r := LowerExpr(a, st);
      if r.value.Some? && op == Negate {
        EmitIsHealthy(r.state, NegF(r.value.value));
      }
    case Binary(op, a, b) =>
      var l := LowerExpr(a, st);
      LoweringIsHealthy(a, st);
      LoweringIsHealthy(b, l.state);
      var r := LowerExpr(b, l.state);
      ScopesAreKept(b, l.state);
      if l.value.Some? && r.value.Some? {
        OperatorIsHealthy(op, l.value.value, r.value.value, r.state);
      }
    case Call(f, args) =>
      ArgsAreHealthy(args, |args|, st);
      var r := LowerArgs(args, |args|, st);
      if r.values.Some? {
        var (i, symbols) := Declare(r.state.symbols, f, |args|);
        DeclareIsHealthy(r.state, f, |args|);
        EmitIsHealthy(r.state.(symbols := symbols), CallOp(f, r.values.value, symbols[i].hasResult));
      }
    case Let(x, a) =>
      LoweringIsHealthy(a, st);
      var r := LowerExpr(a, st);
      if r.value.Some? {
        BindIsHealthy(r.state, x, r.value.value);
      }
    case LetIn(x, a, b) =>
      LoweringIsHealthy(a, st);
      var r := LowerExpr(a, st);
      if r.value.Some? {
        BindIsHealthy(r.state, x, r.value.value);
        LoweringIsHealthy(b, r.state.Push().Bind(x, r.value.value));
        PopIsHealthy(LowerExpr(b, r.state.Push().Bind(x, r.value.value)).state);
      }
    case Block(es) =>
      PushIsHealthy(st);
      StatementsAreHealthy(es, |es|, st.Push());
      PopIsHealthy(LowerStatements(es, |es|, st.Push()).state);
    case Unsupported =>
  }

  lemma PushIsHealthy(st: State)
    requires Healthy(st)
    ensures Healthy(st.Push())
  {
  }

  lemma PopIsHealthy(st: State)
    requires Healthy(st)
    ensures Healthy(st.Pop())
  {
  }

  lemma {:induction false} ArgsAreHealthy(args: seq<Expr>, count: nat, st: State)
    requires count <= |args| && Healthy(st)
    ensures var r := LowerArgs(args, count, st);
            Healthy(r.state) && (r.values.Some? ==> forall i :: 0 <= i < |r.values.value| ==> r.values.value[i] < r.state.Next())
    decreases args, 0, count
  {
    hide WellFormed, BindsBelow, DistinctNames;
    if count > 0 {
      ArgsAreHealthy(args, count - 1, st);
      var r := LowerArgs(args, count - 1, st);
      LoweringIsHealthy(args[count - 1], r.state);
      ScopesAreKept(args[count - 1], r.state);
    }
  }

  lemma {:induction false} StatementsAreHealthy(es: seq<Expr>, count: nat, st: State)
    requires count <= |es| && Healthy(st)
    ensures HealthyResult(LowerStatements(es, count, st))
    decreases es, 0, count
  {
    hide WellFormed, BindsBelow, DistinctNames;
    if count == 0 {
      EmitIsHealthy(st, Constant(ZERO_DOUBLE));
    } else {
      StatementsAreHealthy(es, count - 1, st);
      LoweringIsHealthy(es[count - 1], LowerStatements(es, count - 1, st).state);
    }
  }
}
