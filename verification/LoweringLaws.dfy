/** What the lowering pass keeps for every expression, state and meaning of the called functions. */
module LoweringLaws {
  import opened FluxAst
  import opened Options
  import opened Ssa
  import opened Lowering

  // ----- Scopes do not leak

  /** Operations are only appended, and no scope but the innermost changes. */
  ghost predicate Framed(before: State, after: State) {
    && after.params == before.params
    && before.ops <= after.ops
    && |after.scopes| == |before.scopes|
    && (forall i :: 0 <= i < |before.scopes| - 1 ==> after.scopes[i] == before.scopes[i])
  }

  /** Holds whether or not the expression lowers. */
  lemma {:induction false} ScopesAreKept(e: Expr, st: State)
    ensures Framed(st, LowerExpr(e, st).state)
    decreases e, 1, 0
  {
    match e
    case Unary(_, a) => ScopesAreKept(a, st);
    case Binary(_, a, b) =>
      ScopesAreKept(a, st);
      ScopesAreKept(b, LowerExpr(a, st).state);
    case Call(_, args) => ScopesAreKeptArgs(args, |args|, st);
    case Let(_, a) => ScopesAreKept(a, st);
    case LetIn(x, a, b) =>
      ScopesAreKept(a, st);
      var r := LowerExpr(a, st);
      if r.value.Some? {
        ScopesAreKept(b, r.state.Push().Bind(x, r.value.value));
      }
    case Block(es) => ScopesAreKeptStatements(es, |es|, st.Push());
    case _ =>
  }

  lemma {:induction false} ScopesAreKeptArgs(args: seq<Expr>, count: nat, st: State)
    requires count <= |args|
    ensures Framed(st, LowerArgs(args, count, st).state)
    decreases args, 0, count
  {
    if count > 0 {
      ScopesAreKeptArgs(args, count - 1, st);
      ScopesAreKept(args[count - 1], LowerArgs(args, count - 1, st).state);
    }
  }

  lemma {:induction false} ScopesAreKeptStatements(es: seq<Expr>, count: nat, st: State)
    requires count <= |es|
    ensures Framed(st, LowerStatements(es, count, st).state)
    decreases es, 0, count
  {
    if count > 0 {
      ScopesAreKeptStatements(es, count - 1, st);
      ScopesAreKept(es[count - 1], LowerStatements(es, count - 1, st).state);
    }
  }

  /** Leaving a scope gives back exactly the stack it was entered with. */
  lemma PopUndoesPush(before: State, after: State)
    requires |after.scopes| == |before.scopes| + 1
    requires forall i :: 0 <= i < |before.scopes| ==> after.scopes[i] == before.scopes[i]
    ensures after.Pop().scopes == before.scopes
  {
  }

  // ----- The machine state behind a lowering state

  predicate Realises(registers: seq<Register>, id: nat, d: Double) {
    HoldsDouble(registers, id) && registers[id].value == d
  }

  /** The scope stack, read through the registers, is the environment. */
  ghost predicate Corresponds(scopes: Scopes, registers: seq<Register>, env: Env) {
    forall x :: (x in env <==> Lookup(scopes, x).Some?)
             && (x in env ==> Realises(registers, Lookup(scopes, x).value, env[x]))
  }

  /** `voids` are the declared functions without a result, and `pow` is not one of them. */
  ghost predicate Declares(symbols: seq<FuncOp>, voids: set<string>) {
    && (forall f :: f in voids <==> Find(symbols, f).Some? && !symbols[Find(symbols, f).value].hasResult)
    && Find(symbols, "pow").Some? && "pow" !in voids
  }

  /** Running what has been emitted so far reaches `m`, whose registers realise the scopes. */
  ghost predicate Simulates<W>(s: Semantics<W>, voids: set<string>, st: State, start: Machine<W>, env: Env, m: Machine<W>) {
    && !s.unequal
    && st.scopes != []
    && Declares(st.symbols, voids)
    && Run(s, st.ops, start) == Some(m)
    && |m.registers| == st.Next()
    && Corresponds(st.scopes, m.registers, env)
  }

  /** The lowering of an expression agrees with its evaluation. */
  ghost predicate Agrees<W>(s: Semantics<W>, voids: set<string>, r: Lowered, start: Machine<W>, m: Machine<W>,
                            v: Option<Outcome<Double, W>>)
  {
    && (r.value.Some? <==> v.Some?)
    && (r.value.Some? ==>
          var final := Run(s, r.state.ops, start);
          && final.Some?
          && m.registers <= final.value.registers
          && final.value.world == v.value.world
          && Realises(final.value.registers, r.value.value, v.value.value)
          && Simulates(s, voids, r.state, start, v.value.env, final.value))
  }

  lemma LookupPushed(scopes: Scopes, x: string)
    ensures Lookup(scopes + [map[]], x) == Lookup(scopes, x)
  {
    assert (scopes + [map[]])[..|scopes|] == scopes;
  }

  lemma LookupBound(st: State, x: string, id: nat, y: string)
    requires st.scopes != []
    ensures Lookup(st.Bind(x, id).scopes, y) == if y == x then Some(id) else Lookup(st.scopes, y)
  {
    var n := |st.scopes|;
    assert st.Bind(x, id).scopes[..n - 1] == st.scopes[..n - 1];
  }

  lemma PushSimulates<W>(s: Semantics<W>, voids: set<string>, st: State, start: Machine<W>, env: Env, m: Machine<W>)
    requires Simulates(s, voids, st, start, env, m)
    ensures Simulates(s, voids, st.Push(), start, env, m)
  {
    forall x
      ensures Lookup(st.Push().scopes, x) == Lookup(st.scopes, x)
    {
      LookupPushed(st.scopes, x);
    }
  }

  lemma BindSimulates<W>(s: Semantics<W>, voids: set<string>, st: State, start: Machine<W>, env: Env, m: Machine<W>,
                         x: string, id: nat)
    requires Simulates(s, voids, st, start, env, m) && HoldsDouble(m.registers, id)
    ensures Simulates(s, voids, st.Bind(x, id), start, env[x := m.registers[id].value], m)
  {
    forall y
      ensures Lookup(st.Bind(x, id).scopes, y) == if y == x then Some(id) else Lookup(st.scopes, y)
    {
      LookupBound(st, x, id, y);
    }
  }

  /** A scope that is left behind: its values are forgotten, everything else is as it was. */
  lemma PopSimulates<W>(s: Semantics<W>, voids: set<string>, outer: State, env: Env, registers: seq<Register>,
                        inner: State, start: Machine<W>, innerEnv: Env, m: Machine<W>)
    requires outer.scopes != [] && Corresponds(outer.scopes, registers, env) && registers <= m.registers
    requires Simulates(s, voids, inner, start, innerEnv, m)
    requires |inner.scopes| == |outer.scopes| + 1
    requires forall i :: 0 <= i < |outer.scopes| ==> inner.scopes[i] == outer.scopes[i]
    ensures Simulates(s, voids, inner.Pop(), start, env, m)
  {
    PopUndoesPush(outer, inner);
  }

  lemma EmitSimulates<W>(s: Semantics<W>, voids: set<string>, st: State, start: Machine<W>, env: Env, m: Machine<W>, op: Op)
    requires Simulates(s, voids, st, start, env, m) && Exec(s, op, m).Some?
    ensures var m' := Exec(s, op, m).value;
            m.registers <= m'.registers && Simulates(s, voids, st.Emit(op), start, env, m')
  {
    RunOneMore(s, st.ops, op, start);
  }

  lemma DeclareKeeps(symbols: seq<FuncOp>, voids: set<string>, f: string, arity: nat)
    requires Declares(symbols, voids)
    ensures Declares(Declare(symbols, f, arity).1, voids)
    ensures var (i, after) := Declare(symbols, f, arity); f in voids <==> !after[i].hasResult
  {
    var (i, after) := Declare(symbols, f, arity);
    if Find(symbols, f).None? {
      forall g
        ensures Find(after, g) == if g == f then Some(|symbols|) else Find(symbols, g)
      {
        FindFromAppended(symbols, after[|symbols|], g, 0);
      }
    }
  }

  // ----- Lowering preserves meaning

  lemma OperatorAgrees<W>(s: Semantics<W>, voids: set<string>, op: BinaryOp, l: nat, r: nat, st: State,
                          start: Machine<W>, env: Env, m: Machine<W>)
    requires Simulates(s, voids, st, start, env, m)
    requires HoldsDouble(m.registers, l) && HoldsDouble(m.registers, r)
    ensures Agrees(s, voids, LowerOperator(op, l, r, st), start, m,
                   Operate(s, op, m.registers[l].value, m.registers[r].value, env, m.world))
  {
    hide Corresponds, Run;
    match op
    case Arith(a) => EmitSimulates(s, voids, st, start, env, m, ArithF(a, l, r));
    case Power => PowerAgrees(s, voids, l, r, st, start, env, m);
    case Compare(c) =>
      var cmp := CmpF(PredicateOf(c), l, r);
      EmitSimulates(s, voids, st, start, env, m, cmp);
      var m' := Exec(s, cmp, m).value;
      EmitSimulates(s, voids, st.Emit(cmp), start, env, m', UiToFp(st.Next()));
    case OtherBinary =>
  }

  lemma PowerAgrees<W>(s: Semantics<W>, voids: set<string>, l: nat, r: nat, st: State,
                       start: Machine<W>, env: Env, m: Machine<W>)
    requires Simulates(s, voids, st, start, env, m)
    requires HoldsDouble(m.registers, l) && HoldsDouble(m.registers, r)
    ensures Agrees(s, voids, LowerOperator(Power, l, r, st), start, m,
                   Operate(s, Power, m.registers[l].value, m.registers[r].value, env, m.world))
  {
    hide Corresponds, Run;
    assert Doubles(m.registers, [l, r]) == [m.registers[l].value, m.registers[r].value];
    EmitSimulates(s, voids, st, start, env, m, CallOp("pow", [l, r], true));
  }

  lemma UnaryAgrees<W>(s: Semantics<W>, voids: set<string>, op: UnaryOp, r: Lowered, v: Option<Outcome<Double, W>>,
                       start: Machine<W>, m: Machine<W>)
    requires op == Negate && r.value.Some? && Agrees(s, voids, r, start, m, v)
    ensures Agrees(s, voids, r.state.EmitValue(NegF(r.value.value)), start, m,
                   Some(v.value.(value := s.negate(v.value.value))))
  {
    var m1 := Run(s, r.state.ops, start).value;
    EmitSimulates(s, voids, r.state, start, v.value.env, m1, NegF(r.value.value));
  }

  lemma BinaryAgrees<W>(s: Semantics<W>, voids: set<string>, op: BinaryOp, l: Lowered, lv: Option<Outcome<Double, W>>,
                        r: Lowered, rv: Option<Outcome<Double, W>>, start: Machine<W>, m: Machine<W>)
    requires l.value.Some? && Agrees(s, voids, l, start, m, lv)
    requires r.value.Some? && Agrees(s, voids, r, start, Run(s, l.state.ops, start).value, rv)
    ensures Agrees(s, voids, LowerOperator(op, l.value.value, r.value.value, r.state), start, m,
                   Operate(s, op, lv.value.value, rv.value.value, rv.value.env, rv.value.world))
  {
    var m1, m2 := Run(s, l.state.ops, start).value, Run(s, r.state.ops, start).value;
    assert Realises(m2.registers, l.value.value, lv.value.value);
    OperatorAgrees(s, voids, op, l.value.value, r.value.value, r.state, start, rv.value.env, m2);
    AgreesFrom(s, voids, LowerOperator(op, l.value.value, r.value.value, r.state), start, m, m2,
               Operate(s, op, lv.value.value, rv.value.value, rv.value.env, rv.value.world));
  }

  lemma AgreesFrom<W>(s: Semantics<W>, voids: set<string>, r: Lowered, start: Machine<W>, m: Machine<W>, m1: Machine<W>,
                      v: Option<Outcome<Double, W>>)
    requires m.registers <= m1.registers && Agrees(s, voids, r, start, m1, v)
    ensures Agrees(s, voids, r, start, m, v)
  {
  }

  lemma BodyAgrees<W>(s: Semantics<W>, voids: set<string>, outer: State, env: Env, m: Machine<W>,
                      q: Lowered, v: Option<Outcome<Double, W>>, start: Machine<W>)
    requires outer.scopes != [] && Corresponds(outer.scopes, m.registers, env)
    requires |q.state.scopes| == |outer.scopes| + 1
    requires forall i :: 0 <= i < |outer.scopes| ==> q.state.scopes[i] == outer.scopes[i]
    requires Agrees(s, voids, q, start, m, v)
    ensures Agrees(s, voids, q.(state := q.state.Pop()), start, m, if v.None? then None else Some(v.value.(env := env)))
  {
    if q.value.Some? {
      PopSimulates(s, voids, outer, env, m.registers, q.state, start, v.value.env, Run(s, q.state.ops, start).value);
    }
  }

  /** After the initialiser of a `let`, the name is bound to its value. */
  lemma BoundAgrees<W>(s: Semantics<W>, voids: set<string>, x: string, r: Lowered, v: Option<Outcome<Double, W>>,
                       start: Machine<W>, m: Machine<W>)
    requires r.value.Some? && Agrees(s, voids, r, start, m, v)
    ensures Agrees(s, voids, r.(state := r.state.Bind(x, r.value.value)), start, m,
                   Some(v.value.(env := v.value.env[x := v.value.value])))
    ensures Simulates(s, voids, r.state.Push().Bind(x, r.value.value), start,
                      v.value.env[x := v.value.value], Run(s, r.state.ops, start).value)
  {
    var m1 := Run(s, r.state.ops, start).value;
    BindSimulates(s, voids, r.state, start, v.value.env, m1, x, r.value.value);
    PushSimulates(s, voids, r.state, start, v.value.env, m1);
    BindSimulates(s, voids, r.state.Push(), start, v.value.env, m1, x, r.value.value);
  }

  /**
    * Running the emitted operations gives the value, the bindings and the calls that evaluating the
    * expression from left to right gives; an expression lowers exactly when it has a meaning.
    */
  lemma {:induction false} LoweringAgrees<W>(s: Semantics<W>, voids: set<string>, e: Expr, st: State,
                                             start: Machine<W>, env: Env, m: Machine<W>)
    requires Simulates(s, voids, st, start, env, m)
    ensures Agrees(s, voids, LowerExpr(e, st), start, m, Eval(s, voids, e, env, m.world))
    decreases e, 1, 0
  {
    hide Simulates, Run;
    match e
    case Number(d) => LeafAgrees(s, voids, e, st, start, env, m);
    case Variable(x) => LeafAgrees(s, voids, e, st, start, env, m);
    case Unsupported => LeafAgrees(s, voids, e, st, start, env, m);
    case Unary(op, a) =>
      LoweringAgrees(s, voids, a, st, start, env, m);
      var r := LowerExpr(a, st);
      if r.value.Some? && op == Negate {
        UnaryAgrees(s, voids, op, r, Eval(s, voids, a, env, m.world), start, m);
      }
    case Binary(op, a, b) =>
      LoweringAgrees(s, voids, a, st, start, env, m);
      var l, lv := LowerExpr(a, st), Eval(s, voids, a, env, m.world);
      if l.value.Some? {
        var m1 := Run(s, l.state.ops, start).value;
        LoweringAgrees(s, voids, b, l.state, start, lv.value.env, m1);
        var r, rv := LowerExpr(b, l.state), Eval(s, voids, b, lv.value.env, m1.world);
        if r.value.Some? {
          BinaryAgrees(s, voids, op, l, lv, r, rv, start, m);
        }
      }
    case Call(f, args) => CallAgrees(s, voids, f, args, st, start, env, m);
    case Let(x, a) =>
      LoweringAgrees(s, voids, a, st, start, env, m);
      if LowerExpr(a, st).value.Some? {
        BoundAgrees(s, voids, x, LowerExpr(a, st), Eval(s, voids, a, env, m.world), start, m);
      }
    case LetIn(x, a, b) => LetInAgrees(s, voids, x, a, b, st, start, env, m);
    case Block(es) => BlockAgrees(s, voids, es, st, start, env, m);
  }

  lemma LeafAgrees<W>(s: Semantics<W>, voids: set<string>, e: Expr, st: State, start: Machine<W>, env: Env, m: Machine<W>)
    requires Simulates(s, voids, st, start, env, m) && (e.Number? || e.Variable? || e.Unsupported?)
    ensures Agrees(s, voids, LowerExpr(e, st), start, m, Eval(s, voids, e, env, m.world))
  {
    match e
    case Number(d) => EmitSimulates(s, voids, st, start, env, m, Constant(d));
    case Variable(x) => assert x in env <==> Lookup(st.scopes, x).Some?;
    case _ =>
  }

  lemma {:induction false} LetInAgrees<W>(s: Semantics<W>, voids: set<string>, x: string, a: Expr, b: Expr, st: State,
                                          start: Machine<W>, env: Env, m: Machine<W>)
    requires Simulates(s, voids, st, start, env, m)
    ensures Agrees(s, voids, LowerExpr(LetIn(x, a, b), st), start, m, Eval(s, voids, LetIn(x, a, b), env, m.world))
    decreases LetIn(x, a, b), 0, 0
  {
    hide Simulates, Run;
    LoweringAgrees(s, voids, a, st, start, env, m);
    var r, v := LowerExpr(a, st), Eval(s, voids, a, env, m.world);
    if r.value.Some? {
      var m1 := Run(s, r.state.ops, start).value;
      var inner, innerEnv := r.state.Push().Bind(x, r.value.value), v.value.env[x := v.value.value];
      BoundAgrees(s, voids, x, r, v, start, m);
      LoweringAgrees(s, voids, b, inner, start, innerEnv, m1);
      ScopesAreKept(b, inner);
      LetBodyAgrees(s, voids, x, r, v, LowerExpr(b, inner), Eval(s, voids, b, innerEnv, m1.world), start, m);
    }
  }

  lemma LetBodyAgrees<W>(s: Semantics<W>, voids: set<string>, x: string, r: Lowered, v: Option<Outcome<Double, W>>,
                         q: Lowered, qv: Option<Outcome<Double, W>>, start: Machine<W>, m: Machine<W>)
    requires r.value.Some? && Agrees(s, voids, r, start, m, v)
    requires Agrees(s, voids, q, start, Run(s, r.state.ops, start).value, qv)
    requires Framed(r.state.Push().Bind(x, r.value.value), q.state)
    ensures Agrees(s, voids, q.(state := q.state.Pop()), start, m,
                   if qv.None? then None else Some(qv.value.(env := v.value.env)))
  {
    var m1 := Run(s, r.state.ops, start).value;
    hide Run, Declares;
    BodyAgrees(s, voids, r.state, v.value.env, m1, q, qv, start);
    AgreesFrom(s, voids, q.(state := q.state.Pop()), start, m, m1,
               if qv.None? then None else Some(qv.value.(env := v.value.env)));
  }

  lemma {:induction false} BlockAgrees<W>(s: Semantics<W>, voids: set<string>, es: seq<Expr>, st: State,
                                          start: Machine<W>, env: Env, m: Machine<W>)
    requires Simulates(s, voids, st, start, env, m)
    ensures Agrees(s, voids, LowerExpr(Block(es), st), start, m, Eval(s, voids, Block(es), env, m.world))
    decreases Block(es), 0, 0
  {
    PushSimulates(s, voids, st, start, env, m);
    StatementsAgree(s, voids, es, |es|, st.Push(), start, env, m);
    ScopesAreKeptStatements(es, |es|, st.Push());
    BodyAgrees(s, voids, st, env, m, LowerStatements(es, |es|, st.Push()),
               EvalStatements(s, voids, es, |es|, env, m.world), start);
  }

  /** The same for the first `count` arguments of a call. */
  ghost predicate ArgsAgreement<W>(s: Semantics<W>, voids: set<string>, r: LoweredArgs, start: Machine<W>, m: Machine<W>,
                                   v: Option<Outcome<seq<Double>, W>>)
  {
    && (r.values.Some? <==> v.Some?)
    && (r.values.Some? ==>
          var final := Run(s, r.state.ops, start);
          && final.Some?
          && m.registers <= final.value.registers
          && final.value.world == v.value.world
          && |r.values.value| == |v.value.value|
          && (forall i :: 0 <= i < |r.values.value| ==>
                Realises(final.value.registers, r.values.value[i], v.value.value[i]))
          && Simulates(s, voids, r.state, start, v.value.env, final.value))
  }

  /** The machine passes the values of the operands to the call. */
  lemma CallRuns<W>(s: Semantics<W>, f: string, ids: seq<nat>, hasResult: bool, values: seq<Double>, m: Machine<W>)
    requires |ids| == |values| && forall i :: 0 <= i < |ids| ==> Realises(m.registers, ids[i], values[i])
    ensures var (d, w') := s.call(f, values, m.world);
            Exec(s, CallOp(f, ids, hasResult), m) == Some(Machine(m.registers + [if hasResult then F64(d) else NoValue], w'))
  {
    assert Doubles(m.registers, ids) == values;
  }

  /** The emitted call, when the arguments have been lowered. */
  lemma EmittedCallAgrees<W>(s: Semantics<W>, voids: set<string>, f: string, arity: nat, r: LoweredArgs,
                             v: Outcome<seq<Double>, W>, start: Machine<W>, m: Machine<W>)
    requires r.values.Some? && ArgsAgreement(s, voids, r, start, m, Some(v))
    ensures var (i, symbols) := Declare(r.state.symbols, f, arity);
            var (d, w') := s.call(f, v.value, v.world);
            Agrees(s, voids, EmitCall(symbols[i], r.values.value, r.state.(symbols := symbols)), start, m,
                   if f in voids then None else Some(Outcome(d, v.env, w')))
  {
    hide Corresponds, Run, Exec;
    var m1 := Run(s, r.state.ops, start).value;
    var (i, symbols) := Declare(r.state.symbols, f, arity);
    DeclareKeeps(r.state.symbols, voids, f, arity);
    CallRuns(s, f, r.values.value, symbols[i].hasResult, v.value, m1);
    hide Declares, Declare;
    EmitSimulates(s, voids, r.state.(symbols := symbols), start, v.env, m1, CallOp(f, r.values.value, symbols[i].hasResult));
  }

  lemma {:induction false} CallAgrees<W>(s: Semantics<W>, voids: set<string>, f: string, args: seq<Expr>, st: State,
                                         start: Machine<W>, env: Env, m: Machine<W>)
    requires Simulates(s, voids, st, start, env, m)
    ensures Agrees(s, voids, LowerExpr(Call(f, args), st), start, m, Eval(s, voids, Call(f, args), env, m.world))
    decreases args, 1, 0
  {
    hide Simulates, Run;
    ArgsAgree(s, voids, args, |args|, st, start, env, m);
    var r, v := LowerArgs(args, |args|, st), EvalArgs(s, voids, args, |args|, env, m.world);
    if r.values.Some? {
      EmittedCallAgrees(s, voids, f, |args|, r, v.value, start, m);
      hide EmitCall, Declare;
    }
  }

  lemma {:induction false} ArgsAgree<W>(s: Semantics<W>, voids: set<string>, args: seq<Expr>, count: nat, st: State,
                                        start: Machine<W>, env: Env, m: Machine<W>)
    requires count <= |args| && Simulates(s, voids, st, start, env, m)
    ensures ArgsAgreement(s, voids, LowerArgs(args, count, st), start, m, EvalArgs(s, voids, args, count, env, m.world))
    decreases args, 0, count
  {
    if count > 0 {
      ArgsAgree(s, voids, args, count - 1, st, start, env, m);
      var r, v := LowerArgs(args, count - 1, st), EvalArgs(s, voids, args, count - 1, env, m.world);
      if r.values.Some? {
        hide Simulates, Run;
        var m1 := Run(s, r.state.ops, start).value;
        LoweringAgrees(s, voids, args[count - 1], r.state, start, v.value.env, m1);
        ArgAppended(s, voids, r, v, LowerExpr(args[count - 1], r.state),
                    Eval(s, voids, args[count - 1], v.value.env, v.value.world), start, m);
      }
    }
  }

  lemma ArgAppended<W>(s: Semantics<W>, voids: set<string>, r: LoweredArgs, v: Option<Outcome<seq<Double>, W>>,
                       q: Lowered, qv: Option<Outcome<Double, W>>, start: Machine<W>, m: Machine<W>)
    requires r.values.Some? && ArgsAgreement(s, voids, r, start, m, v)
    requires Agrees(s, voids, q, start, Run(s, r.state.ops, start).value, qv)
    ensures ArgsAgreement(s, voids,
                          LoweredArgs(if q.value.None? then None else Some(r.values.value + [q.value.value]), q.state), start, m,
                          if qv.None? then None else Some(Outcome(v.value.value + [qv.value.value], qv.value.env, qv.value.world)))
  {
    hide Simulates;
  }

  lemma {:induction false} StatementsAgree<W>(s: Semantics<W>, voids: set<string>, es: seq<Expr>, count: nat, st: State,
                                              start: Machine<W>, env: Env, m: Machine<W>)
    requires count <= |es| && Simulates(s, voids, st, start, env, m)
    ensures Agrees(s, voids, LowerStatements(es, count, st), start, m, EvalStatements(s, voids, es, count, env, m.world))
    decreases es, 0, count
  {
    if count == 0 {
      EmitSimulates(s, voids, st, start, env, m, Constant(ZERO_DOUBLE));
    } else {
      StatementsAgree(s, voids, es, count - 1, st, start, env, m);
      var r := LowerStatements(es, count - 1, st);
      if r.value.Some? {
        var m1, v1 := Run(s, r.state.ops, start).value, EvalStatements(s, voids, es, count - 1, env, m.world).value;
        LoweringAgrees(s, voids, es[count - 1], r.state, start, v1.env, m1);
      }
    }
  }

  /** A block starts with 0.0, all bits zero, and so do the operations it is lowered to. */
  lemma BlockStartsWithZero<W>(s: Semantics<W>, voids: set<string>, es: seq<Expr>, st: State, env: Env, w: W)
    ensures EvalStatements(s, voids, es, 0, env, w) == Some(Outcome(Double(0), env, w))
    ensures LowerStatements(es, 0, st) == Lowered(Some(st.params + |st.ops|), st.(ops := st.ops + [Constant(Double(0))]))
  {
    hide Eval, LowerExpr, Lookup, Find, Run;
  }
}
