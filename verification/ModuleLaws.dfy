/** Which programs lower, and what their bodies compute. */
module ModuleLaws {
  import opened FluxAst
  import opened Options
  import opened Ssa
  import opened Lowering
  import opened LoweringLaws
  import opened LoweringHealth

  // ----- Calling a function

  /** The arguments under the names of the parameters; of two equal names the later one counts. */
  function ArgEnv(params: seq<Param>, args: seq<Double>): Env
    requires |args| <= |params|
  {
    if args == [] then map[]
    else ArgEnv(params, args[..|args| - 1])[params[|args| - 1].name := args[|args| - 1]]
  }

  function ArgRegisters(args: seq<Double>): seq<Register> {
    seq(|args|, i requires 0 <= i < |args| => F64(args[i]))
  }

  /** What a finished body returns, when its machine does not get stuck. */
  function RunBody<W>(s: Semantics<W>, b: Body, args: seq<Double>, w: W): Option<(Option<Double>, W)> {
    match Run(s, b.ops, Machine(ArgRegisters(args), w))
    case None => None
    case Some(m) =>
      if b.returned.None? then Some((None, m.world))
      else if HoldsDouble(m.registers, b.returned.value) then Some((Some(m.registers[b.returned.value].value), m.world))
      else None
  }

  lemma {:induction false} EntryScope(params: seq<Param>, args: seq<Double>)
    requires |args| <= |params|
    ensures ParamScope(params, |args|).Keys == ArgEnv(params, args).Keys
    ensures forall x :: x in ParamScope(params, |args|) ==>
              Realises(ArgRegisters(args), ParamScope(params, |args|)[x], ArgEnv(params, args)[x])
  {
    if args != [] {
      EntryScope(params, args[..|args| - 1]);
    }
  }

  lemma EntrySimulates<W>(s: Semantics<W>, voids: set<string>, f: Definition, decl: FuncOp, st: State,
                          args: seq<Double>, w: W)
    requires !s.unequal
    requires st.scopes == [] && Declares(st.symbols, voids)
    requires |args| == decl.arity <= |f.proto.params|
    ensures var start := Machine(ArgRegisters(args), w);
            Simulates(s, voids, EntryState(f, decl, st), start, ArgEnv(f.proto.params, args), start)
  {
    EntryScope(f.proto.params, args);
    var top := ParamScope(f.proto.params, |args|);
    forall x
      ensures Lookup([top], x) == if x in top then Some(top[x]) else None
    {
      assert Lookup([top][..0], x) == None;
    }
  }

  lemma BodyKeepsDeclares(symbols: seq<FuncOp>, voids: set<string>, i: nat, body: Body)
    requires Declares(symbols, voids) && i < |symbols|
    ensures Declares(symbols[i := symbols[i].(body := Some(body))], voids)
  {
    var after := symbols[i := symbols[i].(body := Some(body))];
    forall x
      ensures Find(after, x) == Find(symbols, x)
    {
      if Find(symbols, x).Some? {
        FindKept(symbols, after, x);
      }
    }
  }

  /** One definition: it lowers exactly when its body has a meaning, and its body computes that meaning. */
  lemma FunctionAgrees<W>(s: Semantics<W>, voids: set<string>, f: Definition, i: nat, st: State, args: seq<Double>, w: W)
    requires !s.unequal
    requires st.scopes == [] && Declares(st.symbols, voids)
    requires Find(st.symbols, f.proto.name) == Some(i) && st.symbols[i].body.None?
    requires |args| == st.symbols[i].arity <= |f.proto.params|
    ensures var r, v := LowerFunction(f, st), Eval(s, voids, f.body, ArgEnv(f.proto.params, args), w);
            && (r.ok <==> v.Some?)
            && (r.ok ==>
                  && r.state.scopes == []
                  && Declares(r.state.symbols, voids)
                  && r.state.symbols[i].body.Some?
                  && RunBody(s, r.state.symbols[i].body.value, args, w)
                     == Some((if st.symbols[i].hasResult then Some(v.value.value) else None, v.value.world)))
  {
    hide Corresponds, Run;
    var decl := st.symbols[i];
    var entry, start := EntryState(f, decl, st), Machine(ArgRegisters(args), w);
    EntrySimulates(s, voids, f, decl, st, args, w);
    LoweringAgrees(s, voids, f.body, entry, start, ArgEnv(f.proto.params, args), start);
    SymbolsGrow(f.body, entry);
    ScopesAreKept(f.body, entry);
    var r := LowerExpr(f.body, entry);
    if r.value.Some? {
      BodyKeepsDeclares(r.state.symbols, voids, i, Body(decl.arity, r.state.ops, if decl.hasResult then r.value else None));
    }
  }

  // ----- All functions of a program

  function Arity(symbols: seq<FuncOp>, name: string): nat {
    match Find(symbols, name) case None => 0 case Some(i) => symbols[i].arity
  }

  /** The scope rule for one definition, under its declared arguments. */
  predicate InScope(symbols: seq<FuncOp>, voids: set<string>, f: Definition)
    requires Fits(symbols, f)
  {
    Scope(voids, f.body, ParamScope(f.proto.params, Arity(symbols, f.proto.name)).Keys).Some?
  }

  ghost predicate Ready(fs: seq<Definition>, st: State, voids: set<string>) {
    && st.scopes == []
    && Declares(st.symbols, voids)
    && (forall j :: 0 <= j < |st.symbols| ==> st.symbols[j].body.None?)
    && (forall f :: f in fs ==> Fits(st.symbols, f) && Find(st.symbols, f.proto.name).Some?)
  }

  /** After `count` definitions exactly their symbols have bodies. */
  ghost predicate BodiesOf(fs: seq<Definition>, count: nat, st: State, now: State)
    requires count <= |fs|
  {
    && |st.symbols| <= |now.symbols|
    && (forall j :: 0 <= j < |st.symbols| ==>
         (now.symbols[j].body.Some? <==> exists k :: 0 <= k < count && Find(st.symbols, fs[k].proto.name) == Some(j)))
    && forall j :: |st.symbols| <= j < |now.symbols| ==> now.symbols[j].body.None?
  }

  function TrivialSemantics(): Semantics<int> {
    Semantics(d => d, (a, l, r) => l, (l, r) => Same, false, b => ZERO_DOUBLE, (f, args, w) => (ZERO_DOUBLE, w))
  }

  function Zeros(n: nat): seq<Double> {
    seq(n, i => ZERO_DOUBLE)
  }

  lemma FunctionLowersExactly(voids: set<string>, f: Definition, i: nat, st: State)
    requires st.scopes == [] && Declares(st.symbols, voids) && Fits(st.symbols, f)
    requires Find(st.symbols, f.proto.name) == Some(i) && st.symbols[i].body.None?
    ensures LowerFunction(f, st).ok <==> InScope(st.symbols, voids, f)
    ensures LowerFunction(f, st).ok ==>
              var now := LowerFunction(f, st).state;
              now.scopes == [] && Declares(now.symbols, voids) && now.symbols[i].body.Some?
  {
    hide Declares, LowerFunction;
    var args := Zeros(st.symbols[i].arity);
    FunctionAgrees(TrivialSemantics(), voids, f, i, st, args, 0);
    ScopeDecides(TrivialSemantics(), voids, f.body, ArgEnv(f.proto.params, args), 0);
    EntryScope(f.proto.params, args);
  }

  lemma OtherBodiesKept(f: Definition, i: nat, st: State, j: nat)
    requires Fits(st.symbols, f) && Find(st.symbols, f.proto.name) == Some(i)
    requires LowerFunction(f, st).ok && j < |st.symbols| && j != i
    ensures LowerFunction(f, st).state.symbols[j] == st.symbols[j]
  {
    SymbolsGrow(f.body, EntryState(f, st.symbols[i], st));
  }

  /** The state between two definitions. */
  ghost predicate Progress(fs: seq<Definition>, count: nat, st: State, voids: set<string>, now: State)
    requires count <= |fs|
  {
    && now.scopes == []
    && Declares(now.symbols, voids)
    && SameSignatures(st.symbols, now.symbols)
    && BodiesOf(fs, count, st, now)
  }

  predicate IsNew(fs: seq<Definition>, k: nat)
    requires k < |fs|
  {
    forall e :: 0 <= e < k ==> fs[e].proto.name != fs[k].proto.name
  }

  /** What lowering a definition appends are declarations. */
  lemma NewSymbolsAreEmpty(f: Definition, i: nat, st: State, j: nat)
    requires Fits(st.symbols, f) && Find(st.symbols, f.proto.name) == Some(i) && j != i
    requires LowerFunction(f, st).ok && j < |LowerFunction(f, st).state.symbols|
    requires j < |st.symbols| ==> st.symbols[j].body.None?
    ensures LowerFunction(f, st).state.symbols[j].body.None?
  {
    SymbolsGrow(f.body, EntryState(f, st.symbols[i], st));
  }

  lemma BodyMeansDefined(fs: seq<Definition>, k: nat, st: State, voids: set<string>, now: State, i: nat)
    requires k < |fs| && Ready(fs, st, voids) && Progress(fs, k, st, voids, now)
    requires Find(st.symbols, fs[k].proto.name) == Some(i)
    ensures Find(now.symbols, fs[k].proto.name) == Some(i) && Fits(now.symbols, fs[k])
    ensures now.symbols[i].arity == st.symbols[i].arity
    ensures now.symbols[i].body.None? <==> IsNew(fs, k)
  {
    hide Declares;
    FitsKept(st.symbols, now.symbols, fs[k]);
    assert now.symbols[i].(body := st.symbols[i].body) == st.symbols[i];
    forall e | 0 <= e < k
      ensures fs[e].proto.name == fs[k].proto.name <==> Find(st.symbols, fs[e].proto.name) == Some(i)
    {
    }
  }

  lemma BodiesGrow(fs: seq<Definition>, k: nat, st: State, now: State, next: State, i: nat)
    requires k < |fs| && BodiesOf(fs, k, st, now) && Find(st.symbols, fs[k].proto.name) == Some(i)
    requires |now.symbols| <= |next.symbols| && next.symbols[i].body.Some?
    requires forall j :: 0 <= j < |st.symbols| && j != i ==> next.symbols[j] == now.symbols[j]
    requires forall j :: |st.symbols| <= j < |next.symbols| ==> next.symbols[j].body.None?
    ensures BodiesOf(fs, k + 1, st, next)
  {
    forall j | 0 <= j < |st.symbols|
      ensures next.symbols[j].body.Some? <==> exists e :: 0 <= e < k + 1 && Find(st.symbols, fs[e].proto.name) == Some(j)
    {
      if j != i && next.symbols[j].body.Some? {
        var e :| 0 <= e < k && Find(st.symbols, fs[e].proto.name) == Some(j);
        assert 0 <= e < k + 1;
      }
    }
  }

  lemma FunctionStep(fs: seq<Definition>, k: nat, st: State, voids: set<string>, now: State)
    requires k < |fs| && Ready(fs, st, voids) && Progress(fs, k, st, voids, now)
    ensures Fits(now.symbols, fs[k])
    ensures LowerFunction(fs[k], now).ok <==> IsNew(fs, k) && InScope(st.symbols, voids, fs[k])
    ensures LowerFunction(fs[k], now).ok ==> Progress(fs, k + 1, st, voids, LowerFunction(fs[k], now).state)
  {
    hide Declares;
    var f, i := fs[k], Find(st.symbols, fs[k].proto.name).value;
    BodyMeansDefined(fs, k, st, voids, now, i);
    if IsNew(fs, k) {
      FunctionLowersExactly(voids, f, i, now);
      hide InScope, Fits;
      if LowerFunction(f, now).ok {
        var next := LowerFunction(f, now).state;
        forall j | 0 <= j < |st.symbols| && j != i
          ensures next.symbols[j] == now.symbols[j]
        {
          OtherBodiesKept(f, i, now, j);
        }
        forall j | |st.symbols| <= j < |next.symbols|
          ensures next.symbols[j].body.None?
        {
          NewSymbolsAreEmpty(f, i, now, j);
        }
        hide LowerFunction;
        BodiesGrow(fs, k, st, now, next, i);
        SignaturesChain(st.symbols, now.symbols, next.symbols);
      }
    }
  }

  lemma SignaturesChain(a: seq<FuncOp>, b: seq<FuncOp>, c: seq<FuncOp>)
    requires SameSignatures(a, b) && SameSignatures(b, c)
    ensures SameSignatures(a, c)
  {
    forall i | 0 <= i < |a|
      ensures c[i].(body := a[i].body) == a[i]
    {
      assert b[i].(body := a[i].body) == a[i] && c[i].(body := b[i].body) == b[i];
    }
  }

  /** The k-th definition is the first of its name and its body obeys the scope rule. */
  predicate Accepted(fs: seq<Definition>, k: nat, symbols: seq<FuncOp>, voids: set<string>)
    requires k < |fs|
  {
    IsNew(fs, k) && Fits(symbols, fs[k]) && InScope(symbols, voids, fs[k])
  }

  lemma NothingLowered(fs: seq<Definition>, st: State, voids: set<string>)
    requires Ready(fs, st, voids)
    ensures LowerFunctions(fs, 0, st) == LoweredFunction(true, st) && Progress(fs, 0, st, voids, st)
  {
    hide Declares;
  }

  lemma OneMoreLowered(fs: seq<Definition>, k: nat, st: State, voids: set<string>)
    requires k < |fs| && Ready(fs, st, voids)
    requires LowerFunctions(fs, k, st).ok ==> Progress(fs, k, st, voids, LowerFunctions(fs, k, st).state)
    ensures LowerFunctions(fs, k + 1, st).ok <==> LowerFunctions(fs, k, st).ok && Accepted(fs, k, st.symbols, voids)
    ensures LowerFunctions(fs, k + 1, st).ok ==> Progress(fs, k + 1, st, voids, LowerFunctions(fs, k + 1, st).state)
  {
    hide Declares, InScope, LowerFunction, IsNew;
    if LowerFunctions(fs, k, st).ok {
      FunctionStep(fs, k, st, voids, LowerFunctions(fs, k, st).state);
    }
  }

  ghost predicate AllAccepted(fs: seq<Definition>, count: nat, symbols: seq<FuncOp>, voids: set<string>)
    requires count <= |fs|
  {
    forall k :: 0 <= k < count ==> Accepted(fs, k, symbols, voids)
  }

  lemma AcceptOneMore(fs: seq<Definition>, k: nat, symbols: seq<FuncOp>, voids: set<string>)
    requires k < |fs|
    ensures AllAccepted(fs, k + 1, symbols, voids) <==> AllAccepted(fs, k, symbols, voids) && Accepted(fs, k, symbols, voids)
    ensures AllAccepted(fs, 0, symbols, voids)
  {
    hide Accepted;
  }

  lemma NoneAccepted(fs: seq<Definition>, symbols: seq<FuncOp>, voids: set<string>)
    ensures AllAccepted(fs, 0, symbols, voids)
  {
  }

  /** The definitions lower exactly when no name is defined twice and every body obeys the scope rule. */
  lemma {:induction false} FunctionsLowerExactly(fs: seq<Definition>, count: nat, st: State, voids: set<string>)
    requires count <= |fs| && Ready(fs, st, voids)
    ensures LowerFunctions(fs, count, st).ok <==> AllAccepted(fs, count, st.symbols, voids)
    ensures LowerFunctions(fs, count, st).ok ==> Progress(fs, count, st, voids, LowerFunctions(fs, count, st).state)
  {
    hide *;
    if count == 0 {
      NothingLowered(fs, st, voids);
      NoneAccepted(fs, st.symbols, voids);
    } else {
      FunctionsLowerExactly(fs, count - 1, st, voids);
      OneMoreLowered(fs, count - 1, st, voids);
      AcceptOneMore(fs, count - 1, st.symbols, voids);
    }
  }

  // ----- Whole programs

  /** The declared functions that return nothing. */
  function Voids(symbols: seq<FuncOp>): set<string> {
    set i | 0 <= i < |symbols| && !symbols[i].hasResult && Find(symbols, symbols[i].name) == Some(i) :: symbols[i].name
  }

  ghost predicate OnlyDeclared(symbols: seq<FuncOp>) {
    && (forall j :: 0 <= j < |symbols| ==> symbols[j].body.None?)
    && (Find(symbols, "pow").Some? ==> symbols[Find(symbols, "pow").value].hasResult)
  }

  lemma DeclareOnlyDeclares(symbols: seq<FuncOp>, name: string, arity: nat)
    requires OnlyDeclared(symbols)
    ensures var after := Declare(symbols, name, arity).1;
            && OnlyDeclared(after)
            && Find(after, name).Some?
            && (Find(symbols, "pow").Some? ==> Find(after, "pow").Some?)
  {
    if Find(symbols, name).None? {
      var extra := FuncOp(name, arity, true, None);
      FindFromAppended(symbols, extra, name, 0);
      FindFromAppended(symbols, extra, "pow", 0);
    }
  }

  lemma {:induction false} BuiltinsDeclarePow(count: nat)
    requires count <= |BUILTINS|
    ensures OnlyDeclared(DeclareBuiltins([], count))
    ensures count >= 16 ==> Find(DeclareBuiltins([], count), "pow").Some?
  {
    hide OnlyDeclared, Find, Declare;
    if count == 0 {
      NothingDeclared();
    } else {
      BuiltinsDeclarePow(count - 1);
      var before, b := DeclareBuiltins([], count - 1), BUILTINS[count - 1];
      DeclareOnlyDeclares(before, b.0, b.1);
      assert count == 16 ==> b.0 == "pow";
    }
  }

  lemma NothingDeclared()
    ensures OnlyDeclared([])
  {
  }

  lemma {:induction false} PrototypesOnlyDeclare(protos: seq<Prototype>, count: nat, symbols: seq<FuncOp>)
    requires count <= |protos| && DeclareAll(protos, count, symbols).Some?
    requires OnlyDeclared(symbols) && Find(symbols, "pow").Some?
    ensures var after := DeclareAll(protos, count, symbols).value;
            OnlyDeclared(after) && Find(after, "pow").Some?
  {
    if count > 0 {
      PrototypesOnlyDeclare(protos, count - 1, symbols);
      var before, proto := DeclareAll(protos, count - 1, symbols).value, protos[count - 1];
      if Find(before, proto.name).None? {
        var extra := FuncOp(proto.name, |proto.params|, proto.result == DoubleType, None);
        FindFromAppended(before, extra, "pow", 0);
      }
    }
  }

  lemma VoidsAreDeclared(symbols: seq<FuncOp>)
    requires OnlyDeclared(symbols) && Find(symbols, "pow").Some?
    ensures Declares(symbols, Voids(symbols))
  {
    forall f
      ensures f in Voids(symbols) <==> Find(symbols, f).Some? && !symbols[Find(symbols, f).value].hasResult
    {
      if Find(symbols, f).Some? && !symbols[Find(symbols, f).value].hasResult {
        var i := Find(symbols, f).value;
        assert symbols[i].name == f;
      }
    }
  }

  lemma ProgramIsReady(p: Program)
    requires WellPrototyped(p) && Declarations(p).Some?
    ensures var symbols := Declarations(p).value;
            Ready(p.functions, EMPTY_STATE.(symbols := symbols), Voids(symbols))
  {
    var symbols := Declarations(p).value;
    BuiltinsDeclarePow(|BUILTINS|);
    PrototypesOnlyDeclare(Prototypes(p), |Prototypes(p)|, DeclareBuiltins([], |BUILTINS|));
    VoidsAreDeclared(symbols);
    EachIsDeclared(p);
  }

  /** Everything can be declared, and every definition is accepted. */
  ghost predicate IsAcceptable(p: Program) {
    && Declarations(p).Some?
    && AllAccepted(p.functions, |p.functions|, Declarations(p).value, Voids(Declarations(p).value))
  }

  /** The pass succeeds on exactly the acceptable programs. */
  lemma ModuleIsAccepted(p: Program)
    requires WellPrototyped(p)
    ensures LowerModule(p).Some? <==> IsAcceptable(p)
  {
    if Declarations(p).Some? {
      hide Declarations, Ready, AllAccepted, Progress;
      ProgramIsReady(p);
      var symbols := Declarations(p).value;
      EachIsDeclared(p);
      FunctionsLowerExactly(p.functions, |p.functions|, EMPTY_STATE.(symbols := symbols), Voids(symbols));
    }
  }

  lemma {:induction false} DeclaredExactly(protos: seq<Prototype>, count: nat, symbols: seq<FuncOp>, name: string)
    requires count <= |protos| && DeclareAll(protos, count, symbols).Some?
    ensures Find(DeclareAll(protos, count, symbols).value, name).Some? <==>
              Find(symbols, name).Some? || exists i :: 0 <= i < count && protos[i].name == name
  {
    if count > 0 {
      var before, proto := DeclareAll(protos, count - 1, symbols).value, protos[count - 1];
      DeclaredExactly(protos, count - 1, symbols, name);
      if Find(before, proto.name).None? {
        FindFromAppended(before, FuncOp(proto.name, |proto.params|, proto.result == DoubleType, None), name, 0);
      }
      assert (exists i :: 0 <= i < count && protos[i].name == name) <==>
             (exists i :: 0 <= i < count - 1 && protos[i].name == name) || proto.name == name;
    }
  }

  /** The first prototype of its name, with an argument of no type. */
  predicate IsRefused(protos: seq<Prototype>, k: nat, symbols: seq<FuncOp>)
    requires k < |protos|
  {
    HasVoidParam(protos[k]) && Find(symbols, protos[k].name).None?
    && forall j :: 0 <= j < k ==> protos[j].name != protos[k].name
  }

  /** Declaring fails exactly when some first prototype takes an argument of no type. */
  lemma {:induction false} DeclarationsFailExactly(protos: seq<Prototype>, count: nat, symbols: seq<FuncOp>)
    requires count <= |protos|
    ensures DeclareAll(protos, count, symbols).None? <==> exists k :: 0 <= k < count && IsRefused(protos, k, symbols)
  {
    if count > 0 {
      DeclarationsFailExactly(protos, count - 1, symbols);
      if DeclareAll(protos, count - 1, symbols).Some? {
        DeclaredExactly(protos, count - 1, symbols, protos[count - 1].name);
        hide Find, HasVoidParam;
        assert DeclareAll(protos, count, symbols).None? <==> IsRefused(protos, count - 1, symbols);
      }
    }
  }

  // ----- Every body of a lowered program computes its definition

  /** The body of symbol i returns what evaluating the definition gives. */
  ghost predicate Means<W>(decl: FuncOp, now: FuncOp, f: Definition, voids: set<string>,
                           s: Semantics<W>, args: seq<Double>, w: W)
  {
    && |args| <= |f.proto.params|
    && var v := Eval(s, voids, f.body, ArgEnv(f.proto.params, args), w);
    && v.Some?
    && now.body.Some?
    && RunBody(s, now.body.value, args, w)
       == Some((if decl.hasResult then Some(v.value.value) else None, v.value.world))
  }

  lemma LastFunctionMeans<W>(fs: seq<Definition>, k: nat, st: State, voids: set<string>, now: State, i: nat,
                             s: Semantics<W>, args: seq<Double>, w: W)
    requires !s.unequal
    requires k < |fs| && Ready(fs, st, voids) && Progress(fs, k, st, voids, now)
    requires Fits(now.symbols, fs[k]) && LowerFunction(fs[k], now).ok
    requires Find(st.symbols, fs[k].proto.name) == Some(i) && |args| == st.symbols[i].arity
    ensures i < |LowerFunction(fs[k], now).state.symbols|
    ensures Means(st.symbols[i], LowerFunction(fs[k], now).state.symbols[i], fs[k], voids, s, args, w)
  {
    hide Declares, RunBody;
    BodyMeansDefined(fs, k, st, voids, now, i);
    assert now.symbols[i].(body := st.symbols[i].body) == st.symbols[i];
    FunctionAgrees(s, voids, fs[k], i, now, args, w);
  }

  lemma EarlierBodyStays(fs: seq<Definition>, n: nat, st: State, voids: set<string>, now: State, k: nat, i: nat)
    requires k < n < |fs| && Ready(fs, st, voids) && Progress(fs, n, st, voids, now)
    requires Fits(now.symbols, fs[n]) && LowerFunction(fs[n], now).ok
    requires Find(st.symbols, fs[k].proto.name) == Some(i)
    ensures i < |now.symbols| && i < |LowerFunction(fs[n], now).state.symbols|
    ensures LowerFunction(fs[n], now).state.symbols[i] == now.symbols[i]
  {
    hide Declares;
    FunctionStep(fs, n, st, voids, now);
    var j := Find(st.symbols, fs[n].proto.name).value;
    BodyMeansDefined(fs, n, st, voids, now, j);
    assert fs[k].proto.name != fs[n].proto.name;
    hide LowerFunction;
    OtherBodiesKept(fs[n], j, now, i);
  }

  lemma LastStep(fs: seq<Definition>, k: nat, st: State, voids: set<string>)
    requires k < |fs| && Ready(fs, st, voids) && LowerFunctions(fs, k + 1, st).ok
    ensures var now := LowerFunctions(fs, k, st).state;
            && LowerFunctions(fs, k, st).ok
            && Progress(fs, k, st, voids, now)
            && Fits(now.symbols, fs[k])
            && LowerFunction(fs[k], now) == LowerFunctions(fs, k + 1, st)
  {
    hide Progress, LowerFunction, InScope, Declares;
    FunctionsLowerExactly(fs, k, st, voids);
    FunctionStep(fs, k, st, voids, LowerFunctions(fs, k, st).state);
  }

  lemma {:induction false} FunctionsMean<W>(fs: seq<Definition>, count: nat, st: State, voids: set<string>, k: nat, i: nat,
                                            s: Semantics<W>, args: seq<Double>, w: W)
    requires !s.unequal
    requires k < count <= |fs| && Ready(fs, st, voids) && LowerFunctions(fs, count, st).ok
    requires Find(st.symbols, fs[k].proto.name) == Some(i) && |args| == st.symbols[i].arity
    ensures i < |LowerFunctions(fs, count, st).state.symbols|
    ensures Means(st.symbols[i], LowerFunctions(fs, count, st).state.symbols[i], fs[k], voids, s, args, w)
  {
    hide Progress, Means, LowerFunction, LowerFunctions, Declares;
    LastStep(fs, count - 1, st, voids);
    var now := LowerFunctions(fs, count - 1, st).state;
    if k == count - 1 {
      LastFunctionMeans(fs, k, st, voids, now, i, s, args, w);
    } else {
      FunctionsMean(fs, count - 1, st, voids, k, i, s, args, w);
      EarlierBodyStays(fs, count - 1, st, voids, now, k, i);
    }
  }

  /**
    * In a lowered program the body of every definition returns, for every argument list, every meaning of the
    * arithmetic and of the calls and every world, what evaluating the definition's expression gives.
    */
  lemma ModuleMeans<W>(p: Program, k: nat, i: nat, s: Semantics<W>, args: seq<Double>, w: W)
    requires !s.unequal
    requires WellPrototyped(p) && LowerModule(p).Some? && k < |p.functions|
    requires Find(Declarations(p).value, p.functions[k].proto.name) == Some(i)
    requires |args| == Declarations(p).value[i].arity
    ensures i < |LowerModule(p).value|
    ensures Means(Declarations(p).value[i], LowerModule(p).value[i], p.functions[k], Voids(Declarations(p).value), s, args, w)
  {
    hide Declarations, Ready, Means, LowerFunctions;
    ProgramIsReady(p);
    EachIsDeclared(p);
    var symbols := Declarations(p).value;
    FunctionsMean(p.functions, |p.functions|, EMPTY_STATE.(symbols := symbols), Voids(symbols), k, i, s, args, w);
  }

  // ----- Every body of a lowered program is well-formed

  ghost predicate HealthyModule(symbols: seq<FuncOp>) {
    && DistinctNames(symbols)
    && Find(symbols, "pow").Some?
    && forall j :: 0 <= j < |symbols| && symbols[j].body.Some? ==>
         && WellFormed(symbols[j].body.value.ops, symbols[j].body.value.params, symbols)
         && ReturnsDefined(symbols[j])
  }

  /** The body takes the declared arguments, and returns a value it has defined exactly when a result is declared. */
  predicate ReturnsDefined(f: FuncOp)
    requires f.body.Some?
  {
    var b := f.body.value;
    && b.params == f.arity
    && (f.hasResult <==> b.returned.Some?)
    && (b.returned.Some? ==> b.returned.value < b.params + |b.ops|)
  }

  lemma WellFormedGrows(ops: seq<Op>, params: nat, before: seq<FuncOp>, after: seq<FuncOp>)
    requires WellFormed(ops, params, before) && SameSignatures(before, after)
    ensures WellFormed(ops, params, after)
  {
    forall i | 0 <= i < |ops|
      ensures DefinedBefore(ops[i], params + i) && (ops[i].CallOp? ==> Find(after, ops[i].callee).Some?)
    {
      if ops[i].CallOp? {
        FindKept(before, after, ops[i].callee);
      }
    }
  }

  lemma {:induction false} ParamsAreBelow(params: seq<Param>, arity: nat)
    requires arity <= |params|
    ensures forall x :: x in ParamScope(params, arity) ==> ParamScope(params, arity)[x] < arity
  {
    if arity > 0 {
      ParamsAreBelow(params, arity - 1);
    }
  }

  lemma EntryIsHealthy(f: Definition, decl: FuncOp, st: State)
    requires decl.arity <= |f.proto.params| && st.scopes == [] && DistinctNames(st.symbols) && Find(st.symbols, "pow").Some?
    ensures Healthy(EntryState(f, decl, st))
  {
    ParamsAreBelow(f.proto.params, decl.arity);
  }

  lemma OldBodyIsHealthy(before: seq<FuncOp>, grown: seq<FuncOp>, after: seq<FuncOp>, i: nat, j: nat)
    requires HealthyModule(before) && SameSignatures(before, after) && Grown(before, grown)
    requires |after| == |grown| && j < |after| && after[j].body.Some? && after[j] == grown[j]
    ensures WellFormed(after[j].body.value.ops, after[j].body.value.params, after) && ReturnsDefined(after[j])
  {
    assert after[j] == before[j];
    WellFormedGrows(before[j].body.value.ops, before[j].body.value.params, before, after);
  }

  lemma FunctionIsHealthy(f: Definition, st: State)
    requires Fits(st.symbols, f) && st.scopes == [] && HealthyModule(st.symbols) && LowerFunction(f, st).ok
    ensures HealthyModule(LowerFunction(f, st).state.symbols)
  {
    var i := Find(st.symbols, f.proto.name).value;
    var decl := st.symbols[i];
    var entry := EntryState(f, decl, st);
    EntryIsHealthy(f, decl, st);
    LoweringIsHealthy(f.body, entry);
    ScopesAreKept(f.body, entry);
    SymbolsGrow(f.body, entry);
    var r := LowerExpr(f.body, entry);
    BodyIsHealthy(st.symbols, r.state.symbols, i, Body(decl.arity, r.state.ops, if decl.hasResult then r.value else None));
  }

  lemma BodyIsHealthy(before: seq<FuncOp>, grown: seq<FuncOp>, i: nat, body: Body)
    requires HealthyModule(before) && Grown(before, grown) && DistinctNames(grown) && i < |before|
    requires WellFormed(body.ops, body.params, grown) && ReturnsDefined(before[i].(body := Some(body)))
    ensures HealthyModule(grown[i := before[i].(body := Some(body))])
  {
    var after := grown[i := before[i].(body := Some(body))];
    WellFormedGrows(body.ops, body.params, grown, after);
    FindKept(before, after, "pow");
    forall j | 0 <= j < |after| && after[j].body.Some?
      ensures WellFormed(after[j].body.value.ops, after[j].body.value.params, after) && ReturnsDefined(after[j])
    {
      if j != i {
        OldBodyIsHealthy(before, grown, after, i, j);
      }
    }
  }

  lemma {:induction false} FunctionsAreHealthy(fs: seq<Definition>, count: nat, st: State, voids: set<string>)
    requires count <= |fs| && Ready(fs, st, voids) && LowerFunctions(fs, count, st).ok && HealthyModule(st.symbols)
    ensures HealthyModule(LowerFunctions(fs, count, st).state.symbols)
  {
    hide HealthyModule, LowerFunction, InScope;
    if count > 0 {
      FunctionsAreHealthy(fs, count - 1, st, voids);
      FunctionsLowerExactly(fs, count - 1, st, voids);
      FunctionStep(fs, count - 1, st, voids, LowerFunctions(fs, count - 1, st).state);
      FunctionIsHealthy(fs[count - 1], LowerFunctions(fs, count - 1, st).state);
    }
  }

  lemma DistinctWhenNew(symbols: seq<FuncOp>, extra: FuncOp)
    requires DistinctNames(symbols) && Find(symbols, extra.name).None?
    ensures DistinctNames(symbols + [extra])
  {
  }

  lemma {:induction false} BuiltinsAreDistinct(count: nat)
    requires count <= |BUILTINS|
    ensures DistinctNames(DeclareBuiltins([], count))
  {
    if count > 0 {
      BuiltinsAreDistinct(count - 1);
      var before, b := DeclareBuiltins([], count - 1), BUILTINS[count - 1];
      if Find(before, b.0).None? {
        DistinctWhenNew(before, FuncOp(b.0, b.1, true, None));
      }
    }
  }

  lemma {:induction false} DeclarationsAreDistinct(protos: seq<Prototype>, count: nat, symbols: seq<FuncOp>)
    requires count <= |protos| && DeclareAll(protos, count, symbols).Some? && DistinctNames(symbols)
    ensures DistinctNames(DeclareAll(protos, count, symbols).value)
  {
    if count > 0 {
      DeclarationsAreDistinct(protos, count - 1, symbols);
      var before, proto := DeclareAll(protos, count - 1, symbols).value, protos[count - 1];
      if Find(before, proto.name).None? {
        DistinctWhenNew(before, FuncOp(proto.name, |proto.params|, proto.result == DoubleType, None));
      }
    }
  }

  /** In a lowered program every symbol is declared once, every operand is defined before it is used and every callee is declared. */
  lemma ModuleIsHealthy(p: Program)
    requires WellPrototyped(p) && LowerModule(p).Some?
    ensures HealthyModule(LowerModule(p).value)
  {
    var symbols := Declarations(p).value;
    hide LowerFunctions;
    ProgramIsReady(p);
    EachIsDeclared(p);
    BuiltinsAreDistinct(|BUILTINS|);
    DeclarationsAreDistinct(Prototypes(p), |Prototypes(p)|, DeclareBuiltins([], |BUILTINS|));
    FunctionsAreHealthy(p.functions, |p.functions|, EMPTY_STATE.(symbols := symbols), Voids(symbols));
  }
}
