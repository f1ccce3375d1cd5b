/** The error the pass reports is the first one that checking the program finds. */
module DiagnosticLaws {
  import opened FluxAst
  import opened Options
  import opened Signatures
  import opened SignatureLaws
  import opened Ssa
  import opened Lowering
  import opened LoweringLaws
  import opened ModuleLaws
  import opened Diagnostics

  // ----- Expressions

  /** The scopes bind exactly these names, and the symbols have exactly these functions without result. */
  ghost predicate Tracks(st: State, voids: set<string>, bound: set<string>) {
    && st.scopes != []
    && Declares(st.symbols, voids)
    && forall x :: x in bound <==> Lookup(st.scopes, x).Some?
  }

  /** Lowering from a state with this error has come out as the finding says. */
  ghost predicate IsFound(ok: bool, after: State, error: Option<LowerError>, voids: set<string>, c: Finding) {
    && (ok <==> c.ok)
    && (ok ==> c.error.None?)
    && after.error == Earlier(error, c.error)
    && Tracks(after, voids, c.bound)
  }

  lemma BindTracks(st: State, voids: set<string>, bound: set<string>, x: string, id: nat)
    requires Tracks(st, voids, bound)
    ensures Tracks(st.Bind(x, id), voids, bound + {x})
  {
    forall y
      ensures Lookup(st.Bind(x, id).scopes, y) == if y == x then Some(id) else Lookup(st.scopes, y)
    {
      LookupBound(st, x, id, y);
    }
  }

  lemma PushTracks(st: State, voids: set<string>, bound: set<string>)
    requires Tracks(st, voids, bound)
    ensures Tracks(st.Push(), voids, bound)
  {
    forall x
      ensures Lookup(st.Push().scopes, x) == Lookup(st.scopes, x)
    {
      LookupPushed(st.scopes, x);
    }
  }

  lemma PopTracks(outer: State, voids: set<string>, bound: set<string>, inner: State, within: set<string>)
    requires Tracks(outer, voids, bound) && Tracks(inner, voids, within)
    requires Framed(outer.Push(), inner)
    ensures Tracks(inner.Pop(), voids, bound)
  {
    PopUndoesPush(outer, inner);
  }

  lemma OperatorIsFound(op: BinaryOp, l: nat, r: nat, st: State, voids: set<string>, bound: set<string>)
    requires Tracks(st, voids, bound)
    ensures IsFound(LowerOperator(op, l, r, st).value.Some?, LowerOperator(op, l, r, st).state, st.error, voids,
                    if op.OtherBinary? then Refused(bound, UnsupportedBinary) else Finding(true, bound, None))
  {
  }

  /** The innermost scope may have changed below the pushed one; what is left behind is the scopes below. */
  lemma BodyIsFound(outer: State, q: Lowered, error: Option<LowerError>, voids: set<string>, bound: set<string>, c: Finding)
    requires Tracks(outer, voids, bound) && IsFound(q.value.Some?, q.state, error, voids, c)
    requires Framed(outer.Push(), q.state)
    ensures IsFound(q.value.Some?, q.state.Pop(), error, voids, c.(bound := bound))
  {
    PopTracks(outer, voids, bound, q.state, c.bound);
    hide Tracks;
  }

  lemma CallIsFound(f: string, arity: nat, values: seq<nat>, st: State, voids: set<string>, bound: set<string>)
    requires Tracks(st, voids, bound)
    ensures var (i, symbols) := Declare(st.symbols, f, arity);
            var r := EmitCall(symbols[i], values, st.(symbols := symbols));
            IsFound(r.value.Some?, r.state, st.error, voids, Called(voids, f, bound))
  {
    DeclareKeeps(st.symbols, voids, f, arity);
    hide Declares, Declare;
  }

  /** Whatever the state: the value, the bound names and the error are those of the check, an earlier error first. */
  lemma {:induction false} ErrorIsFirst(voids: set<string>, e: Expr, st: State, bound: set<string>)
    requires Tracks(st, voids, bound)
    ensures IsFound(LowerExpr(e, st).value.Some?, LowerExpr(e, st).state, st.error, voids, Check(voids, e, bound))
    decreases e, 1, 0
  {
    hide Tracks;
    match e
    case Number(_) => LeafIsFound(voids, e, st, bound);
    case Variable(_) => LeafIsFound(voids, e, st, bound);
    case Unsupported => LeafIsFound(voids, e, st, bound);
    case Unary(op, a) =>
      ErrorIsFirst(voids, a, st, bound);
      UnaryIsFound(voids, op, a, st, bound);
    case Binary(op, a, b) =>
      ErrorIsFirst(voids, a, st, bound);
      ErrorIsFirst(voids, b, LowerExpr(a, st).state, Check(voids, a, bound).bound);
      BinaryIsFound(voids, op, a, b, st, bound);
    case Call(f, args) =>
      ArgsErrorIsFirst(voids, args, |args|, st, bound);
      var r := LowerArgs(args, |args|, st);
      if r.values.Some? {
        CallIsFound(f, |args|, r.values.value, r.state, voids, CheckAll(voids, args, |args|, bound).bound);
        hide Declare, EmitCall;
      }
    case Let(x, a) =>
      ErrorIsFirst(voids, a, st, bound);
      var r := LowerExpr(a, st);
      if r.value.Some? {
        BindTracks(r.state, voids, Check(voids, a, bound).bound, x, r.value.value);
      }
    case LetIn(x, a, b) =>
      ErrorIsFirst(voids, a, st, bound);
      var r, c := LowerExpr(a, st), Check(voids, a, bound);
      if r.value.Some? {
        var inner := r.state.Push().Bind(x, r.value.value);
        PushTracks(r.state, voids, c.bound);
        BindTracks(r.state.Push(), voids, c.bound, x, r.value.value);
        ErrorIsFirst(voids, b, inner, c.bound + {x});
        ScopesAreKept(b, inner);
        BodyIsFound(r.state, LowerExpr(b, inner), r.state.error, voids, c.bound, Check(voids, b, c.bound + {x}));
      }
    case Block(es) =>
      PushTracks(st, voids, bound);
      StatementsErrorIsFirst(voids, es, |es|, st.Push(), bound);
      ScopesAreKeptStatements(es, |es|, st.Push());
      BodyIsFound(st, LowerStatements(es, |es|, st.Push()), st.error, voids, bound, CheckAll(voids, es, |es|, bound));
  }

  lemma LeafIsFound(voids: set<string>, e: Expr, st: State, bound: set<string>)
    requires Tracks(st, voids, bound) && (e.Number? || e.Variable? || e.Unsupported?)
    ensures IsFound(LowerExpr(e, st).value.Some?, LowerExpr(e, st).state, st.error, voids, Check(voids, e, bound))
  {
  }

  lemma UnaryIsFound(voids: set<string>, op: UnaryOp, a: Expr, st: State, bound: set<string>)
    requires IsFound(LowerExpr(a, st).value.Some?, LowerExpr(a, st).state, st.error, voids, Check(voids, a, bound))
    ensures IsFound(LowerExpr(Unary(op, a), st).value.Some?, LowerExpr(Unary(op, a), st).state, st.error, voids,
                    Check(voids, Unary(op, a), bound))
  {
    hide Declares;
  }

  lemma BinaryIsFound(voids: set<string>, op: BinaryOp, a: Expr, b: Expr, st: State, bound: set<string>)
    requires var l, c := LowerExpr(a, st), Check(voids, a, bound);
             && IsFound(l.value.Some?, l.state, st.error, voids, c)
             && IsFound(LowerExpr(b, l.state).value.Some?, LowerExpr(b, l.state).state, l.state.error, voids,
                        Check(voids, b, c.bound))
    ensures IsFound(LowerExpr(Binary(op, a, b), st).value.Some?, LowerExpr(Binary(op, a, b), st).state, st.error, voids,
                    Check(voids, Binary(op, a, b), bound))
  {
    hide Tracks, LowerOperator;
    var l, c := LowerExpr(a, st), Check(voids, a, bound);
    var r, d := LowerExpr(b, l.state), Check(voids, b, c.bound);
    if l.value.Some? && r.value.Some? {
      OperatorIsFound(op, l.value.value, r.value.value, r.state, voids, d.bound);
    }
  }

  lemma {:induction false} ArgsErrorIsFirst(voids: set<string>, es: seq<Expr>, count: nat, st: State, bound: set<string>)
    requires count <= |es| && Tracks(st, voids, bound)
    ensures IsFound(LowerArgs(es, count, st).values.Some?, LowerArgs(es, count, st).state, st.error, voids,
                    CheckAll(voids, es, count, bound))
    decreases es, 0, count
  {
    hide Tracks;
    if count > 0 {
      ArgsErrorIsFirst(voids, es, count - 1, st, bound);
      var r, c := LowerArgs(es, count - 1, st), CheckAll(voids, es, count - 1, bound);
      if c.ok {
        ErrorIsFirst(voids, es[count - 1], r.state, c.bound);
      }
    }
  }

  lemma {:induction false} StatementsErrorIsFirst(voids: set<string>, es: seq<Expr>, count: nat, st: State, bound: set<string>)
    requires count <= |es| && Tracks(st, voids, bound)
    ensures IsFound(LowerStatements(es, count, st).value.Some?, LowerStatements(es, count, st).state, st.error, voids,
                    CheckAll(voids, es, count, bound))
    decreases es, 0, count
  {
    if count > 0 {
      hide Tracks;
      StatementsErrorIsFirst(voids, es, count - 1, st, bound);
      var r, c := LowerStatements(es, count - 1, st), CheckAll(voids, es, count - 1, bound);
      if c.ok {
        ErrorIsFirst(voids, es[count - 1], r.state, c.bound);
      }
    }
  }

  // ----- Definitions

  lemma EntryTracks(f: Definition, decl: FuncOp, st: State, voids: set<string>)
    requires decl.arity <= |f.proto.params| && st.scopes == [] && Declares(st.symbols, voids)
    ensures Tracks(EntryState(f, decl, st), voids, ParamScope(f.proto.params, decl.arity).Keys)
  {
    var top := ParamScope(f.proto.params, decl.arity);
    forall x
      ensures Lookup([top], x) == if x in top then Some(top[x]) else None
    {
      assert Lookup([top][..0], x) == None;
    }
  }

  /** A definition of a symbol without a body reports what checking its body finds. */
  lemma DefinitionErrorIsFirst(f: Definition, i: nat, st: State, voids: set<string>, names: set<string>)
    requires Fits(st.symbols, f) && Find(st.symbols, f.proto.name) == Some(i) && st.symbols[i].body.None?
    requires st.scopes == [] && Declares(st.symbols, voids)
    requires names == ParamScope(f.proto.params, st.symbols[i].arity).Keys
    ensures LowerFunction(f, st).state.error == Earlier(st.error, Check(voids, f.body, names).error)
    ensures LowerFunction(f, st).ok <==> Check(voids, f.body, names).ok
    ensures Check(voids, f.body, names).ok ==> Check(voids, f.body, names).error.None?
  {
    var entry := EntryState(f, st.symbols[i], st);
    EntryTracks(f, st.symbols[i], st, voids);
    ErrorIsFirst(voids, f.body, entry, names);
    hide Declares;
  }

  lemma NamesOfArguments(p: Program, k: nat, i: nat)
    requires Declarations(p).Some? && NamesArguments(p) && k < |p.functions|
    requires Find(Declarations(p).value, p.functions[k].proto.name) == Some(i)
    ensures Declarations(p).value[i].arity <= |p.functions[k].proto.params|
    ensures ParamScope(p.functions[k].proto.params, Declarations(p).value[i].arity).Keys == ArgumentNames(p, p.functions[k])
  {
    var symbols, f := Declarations(p).value, p.functions[k];
    SymbolsSayTheSame(p);
    hide Declarations, ArityOf;
    assert ModuleLaws.Arity(symbols, f.proto.name) == ArityOf(p, f.proto.name);
    ScopeNames(f.proto.params, ArityOf(p, f.proto.name));
  }

  lemma DefinitionReports(p: Program, k: nat, now: State)
    requires Declarations(p).Some? && NamesArguments(p) && k < |p.functions| && now.error.None?
    requires var symbols := Declarations(p).value;
             && Ready(p.functions, EMPTY_STATE.(symbols := symbols), VoidNames(p))
             && Progress(p.functions, k, EMPTY_STATE.(symbols := symbols), VoidNames(p), now)
    ensures Fits(now.symbols, p.functions[k])
    ensures LowerFunction(p.functions[k], now).state.error == CheckDefinition(p, k).error
    ensures LowerFunction(p.functions[k], now).ok <==> CheckDefinition(p, k).ok
    ensures CheckDefinition(p, k).ok ==> CheckDefinition(p, k).error.None?
  {
    var symbols, f := Declarations(p).value, p.functions[k];
    var st := EMPTY_STATE.(symbols := symbols);
    var i := Find(symbols, f.proto.name).value;
    hide Declares, Declarations, NamesArguments, ArgumentNames, VoidNames, BodiesOf, SameSignatures;
    BodyMeansDefined(p.functions, k, st, VoidNames(p), now, i);
    if IsFirstDefinition(p, k) {
      NamesOfArguments(p, k, i);
      DefinitionErrorIsFirst(f, i, now, VoidNames(p), ArgumentNames(p, f));
    }
  }

  /** The state before any definition. */
  function Declared(p: Program): State
    requires Declarations(p).Some?
  {
    EMPTY_STATE.(symbols := Declarations(p).value)
  }

  /** The first `count` definitions have come out as checking them does. */
  ghost predicate AreReported(p: Program, count: nat)
    requires Declarations(p).Some? && Ready(p.functions, Declared(p), VoidNames(p)) && count <= |p.functions|
  {
    var r, c := LowerFunctions(p.functions, count, Declared(p)), CheckDefinitions(p, count);
    r.state.error == c.error && (r.ok <==> c.ok) && (r.ok ==> c.error.None?)
  }

  lemma NoneReported(p: Program)
    requires Declarations(p).Some? && Ready(p.functions, Declared(p), VoidNames(p))
    ensures AreReported(p, 0)
  {
    hide Declarations, Ready, VoidNames;
  }

  lemma OneMoreReported(p: Program, k: nat)
    requires Declarations(p).Some? && NamesArguments(p) && k < |p.functions|
    requires Ready(p.functions, Declared(p), VoidNames(p)) && AreReported(p, k)
    ensures AreReported(p, k + 1)
  {
    hide Declarations, NamesArguments, VoidNames, LowerFunction, CheckDefinition, Declares, Fits;
    var now := LowerFunctions(p.functions, k, Declared(p)).state;
    hide Ready, Progress;
    FunctionsLowerExactly(p.functions, k, Declared(p), VoidNames(p));
    if CheckDefinitions(p, k).ok {
      DefinitionReports(p, k, now);
    }
  }

  lemma {:induction false} DefinitionsReport(p: Program, count: nat)
    requires Declarations(p).Some? && NamesArguments(p) && count <= |p.functions|
    requires Ready(p.functions, Declared(p), VoidNames(p))
    ensures AreReported(p, count)
  {
    hide *;
    if count == 0 {
      NoneReported(p);
    } else {
      DefinitionsReport(p, count - 1);
      OneMoreReported(p, count - 1);
    }
  }

  // ----- Prototypes

  lemma RefusedMeans(protos: seq<Prototype>, k: nat)
    requires k < |protos|
    ensures IsRefusedAt(protos, k) <==> IsRefused(protos, k, DeclareBuiltins([], |BUILTINS|))
  {
    BuiltinsAreFound(protos[k].name);
    hide Find, DeclareBuiltins, BuiltinArity;
  }

  lemma {:induction false} PrototypesReport(protos: seq<Prototype>, count: nat)
    requires count <= |protos|
    ensures var symbols := DeclareBuiltins([], |BUILTINS|);
            && DeclareError(protos, count, symbols) == PrototypeError(protos, count)
            && (DeclareAll(protos, count, symbols).None? <==> PrototypeError(protos, count).Some?)
  {
    var symbols := DeclareBuiltins([], |BUILTINS|);
    hide DeclareBuiltins, IsRefusedAt, IsRefused, Find;
    if count > 0 {
      PrototypesReport(protos, count - 1);
      RefusedMeans(protos, count - 1);
      if DeclareAll(protos, count - 1, symbols).Some? {
        RefusedStops(protos, count - 1, symbols);
      }
    }
  }

  lemma RefusedStops(protos: seq<Prototype>, k: nat, symbols: seq<FuncOp>)
    requires k < |protos| && DeclareAll(protos, k, symbols).Some?
    ensures DeclarePrototype(DeclareAll(protos, k, symbols).value, protos[k]).None? <==> IsRefused(protos, k, symbols)
  {
    DeclaredExactly(protos, k, symbols, protos[k].name);
    hide Find, DeclareAll;
  }

  // ----- Programs

  /**
    * The pass reports the first refused prototype, else the first error of the first definition that does not lower.
    * Where that is a call of a function without result there is no error, and the failure has no message.
    */
  lemma ErrorIsReported(p: Program)
    requires WellPrototyped(p)
    ensures ModuleError(p) == Report(p)
    ensures LowerModule(p).Some? ==> Report(p).None?
  {
    var protos := Prototypes(p);
    PrototypesAre(p);
    PrototypesReport(protos, |protos|);
    WellPrototypedMeans(p);
    DeclaringFailsExactly(p);
    if Declarations(p).Some? {
      SymbolsSayTheSame(p);
      ProgramIsReady(p);
      hide Declarations, NamesArguments, VoidNames, LowerFunctions, CheckDefinitions, TakesVoid, Ready;
      DefinitionsReport(p, |p.functions|);
      EachIsDeclared(p);
    }
  }
}
