/** The pass as the class runs it: one object whose fields every step updates in place. */
module ModuleLoweringPass {
  import opened FluxAst
  import opened Options
  import opened Ssa
  import opened Lowering
  import opened LoweringLaws

  /** A failed argument stays failed. */
  lemma {:induction false} ArgsStop(args: seq<Expr>, k: nat, n: nat, st: State)
    requires k <= n <= |args| && LowerArgs(args, k, st).values.None?
    ensures LowerArgs(args, n, st) == LowerArgs(args, k, st)
  {
    if k < n {
      ArgsStop(args, k, n - 1, st);
    }
  }

  lemma {:induction false} StatementsStop(es: seq<Expr>, k: nat, n: nat, st: State)
    requires k <= n <= |es| && LowerStatements(es, k, st).value.None?
    ensures LowerStatements(es, n, st) == LowerStatements(es, k, st)
  {
    if k < n {
      StatementsStop(es, k, n - 1, st);
    }
  }

  class ModuleLowering {
    var scopes: Scopes
    var symbols: seq<FuncOp>
    var params: nat
    var ops: seq<Op>
    var error: Option<LowerError>

    constructor ()
      ensures Snapshot() == EMPTY_STATE
    {
      scopes, symbols, params, ops, error := [], [], 0, [], None;
    }

    function Snapshot(): State
      reads this
    {
      State(scopes, symbols, params, ops, error)
    }

    method SetError(e: LowerError)
      modifies this`error
      ensures Snapshot() == old(Snapshot()).SetError(e)
    {
      if error == None {
        error := Some(e);
      }
    }

    method LookupValue(name: string) returns (v: Option<nat>)
      ensures v == Lookup(scopes, name)
    {
      var i := |scopes|;
      assert scopes[..i] == scopes;
      while i > 0
        invariant 0 <= i <= |scopes|
        invariant Lookup(scopes, name) == Lookup(scopes[..i], name)
      {
        i := i - 1;
        assert scopes[..i + 1][..i] == scopes[..i];
        if name in scopes[i] {
          return Some(scopes[i][name]);
        }
      }
      return None;
    }

    method PushScope()
      modifies this`scopes
      ensures Snapshot() == old(Snapshot()).Push()
    {
      scopes := scopes + [map[]];
    }

    method PopScope()
      requires scopes != []
      modifies this`scopes
      ensures Snapshot() == old(Snapshot()).Pop()
    {
      scopes := scopes[..|scopes| - 1];
    }

    method BindValue(name: string, id: nat)
      modifies this`scopes
      ensures Snapshot() == old(Snapshot()).Bind(name, id)
    {
      if scopes != [] {
        var top: map<string, nat> := scopes[|scopes| - 1];
        top := top[name := id];
        scopes := scopes[|scopes| - 1 := top];
      }
    }

    method Create(op: Op) returns (id: nat)
      modifies this`ops
      ensures Lowered(Some(id), Snapshot()) == old(Snapshot()).EmitValue(op)
    {
      id := params + |ops|;
      ops := ops + [op];
    }

    method LookupSymbol(name: string) returns (found: Option<nat>)
      ensures found == Find(symbols, name)
    {
      var i := 0;
      while i < |symbols|
        invariant 0 <= i <= |symbols|
        invariant Find(symbols, name) == FindFrom(symbols, name, i)
      {
        if symbols[i].name == name {
          return Some(i);
        }
        i := i + 1;
      }
      return None;
    }

    /** The declared callee, declared now when nobody has. */
    method LookupOrDeclare(name: string, arity: nat) returns (i: nat)
      modifies this`symbols
      ensures Snapshot() == old(Snapshot()).(symbols := Declare(old(symbols), name, arity).1)
      ensures i == Declare(old(symbols), name, arity).0 && i < |symbols|
    {
      var found := LookupSymbol(name);
      if found.Some? {
        i := found.value;
      } else {
        i := |symbols|;
        symbols := symbols + [FuncOp(name, arity, true, None)];
      }
    }

    method CreateCall(i: nat, args: seq<nat>) returns (v: Option<nat>)
      requires i < |symbols|
      modifies this`ops
      ensures Lowered(v, Snapshot()) == EmitCall(old(symbols[i]), args, old(Snapshot()))
    {
      var id := Create(CallOp(symbols[i].name, args, symbols[i].hasResult));
      v := if symbols[i].hasResult then Some(id) else None;
    }

    method LowerBinary(op: BinaryOp, l: nat, r: nat) returns (v: Option<nat>)
      modifies this
      ensures Lowered(v, Snapshot()) == LowerOperator(op, l, r, old(Snapshot()))
    {
      match op
      case Arith(a) =>
        var id := Create(ArithF(a, l, r));
        v := Some(id);
      case Power =>
        var callee := LookupSymbol("pow");
        v := None;
        if callee.Some? {
          v := CreateCall(callee.value, [l, r]);
        }
      case Compare(c) =>
        var cmp := Create(CmpF(PredicateOf(c), l, r));
        var id := Create(UiToFp(cmp));
        v := Some(id);
      case OtherBinary =>
        SetError(UnsupportedBinary);
        v := None;
    }

    method LowerExpression(e: Expr) returns (v: Option<nat>)
      modifies this
      ensures Lowered(v, Snapshot()) == LowerExpr(e, old(Snapshot()))
      decreases e, 1
    {
      v := None;
      match e
      case Number(d) =>
        var id := Create(Constant(d));
        v := Some(id);
      case Variable(x) =>
        v := LookupValue(x);
        if v.None? {
          SetError(UnknownVariable(x));
        }
      case Unary(op, a) =>
        v := LowerExpression(a);
        if v.Some? {
          match op
          case Keep =>
          case Negate =>
            var id := Create(NegF(v.value));
            v := Some(id);
          case OtherUnary =>
            SetError(UnsupportedUnary);
            v := None;
        }
      case Binary(op, a, b) =>
        var l := LowerExpression(a);
        var r := LowerExpression(b);
        if l.Some? && r.Some? {
          v := LowerBinary(op, l.value, r.value);
        }
      case Call(f, args) =>
        var values := LowerArguments(args);
        if values.Some? {
          var i := LookupOrDeclare(f, |args|);
          v := CreateCall(i, values.value);
        }
      case Let(x, a) =>
        v := LowerExpression(a);
        if v.Some? {
          BindValue(x, v.value);
        }
      case LetIn(x, a, b) =>
        v := LowerExpression(a);
        if v.Some? {
          PushScope();
          BindValue(x, v.value);
          ScopesAreKept(b, Snapshot());
          v := LowerExpression(b);
          PopScope();
        }
      case Block(es) =>
        PushScope();
        ScopesAreKeptStatements(es, |es|, Snapshot());
        v := LowerBlock(es);
        PopScope();
      case Unsupported =>
        SetError(UnsupportedExpression);
    }

    method LowerArguments(args: seq<Expr>) returns (values: Option<seq<nat>>)
      modifies this
      ensures LoweredArgs(values, Snapshot()) == LowerArgs(args, |args|, old(Snapshot()))
      decreases args, 0
    {
      var ids: seq<nat> := [];
      for i := 0 to |args|
        invariant LoweredArgs(Some(ids), Snapshot()) == LowerArgs(args, i, old(Snapshot()))
      {
        var v := LowerExpression(args[i]);
        if v.None? {
          ArgsStop(args, i + 1, |args|, old(Snapshot()));
          return None;
        }
        ids := ids + [v.value];
      }
      return Some(ids);
    }

    /** The statements of a block, inside the scope it has pushed. */
    method LowerBlock(es: seq<Expr>) returns (v: Option<nat>)
      modifies this
      ensures Lowered(v, Snapshot()) == LowerStatements(es, |es|, old(Snapshot()))
      decreases es, 0
    {
      var last := Create(Constant(ZERO_DOUBLE));
      v := Some(last);
      for i := 0 to |es|
        invariant v.Some? && Lowered(v, Snapshot()) == LowerStatements(es, i, old(Snapshot()))
      {
        v := LowerExpression(es[i]);
        if v.None? {
          StatementsStop(es, i + 1, |es|, old(Snapshot()));
          return;
        }
      }
    }

    method DeclareAllBuiltins()
      requires symbols == []
      modifies this`symbols
      ensures Snapshot() == old(Snapshot()).(symbols := DeclareBuiltins([], |BUILTINS|))
    {
      for i := 0 to |BUILTINS|
        invariant Snapshot() == old(Snapshot()).(symbols := DeclareBuiltins([], i))
      {
        var _ := LookupOrDeclare(BUILTINS[i].0, BUILTINS[i].1);
      }
    }

    method DeclareFunction(proto: Prototype) returns (ok: bool)
      modifies this`symbols, this`error
      ensures ok == DeclarePrototype(old(symbols), proto).Some?
      ensures ok ==> Snapshot() == old(Snapshot()).(symbols := DeclarePrototype(old(symbols), proto).value)
      ensures !ok ==> Snapshot() == old(Snapshot()).SetError(UnsupportedArgumentType(proto.name))
    {
      var found := LookupSymbol(proto.name);
      if found.Some? {
        return true;
      }
      for i := 0 to |proto.params|
        invariant Snapshot() == old(Snapshot())
        invariant forall j :: 0 <= j < i ==> proto.params[j].kind != VoidType
      {
        if proto.params[i].kind == VoidType {
          SetError(UnsupportedArgumentType(proto.name));
          return false;
        }
      }
      symbols := symbols + [FuncOp(proto.name, |proto.params|, proto.result == DoubleType, None)];
      return true;
    }

    method BindParameters(ps: seq<Param>, arity: nat)
      requires arity <= |ps|
      modifies this`scopes
      ensures Snapshot() == old(Snapshot()).(scopes := old(scopes) + [ParamScope(ps, arity)])
    {
      PushScope();
      for i := 0 to arity
        invariant Snapshot() == old(Snapshot()).(scopes := old(scopes) + [ParamScope(ps, i)])
      {
        BindValue(ps[i].name, i);
        assert scopes[..|old(scopes)|] == old(scopes);
      }
    }

    method LowerDefinition(f: Definition) returns (ok: bool)
      requires Fits(symbols, f)
      modifies this
      ensures LoweredFunction(ok, Snapshot()) == LowerFunction(f, old(Snapshot()))
    {
      var found := LookupSymbol(f.proto.name);
      if found.None? {
        SetError(MissingDeclaration(f.proto.name));
        return false;
      }
      var i := found.value;
      var decl := symbols[i];
      if decl.body.Some? {
        SetError(DuplicateDefinition(f.proto.name));
        return false;
      }
      params, ops := decl.arity, [];
      BindParameters(f.proto.params, decl.arity);
      ghost var entry := Snapshot();
      ScopesAreKept(f.body, entry);
      SymbolsGrow(f.body, entry);
      var v := LowerExpression(f.body);
      if v.None? {
        PopScope();
        return false;
      }
      var returned := if decl.hasResult then v else None;
      symbols := symbols[i := decl.(body := Some(Body(decl.arity, ops, returned)))];
      PopScope();
      return true;
    }

    method DeclarePrototypes(protos: seq<Prototype>) returns (ok: bool)
      modifies this`symbols, this`error
      ensures ok == DeclareAll(protos, |protos|, old(symbols)).Some?
      ensures ok ==> Snapshot() == old(Snapshot()).(symbols := DeclareAll(protos, |protos|, old(symbols)).value)
      ensures !ok && old(error) == None ==> error == DeclareError(protos, |protos|, old(symbols))
    {
      for i := 0 to |protos|
        invariant DeclareAll(protos, i, old(symbols)).Some?
        invariant Snapshot() == old(Snapshot()).(symbols := DeclareAll(protos, i, old(symbols)).value)
      {
        ok := DeclareFunction(protos[i]);
        if !ok {
          DeclareStops(protos, i + 1, |protos|, old(symbols));
          return false;
        }
      }
      ok := true;
    }

    method LowerDefinitions(fs: seq<Definition>) returns (ok: bool)
      requires forall f :: f in fs ==> Fits(symbols, f) && Find(symbols, f.proto.name).Some?
      modifies this
      ensures LoweredFunction(ok, Snapshot()) == LowerFunctions(fs, |fs|, old(Snapshot()))
    {
      hide LowerFunction;
      for i := 0 to |fs|
        invariant LoweredFunction(true, Snapshot()) == LowerFunctions(fs, i, old(Snapshot()))
      {
        FitsKept(old(symbols), symbols, fs[i]);
        ok := LowerDefinition(fs[i]);
        if !ok {
          FunctionsStop(fs, i + 1, |fs|, old(Snapshot()));
          return;
        }
      }
      ok := true;
    }

    method Lower(p: Program) returns (ok: bool)
      requires Snapshot() == EMPTY_STATE && WellPrototyped(p)
      modifies this
      ensures ok == LowerModule(p).Some?
      ensures ok ==> symbols == LowerModule(p).value
      ensures error == ModuleError(p)
    {
      hide DeclareAll, LowerFunctions, Fits, Find;
      DeclareAllBuiltins();
      ok := DeclarePrototypes(Prototypes(p));
      if ok {
        EachIsDeclared(p);
        ok := LowerDefinitions(p.functions);
      }
    }
  }

  lemma {:induction false} DeclareStops(protos: seq<Prototype>, k: nat, n: nat, symbols: seq<FuncOp>)
    requires k <= n <= |protos| && DeclareAll(protos, k, symbols).None?
    ensures DeclareAll(protos, n, symbols).None? && DeclareError(protos, n, symbols) == DeclareError(protos, k, symbols)
  {
    if k < n {
      DeclareStops(protos, k, n - 1, symbols);
    }
  }

  lemma {:induction false} FunctionsStop(fs: seq<Definition>, k: nat, n: nat, st: State)
    requires k <= n <= |fs|
    requires forall f :: f in fs ==> Fits(st.symbols, f) && Find(st.symbols, f.proto.name).Some?
    requires !LowerFunctions(fs, k, st).ok
    ensures LowerFunctions(fs, n, st) == LowerFunctions(fs, k, st)
  {
    hide LowerFunction, Fits, Find, SameSignatures;
    if k < n {
      FunctionsStop(fs, k, n - 1, st);
    }
  }
}
