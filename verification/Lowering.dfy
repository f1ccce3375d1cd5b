/** The lowering pass as a function of its whole state. */
module Lowering {
  import opened FluxAst
  import opened Options
  import opened Ssa

  datatype LowerError =
    | UnknownVariable(name: string)
    | UnsupportedUnary
    | UnsupportedBinary
    | UnsupportedExpression
    | UnsupportedArgumentType(name: string)
    | MissingDeclaration(name: string)
    | DuplicateDefinition(name: string)

  type Scopes = seq<map<string, nat>>

  /** Everything the pass updates: scope stack, symbol table, current body, first error. */
  datatype State = State(scopes: Scopes, symbols: seq<FuncOp>, params: nat, ops: seq<Op>, error: Option<LowerError>) {

    function SetError(e: LowerError): State {
      if error.None? then this.(error := Some(e)) else this
    }

    function Push(): State {
      this.(scopes := scopes + [map[]])
    }

    function Pop(): State {
      if scopes == [] then this else this.(scopes := scopes[..|scopes| - 1])
    }

    function Bind(name: string, id: nat): State {
      if scopes == [] then this
      else
        var top: map<string, nat> := scopes[|scopes| - 1][name := id];
        this.(scopes := scopes[|scopes| - 1 := top])
    }

    /** The number the next operation will define. */
    function Next(): nat {
      params + |ops|
    }

    function Emit(op: Op): State {
      this.(ops := ops + [op])
    }

    function EmitValue(op: Op): Lowered {
      Lowered(Some(Next()), Emit(op))
    }
  }

  datatype Lowered = Lowered(value: Option<nat>, state: State)

  datatype LoweredArgs = LoweredArgs(values: Option<seq<nat>>, state: State)

  /** The innermost binding of a name. */
  function Lookup(scopes: Scopes, name: string): Option<nat> {
    if scopes == [] then None
    else
      var top := scopes[|scopes| - 1];
      if name in top then Some(top[name]) else Lookup(scopes[..|scopes| - 1], name)
  }

  function PredicateOf(c: CompareOp): Predicate {
    match c
    case Less => OLT
    case Greater => OGT
    case LessEqual => OLE
    case GreaterEqual => OGE
    case Equal => OEQ
    case NotEqual => ONE
  }

  /** The call to a declared function; its value is null when the function returns nothing. */
  function EmitCall(callee: FuncOp, args: seq<nat>, st: State): Lowered {
    Lowered(if callee.hasResult then Some(st.Next()) else None, st.Emit(CallOp(callee.name, args, callee.hasResult)))
  }

  /** A callee nobody declared is declared on the spot, with the arity of this call. */
  function Declare(symbols: seq<FuncOp>, name: string, arity: nat): (r: (nat, seq<FuncOp>))
    ensures r.0 < |r.1| && r.1[r.0].name == name
  {
    match Find(symbols, name)
    case Some(i) => (i, symbols)
    case None => (|symbols|, symbols + [FuncOp(name, arity, true, None)])
  }

  function LowerOperator(op: BinaryOp, l: nat, r: nat, st: State): Lowered {
    match op
    case Arith(a) => st.EmitValue(ArithF(a, l, r))
    case Power =>
      (match Find(st.symbols, "pow")
       case Some(i) => EmitCall(st.symbols[i], [l, r], st)
       case None => Lowered(None, st))
    case Compare(c) => st.Emit(CmpF(PredicateOf(c), l, r)).EmitValue(UiToFp(st.Next()))
    case OtherBinary => Lowered(None, st.SetError(UnsupportedBinary))
  }

  function LowerExpr(e: Expr, st: State): Lowered
    decreases e, 1, 0
  {
    match e
    case Number(d) => st.EmitValue(Constant(d))
    case Variable(x) =>
      var v := Lookup(st.scopes, x);
      Lowered(v, if v.None? then st.SetError(UnknownVariable(x)) else st)
    case Unary(op, a) =>
      var r := LowerExpr(a, st);
      if r.value.None? then r
      else (match op
            case Keep => r
            case Negate => r.state.EmitValue(NegF(r.value.value))
            case OtherUnary => Lowered(None, r.state.SetError(UnsupportedUnary)))
    case Binary(op, a, b) =>
      var l := LowerExpr(a, st);
      var r := LowerExpr(b, l.state);
      if l.value.None? || r.value.None? then Lowered(None, r.state)
      else LowerOperator(op, l.value.value, r.value.value, r.state)
    case Call(f, args) =>
      var r := LowerArgs(args, |args|, st);
      if r.values.None? then Lowered(None, r.state)
      else
        var (i, symbols) := Declare(r.state.symbols, f, |args|);
        EmitCall(symbols[i], r.values.value, r.state.(symbols := symbols))
    case Let(x, a) =>
      var r := LowerExpr(a, st);
      if r.value.None? then r else r.(state := r.state.Bind(x, r.value.value))
    case LetIn(x, a, b) =>
      var r := LowerExpr(a, st);
      if r.value.None? then r
      else
        var q := LowerExpr(b, r.state.Push().Bind(x, r.value.value));
        q.(state := q.state.Pop())
    case Block(es) =>
      var q := LowerStatements(es, |es|, st.Push());
      q.(state := q.state.Pop())
    case Unsupported => Lowered(None, st.SetError(UnsupportedExpression))
  }

  /** The first `count` arguments, stopping at the first that has no value. */
  function LowerArgs(args: seq<Expr>, count: nat, st: State): (r: LoweredArgs)
    requires count <= |args|
    ensures r.values.Some? ==> |r.values.value| == count
    decreases args, 0, count
  {
    if count == 0 then LoweredArgs(Some([]), st)
    else
      var r := LowerArgs(args, count - 1, st);
      if r.values.None? then r
      else
        var q := LowerExpr(args[count - 1], r.state);
        LoweredArgs(if q.value.None? then None else Some(r.values.value + [q.value.value]), q.state)
  }

  /** The first `count` statements after the constant 0.0 a block starts with. */
  function LowerStatements(es: seq<Expr>, count: nat, st: State): Lowered
    requires count <= |es|
    decreases es, 0, count
  {
    if count == 0 then st.EmitValue(Constant(ZERO_DOUBLE))
    else
      var r := LowerStatements(es, count - 1, st);
      if r.value.None? then r else LowerExpr(es[count - 1], r.state)
  }

  /** Declarations without a body have been added at the end. */
  ghost predicate Grown(before: seq<FuncOp>, after: seq<FuncOp>) {
    before <= after && forall k :: |before| <= k < |after| ==> after[k].body.None?
  }

  /** Lowering an expression touches no symbol that is there, and adds declarations only. */
  lemma {:induction false} SymbolsGrow(e: Expr, st: State)
    ensures Grown(st.symbols, LowerExpr(e, st).state.symbols)
    decreases e, 1, 0
  {
    match e
    case Unary(_, a) => SymbolsGrow(a, st);
    case Binary(_, a, b) =>
      SymbolsGrow(a, st);
      SymbolsGrow(b, LowerExpr(a, st).state);
    case Call(_, args) => SymbolsGrowArgs(args, |args|, st);
    case Let(_, a) => SymbolsGrow(a, st);
    case LetIn(x, a, b) =>
      SymbolsGrow(a, st);
      var r := LowerExpr(a, st);
      if r.value.Some? {
        SymbolsGrow(b, r.state.Push().Bind(x, r.value.value));
      }
    case Block(es) => SymbolsGrowStatements(es, |es|, st.Push());
    case _ =>
  }

  lemma {:induction false} SymbolsGrowArgs(args: seq<Expr>, count: nat, st: State)
    requires count <= |args|
    ensures Grown(st.symbols, LowerArgs(args, count, st).state.symbols)
    decreases args, 0, count
  {
    if count > 0 {
      SymbolsGrowArgs(args, count - 1, st);
      SymbolsGrow(args[count - 1], LowerArgs(args, count - 1, st).state);
    }
  }

  lemma {:induction false} SymbolsGrowStatements(es: seq<Expr>, count: nat, st: State)
    requires count <= |es|
    ensures Grown(st.symbols, LowerStatements(es, count, st).state.symbols)
    decreases es, 0, count
  {
    if count > 0 {
      SymbolsGrowStatements(es, count - 1, st);
      SymbolsGrow(es[count - 1], LowerStatements(es, count - 1, st).state);
    }
  }

  // ----- Modules

  const BUILTINS: seq<(string, nat)> :=
    [("sin", 1), ("cos", 1), ("tan", 1), ("asin", 1), ("acos", 1), ("atan", 1), ("atan2", 2), ("sqrt", 1), ("exp", 1),
     ("log", 1), ("log10", 1), ("abs", 1), ("floor", 1), ("ceil", 1), ("round", 1), ("pow", 2), ("pi", 0), ("e", 0)]

  function DeclareBuiltins(symbols: seq<FuncOp>, count: nat): seq<FuncOp>
    requires count <= |BUILTINS|
  {
    if count == 0 then symbols
    else Declare(DeclareBuiltins(symbols, count - 1), BUILTINS[count - 1].0, BUILTINS[count - 1].1).1
  }

  predicate HasVoidParam(proto: Prototype) {
    exists i :: 0 <= i < |proto.params| && proto.params[i].kind == VoidType
  }

  /** None when the prototype is new and takes an argument of no type. */
  function DeclarePrototype(symbols: seq<FuncOp>, proto: Prototype): Option<seq<FuncOp>> {
    if Find(symbols, proto.name).Some? then Some(symbols)
    else if HasVoidParam(proto) then None
    else Some(symbols + [FuncOp(proto.name, |proto.params|, proto.result == DoubleType, None)])
  }

  /** The scope of a function body: its declared arguments under the names of this prototype. */
  function ParamScope(params: seq<Param>, arity: nat): map<string, nat>
    requires arity <= |params|
  {
    if arity == 0 then map[] else ParamScope(params, arity - 1)[params[arity - 1].name := arity - 1]
  }

  datatype LoweredFunction = LoweredFunction(ok: bool, state: State)

  /** No argument of the declared function is without a name in this prototype. */
  predicate Fits(symbols: seq<FuncOp>, f: Definition) {
    Find(symbols, f.proto.name).Some? ==> symbols[Find(symbols, f.proto.name).value].arity <= |f.proto.params|
  }

  function EntryState(f: Definition, decl: FuncOp, st: State): State
    requires decl.arity <= |f.proto.params|
  {
    st.(params := decl.arity, ops := [], scopes := st.scopes + [ParamScope(f.proto.params, decl.arity)])
  }

  function LowerFunction(f: Definition, st: State): (r: LoweredFunction)
    requires Fits(st.symbols, f)
    ensures SameSignatures(st.symbols, r.state.symbols)
  {
    match Find(st.symbols, f.proto.name)
    case None => LoweredFunction(false, st.SetError(MissingDeclaration(f.proto.name)))
    case Some(i) =>
      var decl := st.symbols[i];
      if decl.body.Some? then LoweredFunction(false, st.SetError(DuplicateDefinition(f.proto.name)))
      else
        var entry := EntryState(f, decl, st);
        var r := LowerExpr(f.body, entry);
        SymbolsGrow(f.body, entry);
        if r.value.None? then LoweredFunction(false, r.state.Pop())
        else
          var body := Body(decl.arity, r.state.ops, if decl.hasResult then r.value else None);
          LoweredFunction(true, r.state.Pop().(symbols := r.state.symbols[i := decl.(body := Some(body))]))
  }

  function LowerFunctions(fs: seq<Definition>, count: nat, st: State): (r: LoweredFunction)
    requires count <= |fs|
    requires forall f :: f in fs ==> Fits(st.symbols, f) && Find(st.symbols, f.proto.name).Some?
    ensures SameSignatures(st.symbols, r.state.symbols)
  {
    if count == 0 then LoweredFunction(true, st)
    else
      var r := LowerFunctions(fs, count - 1, st);
      if !r.ok then r
      else
        FitsKept(st.symbols, r.state.symbols, fs[count - 1]);
        LowerFunction(fs[count - 1], r.state)
  }

  lemma FitsKept(before: seq<FuncOp>, after: seq<FuncOp>, f: Definition)
    requires SameSignatures(before, after) && Fits(before, f) && Find(before, f.proto.name).Some?
    ensures Fits(after, f) && Find(after, f.proto.name) == Find(before, f.proto.name)
  {
    FindKept(before, after, f.proto.name);
  }

  function DeclareAll(protos: seq<Prototype>, count: nat, symbols: seq<FuncOp>): Option<seq<FuncOp>>
    requires count <= |protos|
  {
    if count == 0 then Some(symbols)
    else
      match DeclareAll(protos, count - 1, symbols)
      case None => None
      case Some(declared) => DeclarePrototype(declared, protos[count - 1])
  }

  lemma {:induction false} DeclaredStays(protos: seq<Prototype>, count: nat, symbols: seq<FuncOp>, name: string)
    requires count <= |protos| && DeclareAll(protos, count, symbols).Some?
    requires Find(symbols, name).Some? || exists i :: 0 <= i < count && protos[i].name == name
    ensures Find(DeclareAll(protos, count, symbols).value, name).Some?
  {
    if count > 0 {
      var before, proto := DeclareAll(protos, count - 1, symbols).value, protos[count - 1];
      if Find(symbols, name).Some? || exists i :: 0 <= i < count - 1 && protos[i].name == name {
        DeclaredStays(protos, count - 1, symbols, name);
      }
      if Find(before, proto.name).None? {
        FindFromAppended(before, FuncOp(proto.name, |proto.params|, proto.result == DoubleType, None), name, 0);
      }
    }
  }

  lemma EachIsDeclared(p: Program)
    requires Declarations(p).Some?
    ensures forall f :: f in p.functions ==> Find(Declarations(p).value, f.proto.name).Some?
  {
    forall f | f in p.functions
      ensures Find(Declarations(p).value, f.proto.name).Some?
    {
      var i :| 0 <= i < |p.functions| && p.functions[i] == f;
      assert Prototypes(p)[|p.externs| + i].name == f.proto.name;
      DeclaredStays(Prototypes(p), |Prototypes(p)|, DeclareBuiltins([], |BUILTINS|), f.proto.name);
    }
  }

  /** Builtins first, then externs, then every function of the program. */
  function Prototypes(p: Program): seq<Prototype> {
    p.externs + seq(|p.functions|, i requires 0 <= i < |p.functions| => p.functions[i].proto)
  }

  function Declarations(p: Program): Option<seq<FuncOp>> {
    DeclareAll(Prototypes(p), |Prototypes(p)|, DeclareBuiltins([], |BUILTINS|))
  }

  /** What the pass asks of the parser: a redeclared function has at least the declared number of parameters. */
  ghost predicate WellPrototyped(p: Program) {
    Declarations(p).Some? ==> forall f :: f in p.functions ==> Fits(Declarations(p).value, f)
  }

  const EMPTY_STATE := State([], [], 0, [], None)

  /** The whole pass: the symbol table of the finished module, or None. */
  function LowerModule(p: Program): Option<seq<FuncOp>>
    requires WellPrototyped(p)
  {
    match Declarations(p)
    case None => None
    case Some(symbols) =>
      EachIsDeclared(p);
      var r := LowerFunctions(p.functions, |p.functions|, EMPTY_STATE.(symbols := symbols));
      if r.ok then Some(r.state.symbols) else None
  }

  /** The error of the prototype at which declaring stops, if it stops. */
  function DeclareError(protos: seq<Prototype>, count: nat, symbols: seq<FuncOp>): Option<LowerError>
    requires count <= |protos|
  {
    if count == 0 then None
    else
      match DeclareAll(protos, count - 1, symbols)
      case None => DeclareError(protos, count - 1, symbols)
      case Some(declared) =>
        if DeclarePrototype(declared, protos[count - 1]).None?
        then Some(UnsupportedArgumentType(protos[count - 1].name)) else None
  }

  /** The error the whole pass leaves behind. */
  function ModuleError(p: Program): Option<LowerError>
    requires WellPrototyped(p)
  {
    match Declarations(p)
    case None => DeclareError(Prototypes(p), |Prototypes(p)|, DeclareBuiltins([], |BUILTINS|))
    case Some(symbols) =>
      EachIsDeclared(p);
      LowerFunctions(p.functions, |p.functions|, EMPTY_STATE.(symbols := symbols)).state.error
  }
}
