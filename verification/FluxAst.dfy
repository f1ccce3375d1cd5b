/** The expression language that is lowered, and its meaning with plain lexical environments. */
module FluxAst {
  import opened Options

  /** A double is known by its bits; the operations on it are parameters of the semantics. */
  datatype Double = Double(bits: bv64)

  const ZERO_DOUBLE := Double(0)

  datatype UnaryOp = Keep | Negate | OtherUnary

  datatype ArithOp = AddOp | SubOp | MulOp | DivOp

  datatype CompareOp = Less | Greater | LessEqual | GreaterEqual | Equal | NotEqual

  datatype BinaryOp = Arith(arith: ArithOp) | Power | Compare(compare: CompareOp) | OtherBinary

  /** `Let` is the form without a body; `Unsupported` stands for every kind the pass refuses. */
  datatype Expr =
    | Number(value: Double)
    | Variable(name: string)
    | Unary(unary: UnaryOp, operand: Expr)
    | Binary(binary: BinaryOp, lhs: Expr, rhs: Expr)
    | Call(callee: string, args: seq<Expr>)
    | Let(name: string, init: Expr)
    | LetIn(name: string, init: Expr, body: Expr)
    | Block(statements: seq<Expr>)
    | Unsupported

  datatype Type = DoubleType | VoidType

  datatype Param = Param(name: string, kind: Type)

  datatype Prototype = Prototype(name: string, params: seq<Param>, result: Type)

  datatype Definition = Definition(proto: Prototype, body: Expr)

  datatype Program = Program(externs: seq<Prototype>, functions: seq<Definition>)

  /** How one double stands to another; with a NaN on either side they are unordered. */
  datatype Order = Below | Same | Above | Unordered

  /**
    * The machine operations and the called functions; calls may read and change a world.
    * `unequal` is the reading of != on unordered operands.
    */
  datatype Semantics<!W> = Semantics(
    negate: Double -> Double,
    arith: (ArithOp, Double, Double) -> Double,
    order: (Double, Double) -> Order,
    unequal: bool,
    fromBit: bool -> Double,
    call: (string, seq<Double>, W) -> (Double, W))

  type Env = map<string, Double>

  datatype Outcome<+V, W> = Outcome(value: V, env: Env, world: W)

  /**
    * Evaluation from left to right. A body-less `let` extends the environment of what follows it;
    * a `let` with a body and a block give back the environment they were entered with.
    * Functions in `voids` return nothing, so calling one as an expression has no meaning.
    */
  function Eval<W>(s: Semantics<W>, voids: set<string>, e: Expr, env: Env, w: W): Option<Outcome<Double, W>>
    decreases e, 1, 0
  {
    match e
    case Number(d) => Some(Outcome(d, env, w))
    case Variable(x) => if x in env then Some(Outcome(env[x], env, w)) else None
    case Unary(op, a) =>
      (match Eval(s, voids, a, env, w)
       case None => None
       case Some(r) =>
         match op
         case Keep => Some(r)
         case Negate => Some(r.(value := s.negate(r.value)))
         case OtherUnary => None)
    case Binary(op, a, b) =>
      (match Eval(s, voids, a, env, w)
       case None => None
       case Some(l) =>
         match Eval(s, voids, b, l.env, l.world)
         case None => None
         case Some(r) => Operate(s, op, l.value, r.value, r.env, r.world))
    case Call(f, args) =>
      (match EvalArgs(s, voids, args, |args|, env, w)
       case None => None
       case Some(r) =>
         if f in voids then None
         else var (d, w') := s.call(f, r.value, r.world); Some(Outcome(d, r.env, w')))
    case Let(x, a) =>
      (match Eval(s, voids, a, env, w)
       case None => None
       case Some(r) => Some(r.(env := r.env[x := r.value])))
    case LetIn(x, a, b) =>
      (match Eval(s, voids, a, env, w)
       case None => None
       case Some(r) =>
         match Eval(s, voids, b, r.env[x := r.value], r.world)
         case None => None
         case Some(q) => Some(q.(env := r.env)))
    case Block(es) =>
      (match EvalStatements(s, voids, es, |es|, env, w)
       case None => None
       case Some(r) => Some(r.(env := env)))
    case Unsupported => None
  }

  /** When a comparison holds: never of unordered operands, except perhaps for !=. */
  predicate Meant(c: CompareOp, o: Order, unequal: bool) {
    match c
    case Less => o == Below
    case Greater => o == Above
    case LessEqual => o == Below || o == Same
    case GreaterEqual => o == Above || o == Same
    case Equal => o == Same
    case NotEqual => o == Below || o == Above || (o == Unordered && unequal)
  }

  function Operate<W>(s: Semantics<W>, op: BinaryOp, l: Double, r: Double, env: Env, w: W)
    : Option<Outcome<Double, W>>
  {
    match op
    case Arith(a) => Some(Outcome(s.arith(a, l, r), env, w))
    case Power => var (d, w') := s.call("pow", [l, r], w); Some(Outcome(d, env, w'))
    case Compare(c) => Some(Outcome(s.fromBit(Meant(c, s.order(l, r), s.unequal)), env, w))
    case OtherBinary => None
  }

  /** The values of the first `count` arguments. */
  function EvalArgs<W>(s: Semantics<W>, voids: set<string>, args: seq<Expr>, count: nat, env: Env, w: W)
    : Option<Outcome<seq<Double>, W>>
    requires count <= |args|
    decreases args, 0, count
  {
    if count == 0 then Some(Outcome([], env, w))
    else
      match EvalArgs(s, voids, args, count - 1, env, w)
      case None => None
      case Some(r) =>
        match Eval(s, voids, args[count - 1], r.env, r.world)
        case None => None
        case Some(q) => Some(Outcome(r.value + [q.value], q.env, q.world))
  }

  /** The value of the last of the first `count` statements, 0.0 when there is none. */
  function EvalStatements<W>(s: Semantics<W>, voids: set<string>, es: seq<Expr>, count: nat, env: Env, w: W)
    : Option<Outcome<Double, W>>
    requires count <= |es|
    decreases es, 0, count
  {
    if count == 0 then Some(Outcome(ZERO_DOUBLE, env, w))
    else
      match EvalStatements(s, voids, es, count - 1, env, w)
      case None => None
      case Some(r) => Eval(s, voids, es[count - 1], r.env, r.world)
  }

  // ----- The scope rule, without values

  /** The names bound after `e`, or None when `e` mentions an unbound name, a void call or an unsupported form. */
  function Scope(voids: set<string>, e: Expr, bound: set<string>): Option<set<string>>
    decreases e, 1, 0
  {
    match e
    case Number(_) => Some(bound)
    case Variable(x) => if x in bound then Some(bound) else None
    case Unary(op, a) => if op.OtherUnary? then None else Scope(voids, a, bound)
    case Binary(op, a, b) =>
      (match Scope(voids, a, bound)
       case None => None
       case Some(after) => if op.OtherBinary? then None else Scope(voids, b, after))
    case Call(f, args) => if f in voids then None else ScopeAll(voids, args, |args|, bound)
    case Let(x, a) =>
      (match Scope(voids, a, bound)
       case None => None
       case Some(after) => Some(after + {x}))
    case LetIn(x, a, b) =>
      (match Scope(voids, a, bound)
       case None => None
       case Some(after) => if Scope(voids, b, after + {x}).Some? then Some(after) else None)
    case Block(es) => if ScopeAll(voids, es, |es|, bound).Some? then Some(bound) else None
    case Unsupported => None
  }

  function ScopeAll(voids: set<string>, es: seq<Expr>, count: nat, bound: set<string>): Option<set<string>>
    requires count <= |es|
    decreases es, 0, count
  {
    if count == 0 then Some(bound)
    else
      match ScopeAll(voids, es, count - 1, bound)
      case None => None
      case Some(after) => Scope(voids, es[count - 1], after)
  }

  /** Evaluation is defined exactly where the scope rule says, whatever the values and the calls do. */
  lemma {:induction false} ScopeDecides<W>(s: Semantics<W>, voids: set<string>, e: Expr, env: Env, w: W)
    ensures Eval(s, voids, e, env, w).Some? <==> Scope(voids, e, env.Keys).Some?
    ensures Eval(s, voids, e, env, w).Some? ==>
              Eval(s, voids, e, env, w).value.env.Keys == Scope(voids, e, env.Keys).value
    decreases e, 1, 0
  {
    match e
    case Number(_) =>
    case Variable(_) =>
    case Unary(_, a) => ScopeDecides(s, voids, a, env, w);
    case Binary(op, a, b) =>
      ScopeDecides(s, voids, a, env, w);
      var l := Eval(s, voids, a, env, w);
      if l.Some? {
        ScopeDecides(s, voids, b, l.value.env, l.value.world);
      }
    case Call(_, args) => ScopeDecidesArgs(s, voids, args, |args|, env, w);
    case Let(_, a) => ScopeDecides(s, voids, a, env, w);
    case LetIn(x, a, b) =>
      ScopeDecides(s, voids, a, env, w);
      var r := Eval(s, voids, a, env, w);
      if r.Some? {
        var inner := r.value.env[x := r.value.value];
        assert inner.Keys == r.value.env.Keys + {x};
        ScopeDecides(s, voids, b, inner, r.value.world);
      }
    case Block(es) => ScopeDecidesStatements(s, voids, es, |es|, env, w);
    case Unsupported =>
  }

  lemma {:induction false} ScopeDecidesArgs<W>(s: Semantics<W>, voids: set<string>, es: seq<Expr>, count: nat, env: Env, w: W)
    requires count <= |es|
    ensures EvalArgs(s, voids, es, count, env, w).Some? <==> ScopeAll(voids, es, count, env.Keys).Some?
    ensures EvalArgs(s, voids, es, count, env, w).Some? ==>
              EvalArgs(s, voids, es, count, env, w).value.env.Keys == ScopeAll(voids, es, count, env.Keys).value
    decreases es, 0, count
  {
    if count > 0 {
      ScopeDecidesArgs(s, voids, es, count - 1, env, w);
      var r := EvalArgs(s, voids, es, count - 1, env, w);
      if r.Some? {
        ScopeDecides(s, voids, es[count - 1], r.value.env, r.value.world);
      }
    }
  }

  lemma {:induction false} ScopeDecidesStatements<W>(s: Semantics<W>, voids: set<string>, es: seq<Expr>, count: nat, env: Env, w: W)
    requires count <= |es|
    ensures EvalStatements(s, voids, es, count, env, w).Some? <==> ScopeAll(voids, es, count, env.Keys).Some?
    ensures EvalStatements(s, voids, es, count, env, w).Some? ==>
              EvalStatements(s, voids, es, count, env, w).value.env.Keys == ScopeAll(voids, es, count, env.Keys).value
    decreases es, 0, count
  {
    if count > 0 {
      ScopeDecidesStatements(s, voids, es, count - 1, env, w);
      var r := EvalStatements(s, voids, es, count - 1, env, w);
      if r.Some? {
        ScopeDecides(s, voids, es[count - 1], r.value.env, r.value.world);
      }
    }
  }
}
