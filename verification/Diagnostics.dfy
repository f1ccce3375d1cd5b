/** Which error is reported for a program that does not lower, read off the program alone. */
module Diagnostics {
  import opened FluxAst
  import opened Options
  import opened Signatures
  import opened Lowering

  /**
    * What checking an expression from left to right finds: whether it has a value, the names bound afterwards, and
    * the first error. A call of a function without result has no value and is no error.
    */
  datatype Finding = Finding(ok: bool, bound: set<string>, error: Option<LowerError>)

  function Refused(bound: set<string>, e: LowerError): Finding {
    Finding(false, bound, Some(e))
  }

  function Earlier(a: Option<LowerError>, b: Option<LowerError>): Option<LowerError> {
    if a.Some? then a else b
  }

  /** A call whose arguments have values. */
  function Called(voids: set<string>, f: string, bound: set<string>): Finding {
    if f in voids then Finding(false, bound, None) else Finding(true, bound, None)
  }

  function Check(voids: set<string>, e: Expr, bound: set<string>): Finding
    decreases e, 1, 0
  {
    match e
    case Number(_) => Finding(true, bound, None)
    case Variable(x) => if x in bound then Finding(true, bound, None) else Refused(bound, UnknownVariable(x))
    case Unary(op, a) =>
      var c := Check(voids, a, bound);
      if c.ok && op.OtherUnary? then Refused(c.bound, UnsupportedUnary) else c
    case Binary(op, a, b) =>
      // The right operand is looked at even when the left one has failed.
      var l := Check(voids, a, bound);
      var r := Check(voids, b, l.bound);
      if l.ok && r.ok && op.OtherBinary? then Refused(r.bound, UnsupportedBinary)
      else Finding(l.ok && r.ok, r.bound, Earlier(l.error, r.error))
    case Call(f, args) =>
      var c := CheckAll(voids, args, |args|, bound);
      if c.ok then Called(voids, f, c.bound) else c
    case Let(x, a) =>
      var c := Check(voids, a, bound);
      if c.ok then c.(bound := c.bound + {x}) else c
    case LetIn(x, a, b) =>
      var c := Check(voids, a, bound);
      if c.ok then Check(voids, b, c.bound + {x}).(bound := c.bound) else c
    case Block(es) => CheckAll(voids, es, |es|, bound).(bound := bound)
    case Unsupported => Refused(bound, UnsupportedExpression)
  }

  /** The first `count` expressions, up to the first that has no value. */
  function CheckAll(voids: set<string>, es: seq<Expr>, count: nat, bound: set<string>): Finding
    requires count <= |es|
    decreases es, 0, count
  {
    if count == 0 then Finding(true, bound, None)
    else
      var c := CheckAll(voids, es, count - 1, bound);
      if c.ok then Check(voids, es[count - 1], c.bound) else c
  }

  // ----- Programs

  /** Prototype k is the one that counts for its name, and takes an argument of no type. */
  predicate IsRefusedAt(protos: seq<Prototype>, k: nat)
    requires k < |protos|
  {
    && BuiltinArity(protos[k].name).None?
    && (forall j :: 0 <= j < k ==> protos[j].name != protos[k].name)
    && exists i :: 0 <= i < |protos[k].params| && protos[k].params[i].kind == VoidType
  }

  /** The error of the first refused prototype among the first `count`, if any. */
  function PrototypeError(protos: seq<Prototype>, count: nat): Option<LowerError>
    requires count <= |protos|
  {
    if count == 0 then None
    else
      Earlier(PrototypeError(protos, count - 1),
              if IsRefusedAt(protos, count - 1) then Some(UnsupportedArgumentType(protos[count - 1].name)) else None)
  }

  predicate IsFirstDefinition(p: Program, k: nat)
    requires k < |p.functions|
  {
    forall j :: 0 <= j < k ==> p.functions[j].proto.name != p.functions[k].proto.name
  }

  function CheckDefinition(p: Program, k: nat): Finding
    requires k < |p.functions|
  {
    if IsFirstDefinition(p, k) then Check(VoidNames(p), p.functions[k].body, ArgumentNames(p, p.functions[k]))
    else Refused({}, DuplicateDefinition(p.functions[k].proto.name))
  }

  /** The first `count` definitions, up to the first that does not lower. */
  function CheckDefinitions(p: Program, count: nat): Finding
    requires count <= |p.functions|
  {
    if count == 0 then Finding(true, {}, None)
    else
      var c := CheckDefinitions(p, count - 1);
      if c.ok then CheckDefinition(p, count - 1) else c
  }

  /** The error reported for a program; None also stands for the failure that has no message of its own. */
  function Report(p: Program): Option<LowerError> {
    var protos := p.externs + ProtosOf(p.functions);
    Earlier(PrototypeError(protos, |protos|), CheckDefinitions(p, |p.functions|).error)
  }
}
