/** What a program's prototypes say of each name, read off the program alone. */
module Signatures {
  import opened FluxAst
  import opened Options

  datatype Signature = Signature(arity: nat, hasResult: bool)

  /** The functions every program may call, by their number of arguments. */
  function BuiltinArity(name: string): Option<nat> {
    if name in {"pi", "e"} then Some(0)
    else if name in {"sin", "cos", "tan", "asin", "acos", "atan", "sqrt", "exp", "log", "log10", "abs", "floor", "ceil", "round"}
    then Some(1)
    else if name in {"atan2", "pow"} then Some(2)
    else None
  }

  /** The first prototype of the name. */
  function FirstOf(protos: seq<Prototype>, name: string): (r: Option<Prototype>)
    ensures r.Some? ==> r.value in protos && r.value.name == name
    ensures r.None? ==> forall proto :: proto in protos ==> proto.name != name
  {
    if protos == [] then None
    else if protos[0].name == name then Some(protos[0])
    else FirstOf(protos[1..], name)
  }

  function ProtosOf(fs: seq<Definition>): (protos: seq<Prototype>)
    ensures |protos| == |fs| && forall i :: 0 <= i < |fs| ==> protos[i] == fs[i].proto
  {
    if fs == [] then [] else [fs[0].proto] + ProtosOf(fs[1..])
  }

  /** The prototype that counts: the first extern of the name, else the first definition's; none for a builtin. */
  function PrototypeOf(p: Program, name: string): Option<Prototype> {
    if BuiltinArity(name).Some? then None
    else if FirstOf(p.externs, name).Some? then FirstOf(p.externs, name)
    else FirstOf(ProtosOf(p.functions), name)
  }

  /** How a name is called. A builtin takes its own number of arguments and returns a value, whatever a prototype says. */
  function SignatureOf(p: Program, name: string): Option<Signature> {
    match BuiltinArity(name)
    case Some(arity) => Some(Signature(arity, true))
    case None =>
      match PrototypeOf(p, name)
      case None => None
      case Some(proto) => Some(Signature(|proto.params|, proto.result == DoubleType))
  }

  function ArityOf(p: Program, name: string): nat {
    match SignatureOf(p, name) case None => 0 case Some(g) => g.arity
  }

  predicate IsVoid(p: Program, name: string) {
    SignatureOf(p, name).Some? && !SignatureOf(p, name).value.hasResult
  }

  /** The functions that return nothing. */
  function VoidNames(p: Program): (names: set<string>)
    ensures forall name :: name in names <==> IsVoid(p, name)
  {
    var protos := p.externs + ProtosOf(p.functions);
    var names := set proto | proto in protos && IsVoid(p, proto.name) :: proto.name;
    assert forall name :: IsVoid(p, name) ==> PrototypeOf(p, name).value in protos && PrototypeOf(p, name).value.name == name;
    names
  }

  /** A prototype that counts takes an argument of no type. */
  ghost predicate TakesVoid(p: Program) {
    exists name :: TakesVoidBy(p, name)
  }

  predicate TakesVoidBy(p: Program, name: string) {
    PrototypeOf(p, name).Some? && exists i :: 0 <= i < |PrototypeOf(p, name).value.params|
                                              && PrototypeOf(p, name).value.params[i].kind == VoidType
  }

  /** Every definition has a name for each of its arguments. */
  ghost predicate NamesArguments(p: Program) {
    forall k :: 0 <= k < |p.functions| ==> ArityOf(p, p.functions[k].proto.name) <= |p.functions[k].proto.params|
  }

  function ArgumentNames(p: Program, f: Definition): set<string> {
    set i | 0 <= i < ArityOf(p, f.proto.name) && i < |f.proto.params| :: f.proto.params[i].name
  }

  /** What a program must satisfy to be lowered: argument types, one definition a name, and the scope rule for each body. */
  ghost predicate IsLowerable(p: Program) {
    && !TakesVoid(p)
    && (forall i, j :: 0 <= i < j < |p.functions| ==> p.functions[i].proto.name != p.functions[j].proto.name)
    && forall k :: 0 <= k < |p.functions| ==>
         Scope(VoidNames(p), p.functions[k].body, ArgumentNames(p, p.functions[k])).Some?
  }
}
