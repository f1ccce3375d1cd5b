/** The emitted operations and the machine that runs them. */
module Ssa {
  import opened FluxAst
  import opened Options

  /** The ordered float predicates of the arith dialect. */
  datatype Predicate = OLT | OGT | OLE | OGE | OEQ | ONE

  /** Operands are value numbers: parameters first, then one number per operation. */
  datatype Op =
    | Constant(value: Double)
    | NegF(operand: nat)
    | ArithF(arith: ArithOp, lhs: nat, rhs: nat)
    | CmpF(test: Predicate, lhs: nat, rhs: nat)
    | UiToFp(operand: nat)
    | CallOp(callee: string, operands: seq<nat>, hasResult: bool)

  datatype Body = Body(params: nat, ops: seq<Op>, returned: Option<nat>)

  /** A function of the module; a declaration has no body. */
  datatype FuncOp = FuncOp(name: string, arity: nat, hasResult: bool, body: Option<Body>)

  datatype Register = F64(value: Double) | I1(bit: bool) | NoValue

  datatype Machine<W> = Machine(registers: seq<Register>, world: W)

  /** An ordered predicate holds when the operands are ordered and stand as it says. */
  predicate Holds(p: Predicate, o: Order) {
    && o != Unordered
    && match p
       case OLT => o == Below
       case OGT => o == Above
       case OLE => o != Above
       case OGE => o != Below
       case OEQ => o == Same
       case ONE => o != Same
  }

  predicate HoldsDouble(registers: seq<Register>, id: nat) {
    id < |registers| && registers[id].F64?
  }

  function Doubles(registers: seq<Register>, ids: seq<nat>): seq<Double>
    requires forall i :: 0 <= i < |ids| ==> HoldsDouble(registers, ids[i])
  {
    seq(|ids|, i requires 0 <= i < |ids| && HoldsDouble(registers, ids[i]) => registers[ids[i]].value)
  }

  /** One operation appends one register; the machine is stuck on an undefined or wrongly typed operand. */
  function Exec<W>(s: Semantics<W>, op: Op, m: Machine<W>): Option<Machine<W>> {
    var r := m.registers;
    match op
    case Constant(d) => Some(m.(registers := r + [F64(d)]))
    case NegF(a) => if HoldsDouble(r, a) then Some(m.(registers := r + [F64(s.negate(r[a].value))])) else None
    case ArithF(k, a, b) =>
      if HoldsDouble(r, a) && HoldsDouble(r, b)
      then Some(m.(registers := r + [F64(s.arith(k, r[a].value, r[b].value))])) else None
    case CmpF(p, a, b) =>
      if HoldsDouble(r, a) && HoldsDouble(r, b)
      then Some(m.(registers := r + [I1(Holds(p, s.order(r[a].value, r[b].value)))])) else None
    case UiToFp(a) =>
      if a < |r| && r[a].I1? then Some(m.(registers := r + [F64(s.fromBit(r[a].bit))])) else None
    case CallOp(f, ids, hasResult) =>
      if forall i :: 0 <= i < |ids| ==> HoldsDouble(r, ids[i]) then
        var (d, w') := s.call(f, Doubles(r, ids), m.world);
        Some(Machine(r + [if hasResult then F64(d) else NoValue], w'))
      else None
  }

  function Run<W>(s: Semantics<W>, ops: seq<Op>, m: Machine<W>): Option<Machine<W>> {
    if ops == [] then Some(m)
    else
      match Run(s, ops[..|ops| - 1], m)
      case None => None
      case Some(m') => Exec(s, ops[|ops| - 1], m')
  }

  lemma RunOneMore<W>(s: Semantics<W>, ops: seq<Op>, op: Op, m: Machine<W>)
    ensures Run(s, ops + [op], m) ==
              match Run(s, ops, m) { case None => None case Some(m') => Exec(s, op, m') }
  {
    assert (ops + [op])[..|ops|] == ops;
  }

  // ----- Well-formed bodies

  function Operands(op: Op): seq<nat> {
    match op
    case Constant(_) => []
    case NegF(a) => [a]
    case ArithF(_, a, b) => [a, b]
    case CmpF(_, a, b) => [a, b]
    case UiToFp(a) => [a]
    case CallOp(_, ids, _) => ids
  }

  function Find(symbols: seq<FuncOp>, name: string): Option<nat> {
    FindFrom(symbols, name, 0)
  }

  /** The first symbol of that name: lookupSymbol. */
  function FindFrom(symbols: seq<FuncOp>, name: string, i: nat): (r: Option<nat>)
    requires i <= |symbols|
    ensures r.Some? ==> i <= r.value < |symbols| && symbols[r.value].name == name
    ensures r.Some? ==> forall j :: i <= j < r.value ==> symbols[j].name != name
    ensures r.None? ==> forall j :: i <= j < |symbols| ==> symbols[j].name != name
    decreases |symbols| - i
  {
    if i == |symbols| then None
    else if symbols[i].name == name then Some(i)
    else FindFrom(symbols, name, i + 1)
  }

  lemma {:induction false} FindFromAppended(symbols: seq<FuncOp>, extra: FuncOp, name: string, i: nat)
    requires i <= |symbols|
    ensures FindFrom(symbols + [extra], name, i)
         == if FindFrom(symbols, name, i).Some? then FindFrom(symbols, name, i)
            else if extra.name == name then Some(|symbols|) else None
    decreases |symbols| - i
  {
    if i < |symbols| && symbols[i].name != name {
      FindFromAppended(symbols, extra, name, i + 1);
    }
  }

  predicate DefinedBefore(op: Op, bound: nat) {
    forall i :: 0 <= i < |Operands(op)| ==> Operands(op)[i] < bound
  }

  /** Every operand is defined earlier in the same function and every callee is declared. */
  ghost predicate WellFormed(ops: seq<Op>, params: nat, symbols: seq<FuncOp>) {
    forall i :: 0 <= i < |ops| ==>
      DefinedBefore(ops[i], params + i) && (ops[i].CallOp? ==> Find(symbols, ops[i].callee).Some?)
  }

  /** Later declarations come behind the earlier ones, whose signatures stay as they were. */
  ghost predicate SameSignatures(before: seq<FuncOp>, after: seq<FuncOp>) {
    && |before| <= |after|
    && forall i :: 0 <= i < |before| ==> after[i].(body := before[i].body) == before[i]
  }

  lemma FindKept(before: seq<FuncOp>, after: seq<FuncOp>, name: string)
    requires SameSignatures(before, after) && Find(before, name).Some?
    ensures Find(after, name) == Find(before, name)
  {
    var i := Find(before, name).value;
    assert after[i].name == name;
    forall j | 0 <= j < i
      ensures after[j].name != name
    {
      assert before[j].name != name;
    }
  }

  ghost predicate DistinctNames(symbols: seq<FuncOp>) {
    forall i, j :: 0 <= i < j < |symbols| ==> symbols[i].name != symbols[j].name
  }
}
