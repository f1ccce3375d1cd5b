/** The bookkeeping of the tiered JIT as a state machine. */
module Jit {
  import opened Bytes
  import opened JumpPatch
  import opened Options

  /** A function of a module handed to the JIT; `code` identifies its definition. */
  datatype Fn = Fn(name: string, isDeclaration: bool, isExternal: bool, code: int)

  datatype Saved = Saved(name: string, code: int)

  /** Machine code placed in memory: which definition it was compiled from, and its bytes. */
  datatype Region = Region(addr: int, bytes: seq<Byte>, name: string, code: int)

  datatype State = State(
    functionPtrs: map<string, int>,
    promotedPtrs: map<string, int>,
    callCounts: map<string, nat>,
    savedModules: seq<Saved>,
    moduleSymbols: set<string>,
    threshold: int,
    // what the linker holds: external definitions, host symbols, placed code and memory
    linked: map<string, int>,
    host: map<string, int>,
    regions: seq<Region>,
    memory: Memory)

  const DEFAULT_HOT_THRESHOLD := 10

  /** Nothing added yet; the process has symbols of its own. */
  function Initial(host: map<string, int>): State {
    State(map[], map[], map[], [], {}, DEFAULT_HOT_THRESHOLD, map[], host, [], map[])
  }

  /** Where the compiler puts a function, and the bytes it emits for it. */
  datatype Placement = Placement(addr: int, bytes: seq<Byte>)

  /** The outcome of the foreign steps of a promotion. */
  datatype Recompilation = Recompilation(compiles: bool, place: Placement, unprotects: bool)

  const ANON := "anon_expr"

  predicate IsAnon(name: string) {
    exists i :: 0 <= i <= |name| - |ANON| && OccursAt(name, i)
  }

  predicate OccursAt(name: string, i: nat)
    requires i + |ANON| <= |name|
  {
    name[i..i + |ANON|] == ANON
  }

  predicate IsDefinition(f: Fn) {
    !f.isDeclaration && f.isExternal && f.name != ""
  }

  predicate IsUserDefinition(f: Fn) {
    IsDefinition(f) && !IsAnon(f.name)
  }

  // ----- Adding a module

  /** Definitions the JIT already has become private to their module. */
  function Internalized(f: Fn, symbols: set<string>): Fn {
    if IsUserDefinition(f) && f.name in symbols then f.(isExternal := false) else f
  }

  function InternalizeAll(fns: seq<Fn>, symbols: set<string>): seq<Fn> {
    seq(|fns|, i requires 0 <= i < |fns| => Internalized(fns[i], symbols))
  }

  function SaveEach(fns: seq<Fn>, count: nat): seq<Saved>
    requires count <= |fns|
  {
    if count == 0 then []
    else SaveEach(fns, count - 1) + if IsUserDefinition(fns[count - 1]) then [Saved(fns[count - 1].name, fns[count - 1].code)] else []
  }

  function UserNames(fns: seq<Fn>, count: nat): seq<string>
    requires count <= |fns|
  {
    if count == 0 then []
    else UserNames(fns, count - 1) + if IsUserDefinition(fns[count - 1]) then [fns[count - 1].name] else []
  }

  function LinkEach(linked: map<string, int>, fns: seq<Fn>, count: nat): map<string, int>
    requires count <= |fns|
  {
    if count == 0 then linked
    else if IsDefinition(fns[count - 1]) then LinkEach(linked, fns, count - 1)[fns[count - 1].name := fns[count - 1].code]
    else LinkEach(linked, fns, count - 1)
  }

  function ZeroEach(counts: map<string, nat>, names: seq<string>): map<string, nat> {
    if names == [] then counts else ZeroEach(counts, names[..|names| - 1])[names[|names| - 1] := 0]
  }

  /** The saved copies are taken before the module is known to be valid and accepted. */
  function AddModule(st: State, fns: seq<Fn>, valid: bool, accepted: bool): State {
    var own := InternalizeAll(fns, st.moduleSymbols);
    var saved := st.(savedModules := st.savedModules + SaveEach(own, |own|));
    if !valid || !accepted then saved
    else
      var names := UserNames(own, |own|);
      saved.(moduleSymbols := st.moduleSymbols + (set n | n in names),
             callCounts := ZeroEach(st.callCounts, names),
             linked := LinkEach(st.linked, own, |own|))
  }

  // ----- Promotion

  function FirstSaved(saved: seq<Saved>, name: string): Option<int> {
    if saved == [] then None
    else if saved[0].name == name then Some(saved[0].code)
    else FirstSaved(saved[1..], name)
  }

  /** The result of a redirect: whether the jump was written, and memory afterwards. */
  function Redirect(mem: Memory, src: int, dst: int, unprotects: bool): (bool, Memory) {
    var delta := dst - (src + JMP_LENGTH);
    if src == 0 || dst == 0 || !InReach(delta) || !unprotects then (false, mem)
    else (true, Write(mem, src, JumpBytes(delta)))
  }

  function Place(st: State, name: string, code: int, p: Placement): State {
    st.(regions := st.regions + [Region(p.addr, p.bytes, name, code)], memory := Write(st.memory, p.addr, p.bytes))
  }

  function Promote(st: State, name: string, r: Recompilation): (State, Option<int>) {
    if name in st.promotedPtrs then (st, Some(st.promotedPtrs[name]))
    else
      match FirstSaved(st.savedModules, name)
      case None => (st, None)
      case Some(code) =>
        if !r.compiles then (st, None)
        else
          var ptr := r.place.addr;
          var placed := Place(st, name, code, r.place).(promotedPtrs := st.promotedPtrs[name := ptr],
                                                        functionPtrs := st.functionPtrs[name := ptr]);
          if name in st.functionPtrs && st.functionPtrs[name] != 0 && st.functionPtrs[name] != ptr then
            (placed.(memory := Redirect(placed.memory, st.functionPtrs[name], ptr, r.unprotects).1), Some(ptr))
          else (placed, Some(ptr))
  }

  // ----- Looking up

  /** The pointer cache, then the linker, which may fail to compile the name (no placement), then the process. */
  function Find(st: State, name: string, p: Option<Placement>): (State, Option<int>) {
    if name in st.functionPtrs then (st, Some(st.functionPtrs[name]))
    else if name in st.linked && p.Some? then
      (Place(st, name, st.linked[name], p.value).(functionPtrs := st.functionPtrs[name := p.value.addr]), Some(p.value.addr))
    else if name in st.host && st.host[name] != 0 then (st.(functionPtrs := st.functionPtrs[name := st.host[name]]), Some(st.host[name]))
    else (st, None)
  }

  /** Counting and, from the threshold on, promoting. */
  function Count(st: State, name: string, ptr: int, r: Recompilation): (State, int) {
    if name !in st.callCounts then (st, ptr)
    else
      var counted := st.(callCounts := st.callCounts[name := st.callCounts[name] + 1]);
      if st.threshold > 0 && counted.callCounts[name] >= st.threshold && name !in st.promotedPtrs then
        var (after, promoted) := Promote(counted, name, r);
        (after, if promoted.Some? && promoted.value != 0 then promoted.value else ptr)
      else (counted, ptr)
  }

  function Lookup(st: State, name: string, p: Option<Placement>, r: Recompilation): (State, Option<int>) {
    var (found, ptr) := Find(st, name, p);
    if ptr.None? then (found, None)
    else var (after, a) := Count(found, name, ptr.value, r); (after, Some(a))
  }

  function ResetCounts(st: State): State {
    st.(callCounts := map n | n in st.callCounts :: 0)
  }

  function RegisterFunction(st: State, name: string, ptr: int): State {
    st.(functionPtrs := st.functionPtrs[name := ptr], host := st.host[name := ptr],
        moduleSymbols := st.moduleSymbols + {name})
  }

  // ----- Runs

  datatype Event =
    | Add(fns: seq<Fn>, valid: bool, accepted: bool)
    | GetPointer(name: string, place: Option<Placement>, recompilation: Recompilation)
    | PromoteNow(name: string, recompilation: Recompilation)
    | Reset
    | SetThreshold(n: int)
    | Register(name: string, ptr: int)

  /** The next state, and the address handed out with the name it was asked under. */
  function Step(st: State, e: Event): (State, Option<int>) {
    match e
    case Add(fns, valid, accepted) => (AddModule(st, fns, valid, accepted), None)
    case GetPointer(name, p, r) => Lookup(st, name, p, r)
    case PromoteNow(name, r) => Promote(st, name, r)
    case Reset => (ResetCounts(st), None)
    case SetThreshold(n) => (st.(threshold := n), None)
    case Register(name, ptr) => (RegisterFunction(st, name, ptr), None)
  }

  function AskedName(e: Event): string {
    match e case GetPointer(name, _, _) => name case PromoteNow(name, _) => name case _ => ""
  }

  /** Every address handed out so far for a linked name. */
  type Issued = set<(string, int)>

  datatype Run = Run(state: State, issued: Issued)

  function Advance(run: Run, e: Event): Run {
    var (after, ptr) := Step(run.state, e);
    Run(after, if ptr.Some? && AskedName(e) in after.linked then run.issued + {(AskedName(e), ptr.value)} else run.issued)
  }

  /** A run in a process with the symbols `host`. */
  function RunAll(host: map<string, int>, events: seq<Event>): Run {
    if events == [] then Run(Initial(host), {}) else Advance(RunAll(host, events[..|events| - 1]), events[|events| - 1])
  }
}
