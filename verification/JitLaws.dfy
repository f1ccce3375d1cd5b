/** Every address the JIT ever hands out keeps running the code of its name. */
module JitLaws {
  import opened Bytes
  import opened JumpPatch
  import opened Options
  import opened Jit

  // ----- Code in memory

  predicate Apart(r: Region, q: Region) {
    r.addr + |r.bytes| <= q.addr || q.addr + |q.bytes| <= r.addr
  }

  /** The assumption about the compiler: bodies of at least five bytes, none overlapping another. */
  ghost predicate WellPlaced(regions: seq<Region>) {
    && (forall i :: 0 <= i < |regions| ==> |regions[i].bytes| >= JMP_LENGTH && regions[i].addr != 0)
    && (forall i, j :: 0 <= i < j < |regions| ==> Apart(regions[i], regions[j]))
  }

  ghost predicate IsFree(regions: seq<Region>, p: Placement) {
    && |p.bytes| >= JMP_LENGTH && p.addr != 0
    && forall i :: 0 <= i < |regions| ==> Apart(regions[i], Region(p.addr, p.bytes, "", 0))
  }

  ghost predicate Intact(mem: Memory, r: Region) {
    forall x :: r.addr <= x < r.addr + |r.bytes| ==> x in mem && mem[x] == r.bytes[x - r.addr]
  }

  /** Nothing in the region has been written. */
  ghost predicate Untouched(before: Memory, after: Memory, r: Region) {
    forall x :: r.addr <= x < r.addr + |r.bytes| && x in before ==> x in after && after[x] == before[x]
  }

  /** The region holds the definition that `name` is linked to. */
  predicate Belongs(st: State, name: string, a: int, i: nat)
    requires i < |st.regions|
  {
    var r := st.regions[i];
    r.addr == a && r.name == name && name in st.linked && r.code == st.linked[name]
  }

  /** At `a` stands, unpatched, the code of the name's definition. */
  ghost predicate RunsDirectly(st: State, name: string, a: int) {
    exists i :: 0 <= i < |st.regions| && Belongs(st, name, a, i) && Intact(st.memory, st.regions[i])
  }

  /** At `a` stood the code of the name's definition, and now a jump to its promoted code, which stands unpatched. */
  ghost predicate RunsByJump(st: State, name: string, a: int) {
    && name in st.promotedPtrs
    && JumpTarget(st.memory, a) == Some(st.promotedPtrs[name])
    && RunsDirectly(st, name, st.promotedPtrs[name])
    && exists i :: 0 <= i < |st.regions| && Belongs(st, name, a, i)
  }

  /** Calling `a` runs the definition `name` is linked to, after at most one jump. */
  ghost predicate Runs(st: State, name: string, a: int) {
    RunsDirectly(st, name, a) || RunsByJump(st, name, a)
  }

  // ----- The invariant

  ghost predicate PointersRun(st: State) {
    && (forall n :: n in st.functionPtrs && n in st.linked ==> Runs(st, n, st.functionPtrs[n]))
    && (forall n :: n in st.promotedPtrs ==>
          && n in st.linked && n in st.functionPtrs
          && st.functionPtrs[n] == st.promotedPtrs[n]
          && RunsDirectly(st, n, st.promotedPtrs[n]))
  }

  /** The first saved copy of a linked user function is its definition. */
  ghost predicate SavedAreLinked(st: State) {
    && (forall n :: n in st.linked && !IsAnon(n) ==>
          n in st.moduleSymbols && FirstSaved(st.savedModules, n) == Some(st.linked[n]))
    && (forall i :: 0 <= i < |st.savedModules| ==> !IsAnon(st.savedModules[i].name))
    && (forall n :: n in st.callCounts ==> n in st.linked && !IsAnon(n))
  }

  ghost predicate Inv(run: Run) {
    && WellPlaced(run.state.regions)
    && PointersRun(run.state)
    && SavedAreLinked(run.state)
    && forall p :: p in run.issued ==> Runs(run.state, p.0, p.1)
  }

  // ----- What a run must not do

  ghost predicate DistinctFns(fns: seq<Fn>) {
    forall i, j :: 0 <= i < j < |fns| ==> fns[i].name != fns[j].name
  }

  /** An accepted module has a fresh name for its anonymous expression and defines no name that has been answered for. */
  ghost predicate MayLink(st: State, fns: seq<Fn>) {
    && DistinctFns(fns)
    && forall i :: 0 <= i < |fns| && IsDefinition(Internalized(fns[i], st.moduleSymbols)) ==>
         (IsAnon(fns[i].name) ==> fns[i].name !in st.linked) && fns[i].name !in st.functionPtrs
  }

  /** No rejected module has left a saved copy of another definition of a name that the module defines. */
  ghost predicate SavedAgree(st: State, fns: seq<Fn>) {
    forall i :: 0 <= i < |fns| && IsDefinition(Internalized(fns[i], st.moduleSymbols)) ==>
      FirstSaved(st.savedModules, fns[i].name) in {None, Some(fns[i].code)}
  }

  ghost predicate MayAdd(st: State, fns: seq<Fn>) {
    MayLink(st, fns) && SavedAgree(st, fns)
  }

  /** A linked name is compiled at a free place, or the process has no symbol to fall back to. */
  ghost predicate MayFind(st: State, name: string, p: Option<Placement>) {
    name !in st.functionPtrs && name in st.linked ==>
      if p.Some? then IsFree(st.regions, p.value) else name !in st.host || st.host[name] == 0
  }

  /** What a run may do next, whatever copies have been saved. */
  ghost predicate MayHappen(st: State, e: Event) {
    match e
    case Add(fns, valid, accepted) => valid && accepted ==> MayLink(st, fns)
    case GetPointer(name, p, r) => MayFind(st, name, p) && IsFree(Find(st, name, p).0.regions, r.place)
    case PromoteNow(name, r) => name in st.linked && IsFree(st.regions, r.place)
    case Reset => true
    case SetThreshold(_) => true
    case Register(name, _) => name !in st.linked
  }

  ghost predicate Allowed(st: State, e: Event) {
    MayHappen(st, e) && (e.Add? && e.valid && e.accepted ==> SavedAgree(st, e.fns))
  }

  /** A run in which every step may happen, whatever copies rejected modules have left. */
  ghost predicate Possible(host: map<string, int>, events: seq<Event>) {
    events != [] ==>
      Possible(host, events[..|events| - 1]) && MayHappen(RunAll(host, events[..|events| - 1]).state, events[|events| - 1])
  }

  ghost predicate Legal(host: map<string, int>, events: seq<Event>) {
    events != [] ==>
      Legal(host, events[..|events| - 1]) && Allowed(RunAll(host, events[..|events| - 1]).state, events[|events| - 1])
  }

  // ----- Memory lemmas

  lemma JumpStands(before: Memory, after: Memory, r: Region)
    requires Untouched(before, after, r) && |r.bytes| >= JMP_LENGTH && JumpTarget(before, r.addr).Some?
    ensures JumpTarget(after, r.addr) == JumpTarget(before, r.addr)
  {
  }

  lemma IntactStands(before: Memory, after: Memory, r: Region)
    requires Untouched(before, after, r) && Intact(before, r)
    ensures Intact(after, r)
  {
  }

  lemma WriteElsewhere(mem: Memory, a: int, bytes: seq<Byte>, r: Region)
    requires a + |bytes| <= r.addr || r.addr + |r.bytes| <= a
    ensures Untouched(mem, Write(mem, a, bytes), r)
  {
  }

  /** A later state in which the name's link, its promotion and its own regions are as before. */
  ghost predicate KeepsName(st: State, after: State, name: string) {
    && st.regions <= after.regions
    && (name in st.linked ==> name in after.linked && after.linked[name] == st.linked[name])
    && (name in st.promotedPtrs ==> name in after.promotedPtrs && after.promotedPtrs[name] == st.promotedPtrs[name])
    && forall i :: 0 <= i < |st.regions| && st.regions[i].name == name ==> Untouched(st.memory, after.memory, st.regions[i])
  }

  lemma RunsDirectlyStill(st: State, after: State, name: string, a: int)
    requires KeepsName(st, after, name) && RunsDirectly(st, name, a)
    ensures RunsDirectly(after, name, a)
  {
    var i :| 0 <= i < |st.regions| && Belongs(st, name, a, i) && Intact(st.memory, st.regions[i]);
    IntactStands(st.memory, after.memory, st.regions[i]);
    assert Belongs(after, name, a, i);
  }

  lemma RunsStill(st: State, after: State, name: string, a: int)
    requires KeepsName(st, after, name) && WellPlaced(st.regions) && Runs(st, name, a)
    ensures Runs(after, name, a)
  {
    if RunsDirectly(st, name, a) {
      RunsDirectlyStill(st, after, name, a);
    } else {
      var i :| 0 <= i < |st.regions| && Belongs(st, name, a, i);
      JumpStands(st.memory, after.memory, st.regions[i]);
      assert Belongs(after, name, a, i);
      RunsDirectlyStill(st, after, name, st.promotedPtrs[name]);
    }
  }

  lemma PlaceKeeps(st: State, name: string, code: int, p: Placement)
    requires WellPlaced(st.regions) && IsFree(st.regions, p)
    ensures WellPlaced(Place(st, name, code, p).regions)
    ensures forall n :: KeepsName(st, Place(st, name, code, p), n)
    ensures name in st.linked && st.linked[name] == code ==> RunsDirectly(Place(st, name, code, p), name, p.addr)
  {
    var after := Place(st, name, code, p);
    forall i | 0 <= i < |st.regions|
      ensures Untouched(st.memory, after.memory, st.regions[i])
      ensures Apart(st.regions[i], after.regions[|st.regions|])
    {
      assert Apart(st.regions[i], Region(p.addr, p.bytes, "", 0));
      WriteElsewhere(st.memory, p.addr, p.bytes, st.regions[i]);
    }
    assert Intact(after.memory, after.regions[|st.regions|]);
    if name in st.linked && st.linked[name] == code {
      assert Belongs(after, name, p.addr, |st.regions|);
    }
  }

  /** Patching the start of one region touches no other. */
  lemma PatchKeeps(regions: seq<Region>, mem: Memory, k: nat, dst: int, unprotects: bool)
    requires WellPlaced(regions) && k < |regions|
    ensures forall i :: 0 <= i < |regions| && i != k ==>
              Untouched(mem, Redirect(mem, regions[k].addr, dst, unprotects).1, regions[i])
  {
    var src := regions[k].addr;
    forall i | 0 <= i < |regions| && i != k
      ensures Untouched(mem, Redirect(mem, src, dst, unprotects).1, regions[i])
    {
      assert Apart(regions[i], regions[k]) || Apart(regions[k], regions[i]);
      WriteElsewhere(mem, src, JumpBytes(dst - (src + JMP_LENGTH)), regions[i]);
    }
  }

  /** A redirect either leaves memory alone or makes the old address jump to the new one. */
  lemma RedirectJumps(mem: Memory, src: int, dst: int, unprotects: bool)
    ensures var (ok, after) := Redirect(mem, src, dst, unprotects);
            (ok ==> JumpTarget(after, src) == Some(dst)) && (!ok ==> after == mem)
  {
    if InReach(dst - (src + JMP_LENGTH)) {
      PatchJumpsTo(mem, src, dst);
    }
  }

  /** A redirect happens exactly between two addresses within a signed 32-bit distance, once the page is writable. */
  lemma RedirectSucceedsExactly(mem: Memory, src: int, dst: int, unprotects: bool)
    ensures Redirect(mem, src, dst, unprotects).0 <==>
              src != 0 && dst != 0 && -0x8000_0000 <= dst - (src + 5) <= 0x7FFF_FFFF && unprotects
  {
    hide Write, JumpBytes;
  }

  // ----- Every step keeps the invariant

  /** Whatever ran its name's code before still does. */
  ghost predicate StillRuns(st: State, after: State) {
    forall n, a :: Runs(st, n, a) ==> Runs(after, n, a)
  }

  lemma KeptNamesRun(st: State, after: State)
    requires WellPlaced(st.regions) && forall n :: KeepsName(st, after, n)
    ensures StillRuns(st, after)
    ensures forall n, a :: RunsDirectly(st, n, a) ==> RunsDirectly(after, n, a)
  {
    hide KeepsName, Runs, RunsDirectly;
    forall n, a | Runs(st, n, a)
      ensures Runs(after, n, a)
    {
      RunsStill(st, after, n, a);
    }
    forall n, a | RunsDirectly(st, n, a)
      ensures RunsDirectly(after, n, a)
    {
      RunsDirectlyStill(st, after, n, a);
    }
  }

  lemma {:induction false} FirstSavedIsSaved(saved: seq<Saved>, name: string)
    ensures FirstSaved(saved, name).Some? ==> exists i :: 0 <= i < |saved| && saved[i].name == name
  {
    if saved != [] && saved[0].name != name {
      FirstSavedIsSaved(saved[1..], name);
      if FirstSaved(saved, name).Some? {
        var i :| 0 <= i < |saved[1..]| && saved[1..][i].name == name;
        assert saved[i + 1].name == name;
      }
    }
  }

  /** What is promoted is the definition the name is linked to. */
  lemma SavedCodeIsLinked(st: State, name: string)
    requires SavedAreLinked(st) && name in st.linked && FirstSaved(st.savedModules, name).Some?
    ensures FirstSaved(st.savedModules, name) == Some(st.linked[name])
  {
    FirstSavedIsSaved(st.savedModules, name);
  }

  /** The promoted code in place and in the pointer maps, before old callers are redirected. */
  function Promoted(st: State, name: string, p: Placement): State
    requires name in st.linked
  {
    Place(st, name, st.linked[name], p).(promotedPtrs := st.promotedPtrs[name := p.addr],
                                         functionPtrs := st.functionPtrs[name := p.addr])
  }

  lemma PromotedStands(st: State, name: string, p: Placement)
    requires WellPlaced(st.regions) && IsFree(st.regions, p)
    requires name in st.linked && name !in st.promotedPtrs
    ensures var after := Promoted(st, name, p);
            && WellPlaced(after.regions)
            && (forall n :: KeepsName(st, after, n))
            && RunsDirectly(after, name, p.addr)
  {
    var placed, after := Place(st, name, st.linked[name], p), Promoted(st, name, p);
    PlaceKeeps(st, name, st.linked[name], p);
    forall n
      ensures KeepsName(st, after, n)
    {
      assert KeepsName(st, placed, n);
    }
    var i :| 0 <= i < |placed.regions| && Belongs(placed, name, p.addr, i) && Intact(placed.memory, placed.regions[i]);
    assert Belongs(after, name, p.addr, i);
  }

  lemma PromotedRuns(st: State, name: string, p: Placement)
    requires WellPlaced(st.regions) && PointersRun(st) && IsFree(st.regions, p)
    requires name in st.linked && name !in st.promotedPtrs
    ensures PointersRun(Promoted(st, name, p)) && StillRuns(st, Promoted(st, name, p))
    ensures forall n, a :: RunsDirectly(st, n, a) ==> RunsDirectly(Promoted(st, name, p), n, a)
  {
    hide *;
    PromotedStands(st, name, p);
    KeptNamesRun(st, Promoted(st, name, p));
    PointersOf(st, name, p);
    PointersStillRun(st, Promoted(st, name, p), name, p.addr);
  }

  /** One more pointer, to unpatched code of its own name. */
  lemma PointersStillRun(st: State, after: State, name: string, a: int)
    requires PointersRun(st) && StillRuns(st, after) && after.linked == st.linked
    requires forall n, x :: RunsDirectly(st, n, x) ==> RunsDirectly(after, n, x)
    requires name in st.linked && RunsDirectly(after, name, a) && name !in st.promotedPtrs
    requires after.functionPtrs == st.functionPtrs[name := a]
    requires after.promotedPtrs == st.promotedPtrs || after.promotedPtrs == st.promotedPtrs[name := a]
    ensures PointersRun(after)
  {
    hide RunsDirectly, RunsByJump;
    forall n | n in after.functionPtrs && n in after.linked
      ensures Runs(after, n, after.functionPtrs[n])
    {
      if n != name {
        assert Runs(st, n, st.functionPtrs[n]);
      }
    }
    forall n | n in after.promotedPtrs
      ensures n in after.linked && n in after.functionPtrs && after.functionPtrs[n] == after.promotedPtrs[n]
      ensures RunsDirectly(after, n, after.promotedPtrs[n])
    {
      if n != name {
        assert RunsDirectly(st, n, st.promotedPtrs[n]);
      }
    }
  }

  lemma PointersOf(st: State, name: string, p: Placement)
    requires name in st.linked
    ensures var after := Promoted(st, name, p);
            && after.functionPtrs == st.functionPtrs[name := p.addr]
            && after.promotedPtrs == st.promotedPtrs[name := p.addr]
            && after.linked == st.linked
            && after.callCounts == st.callCounts
            && after.savedModules == st.savedModules
            && after.moduleSymbols == st.moduleSymbols
            && after.threshold == st.threshold
  {
  }

  /** The patch that sends the old address of `name` to its promoted code. */
  lemma PatchRuns(st: State, name: string, src: int, dst: int, unprotects: bool)
    requires WellPlaced(st.regions) && RunsDirectly(st, name, src)
    requires name in st.promotedPtrs && st.promotedPtrs[name] == dst && src != dst && RunsDirectly(st, name, dst)
    ensures var after := st.(memory := Redirect(st.memory, src, dst, unprotects).1);
            && (forall n, a :: RunsDirectly(st, n, a) && (n != name || a != src) ==> RunsDirectly(after, n, a))
            && (forall n, a :: Runs(st, n, a) && (n != name || RunsDirectly(st, n, a)) ==> Runs(after, n, a))
  {
    var (ok, mem) := Redirect(st.memory, src, dst, unprotects);
    var after := st.(memory := mem);
    var k :| 0 <= k < |st.regions| && Belongs(st, name, src, k) && Intact(st.memory, st.regions[k]);
    PatchKeeps(st.regions, st.memory, k, dst, unprotects);
    RedirectJumps(st.memory, src, dst, unprotects);
    assert Belongs(after, name, src, k);
    forall n, a | RunsDirectly(st, n, a) && (n != name || a != src)
      ensures RunsDirectly(after, n, a)
    {
      var i :| 0 <= i < |st.regions| && Belongs(st, n, a, i) && Intact(st.memory, st.regions[i]);
      IntactStands(st.memory, mem, st.regions[i]);
      assert Belongs(after, n, a, i);
    }
    forall n, a | Runs(st, n, a) && (n != name || RunsDirectly(st, n, a))
      ensures Runs(after, n, a)
    {
      if n != name {
        forall i | 0 <= i < |st.regions| && st.regions[i].name == n
          ensures Untouched(st.memory, mem, st.regions[i])
        {
        }
        RunsStill(st, after, n, a);
      } else if a == src {
        assert RunsDirectly(after, n, dst);
        assert ok ==> RunsByJump(after, n, a);
      }
    }
  }

  /** Promotion: every address that ran its code still does, and the one returned does. */
  lemma PromoteKeeps(st: State, name: string, r: Recompilation)
    requires WellPlaced(st.regions) && PointersRun(st) && SavedAreLinked(st)
    requires name in st.linked && IsFree(st.regions, r.place)
    ensures var (after, ptr) := Promote(st, name, r);
            && WellPlaced(after.regions) && PointersRun(after) && SavedAreLinked(after) && StillRuns(st, after)
            && after.linked == st.linked
            && (ptr.Some? ==> Runs(after, name, ptr.value))
  {
    if name !in st.promotedPtrs && FirstSaved(st.savedModules, name).Some? && r.compiles {
      SavedCodeIsLinked(st, name);
      PromotedStands(st, name, r.place);
      PromotedRuns(st, name, r.place);
      PointersOf(st, name, r.place);
      var promoted := Promoted(st, name, r.place);
      if name in st.functionPtrs && st.functionPtrs[name] != 0 && st.functionPtrs[name] != r.place.addr {
        RedirectedKeeps(st, promoted, name, st.functionPtrs[name], r.place.addr, r.unprotects);
      }
    }
  }

  /** A promotion sends the cached address to the promoted code, or leaves everything outside that code alone. */
  lemma PromotionRedirects(st: State, name: string, r: Recompilation)
    requires name !in st.promotedPtrs && FirstSaved(st.savedModules, name).Some? && r.compiles
    requires name in st.functionPtrs && st.functionPtrs[name] != 0 && r.place.addr != 0 && st.functionPtrs[name] != r.place.addr
    ensures var src, after := st.functionPtrs[name], Promote(st, name, r).0;
            if InReach(r.place.addr - (src + JMP_LENGTH)) && r.unprotects then JumpTarget(after.memory, src) == Some(r.place.addr)
            else after.memory == Write(st.memory, r.place.addr, r.place.bytes)
  {
    RedirectJumps(Write(st.memory, r.place.addr, r.place.bytes), st.functionPtrs[name], r.place.addr, r.unprotects);
    hide JumpTarget, Write, JumpBytes;
  }

  lemma RedirectedKeeps(st: State, promoted: State, name: string, src: int, dst: int, unprotects: bool)
    requires name !in st.promotedPtrs && name in st.linked && Runs(st, name, src) && src != dst
    requires WellPlaced(promoted.regions) && PointersRun(promoted) && StillRuns(st, promoted)
    requires forall n, a :: RunsDirectly(st, n, a) ==> RunsDirectly(promoted, n, a)
    requires name in promoted.promotedPtrs && promoted.promotedPtrs[name] == dst
    ensures var after := promoted.(memory := Redirect(promoted.memory, src, dst, unprotects).1);
            PointersRun(after) && StillRuns(st, after)
  {
    hide RunsDirectly, Redirect, WellPlaced;
    PatchRuns(promoted, name, src, dst, unprotects);
    var after := promoted.(memory := Redirect(promoted.memory, src, dst, unprotects).1);
    forall n | n in after.promotedPtrs
      ensures RunsDirectly(after, n, after.promotedPtrs[n])
    {
      assert RunsDirectly(promoted, n, promoted.promotedPtrs[n]);
    }
    forall n, a | Runs(st, n, a)
      ensures Runs(after, n, a)
    {
      if n == name {
        assert RunsDirectly(st, n, a);
      }
    }
    forall n | n in after.functionPtrs && n in after.linked
      ensures Runs(after, n, after.functionPtrs[n])
    {
      if n == name {
        assert promoted.functionPtrs[n] == dst;
      } else {
        assert Runs(promoted, n, promoted.functionPtrs[n]);
      }
    }
  }

  // ----- Looking up

  lemma FindKeeps(st: State, name: string, p: Option<Placement>)
    requires WellPlaced(st.regions) && PointersRun(st) && SavedAreLinked(st) && MayFind(st, name, p)
    ensures var (after, ptr) := Find(st, name, p);
            && WellPlaced(after.regions) && PointersRun(after) && SavedAreLinked(after) && StillRuns(st, after)
            && after.linked == st.linked && after.callCounts == st.callCounts && after.promotedPtrs == st.promotedPtrs
            && (ptr.Some? && name in st.linked ==> Runs(after, name, ptr.value))
  {
    hide Runs, RunsDirectly, WellPlaced, IsFree, FirstSaved, IsAnon, StillRuns, Write;
    EveryoneRuns(st);
    if name !in st.functionPtrs {
      if name in st.linked && p.Some? {
        PlacedIsFound(st, name, p.value);
      } else if name in st.host && st.host[name] != 0 {
        HostIsFound(st, name, st.host[name]);
      }
    }
  }

  lemma EveryoneRuns(st: State)
    ensures StillRuns(st, st)
  {
  }

  /** A pointer for a name the linker does not have concerns no linked name. */
  lemma HostIsFound(st: State, name: string, ptr: int)
    requires PointersRun(st) && name !in st.linked
    ensures var after := st.(functionPtrs := st.functionPtrs[name := ptr]);
            PointersRun(after) && StillRuns(st, after)
  {
    hide Runs, RunsDirectly;
    SameMemory(st, st.(functionPtrs := st.functionPtrs[name := ptr]));
  }

  lemma PlacedIsFound(st: State, name: string, p: Placement)
    requires WellPlaced(st.regions) && PointersRun(st) && IsFree(st.regions, p)
    requires name in st.linked && name !in st.functionPtrs
    ensures var after := Place(st, name, st.linked[name], p).(functionPtrs := st.functionPtrs[name := p.addr]);
            && WellPlaced(after.regions) && PointersRun(after) && StillRuns(st, after)
            && Runs(after, name, p.addr)
  {
    var placed := Place(st, name, st.linked[name], p);
    var after := placed.(functionPtrs := st.functionPtrs[name := p.addr]);
    PlaceKeeps(st, name, st.linked[name], p);
    hide IsFree, WellPlaced, Write;
    forall n
      ensures KeepsName(st, after, n)
    {
      assert KeepsName(st, placed, n);
    }
    KeptNamesRun(st, after);
    SameMemory(placed, after);
    hide Runs, RunsDirectly, KeepsName, StillRuns;
    assert Runs(after, name, p.addr) by {
      DirectRuns(after, name, p.addr);
    }
    PointersStillRun(st, after, name, p.addr);
  }

  lemma DirectRuns(st: State, name: string, a: int)
    requires RunsDirectly(st, name, a)
    ensures Runs(st, name, a)
  {
  }

  /** Runs depends on the links, the promotions, the regions and memory only. */
  lemma SameMemory(st: State, after: State)
    requires after.linked == st.linked && after.promotedPtrs == st.promotedPtrs
    requires after.regions == st.regions && after.memory == st.memory
    ensures forall n, a :: (Runs(st, n, a) <==> Runs(after, n, a)) && (RunsDirectly(st, n, a) <==> RunsDirectly(after, n, a))
  {
    forall n, a
      ensures Runs(st, n, a) <==> Runs(after, n, a)
      ensures RunsDirectly(st, n, a) <==> RunsDirectly(after, n, a)
    {
      assert forall i :: 0 <= i < |st.regions| ==> Belongs(st, n, a, i) == Belongs(after, n, a, i);
    }
  }
}
