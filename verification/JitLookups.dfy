/** What the first lookup of a newly linked name hands out, and when that is not the name's definition. */
module JitLookups {
  import opened Bytes
  import opened JumpPatch
  import opened Options
  import opened Jit
  import opened JitLaws
  import opened JitRuns

  // ----- Code is placed for linked names only

  ghost predicate RegionsAreLinked(st: State) {
    forall i :: 0 <= i < |st.regions| ==> st.regions[i].name in st.linked
  }

  lemma PromoteAddsRegion(st: State, name: string, r: Recompilation)
    ensures var after := Promote(st, name, r).0;
            forall i :: 0 <= i < |after.regions| ==> after.regions[i] in st.regions || after.regions[i].name == name
  {
    hide Write, Redirect, FirstSaved;
  }

  lemma FindAddsRegion(st: State, name: string, p: Option<Placement>)
    ensures var after := Find(st, name, p).0;
            forall i :: 0 <= i < |after.regions| ==>
              after.regions[i] in st.regions || (after.regions[i].name == name && name in st.linked)
  {
    hide Write;
  }

  lemma LookupAddsRegion(st: State, name: string, p: Option<Placement>, r: Recompilation)
    requires name in st.callCounts ==> name in st.linked
    ensures var after := Lookup(st, name, p, r).0;
            forall i :: 0 <= i < |after.regions| ==>
              after.regions[i] in st.regions || (after.regions[i].name == name && name in st.linked)
  {
    hide Promote, Find;
    var (found, ptr) := Find(st, name, p);
    FindAddsRegion(st, name, p);
    FindTouches(st, name, p);
    if ptr.Some? && name in found.callCounts {
      PromoteAddsRegion(found.(callCounts := found.callCounts[name := found.callCounts[name] + 1]), name, r);
    }
  }

  lemma StepPlacesLinked(st: State, e: Event)
    requires Sound(st) && Allowed(st, e) && (e.Add? ==> DistinctFns(e.fns)) && RegionsAreLinked(st)
    ensures RegionsAreLinked(Step(st, e).0)
  {
    StepKeeps(st, e);
    hide WellPlaced, PointersRun, StillRuns, Runs, Lookup, Promote, FirstSaved, IsAnon;
    match e
    case GetPointer(name, p, r) => LookupAddsRegion(st, name, p, r);
    case PromoteNow(name, r) => PromoteAddsRegion(st, name, r);
    case _ =>
  }

  lemma {:induction false} RunsPlaceLinked(host: map<string, int>, events: seq<Event>)
    requires Legal(host, events) && RealModules(events)
    ensures RegionsAreLinked(RunAll(host, events).state)
  {
    if events != [] {
      var before := events[..|events| - 1];
      RunsPlaceLinked(host, before);
      RunsKeepInvariant(host, before);
      StepPlacesLinked(RunAll(host, before).state, events[|events| - 1]);
    }
  }

  // ----- The first lookup after an addition

  /** Five bytes written at `a` do not touch the placement. */
  predicate IsClearOf(a: int, p: Placement) {
    a + JMP_LENGTH <= p.addr || p.addr + |p.bytes| <= a
  }

  lemma NowhereRuns(st: State, name: string, a: int)
    requires forall i :: 0 <= i < |st.regions| ==> st.regions[i].name != name || st.regions[i].addr != a
                                                   || (name in st.linked ==> st.regions[i].code != st.linked[name])
    ensures !Runs(st, name, a)
  {
  }

  /** Without a promotion: the address is the definition's exactly when it was compiled just now. */
  lemma FoundRunsExactly(st: State, name: string, p: Option<Placement>)
    requires WellPlaced(st.regions) && name in st.linked
    requires forall i :: 0 <= i < |st.regions| ==> st.regions[i].name != name
    requires name !in st.functionPtrs && p.Some? ==> IsFree(st.regions, p.value)
    ensures var (found, ptr) := Find(st, name, p);
            ptr.Some? ==> (Runs(found, name, ptr.value) <==> name !in st.functionPtrs && p.Some?)
  {
    var (found, ptr) := Find(st, name, p);
    hide Write, WellPlaced, IsFree;
    if name !in st.functionPtrs && p.Some? {
      PlaceKeeps(st, name, st.linked[name], p.value);
      hide RunsDirectly;
      RunsElsewhere(Place(st, name, st.linked[name], p.value), found, name, p.value.addr);
    } else if ptr.Some? {
      hide Runs;
      NowhereRuns(found, name, ptr.value);
    }
  }

  lemma RunsElsewhere(st: State, after: State, name: string, a: int)
    requires RunsDirectly(st, name, a)
    requires after.linked == st.linked && after.regions == st.regions && after.memory == st.memory
    ensures Runs(after, name, a)
  {
    var i :| 0 <= i < |st.regions| && Belongs(st, name, a, i) && Intact(st.memory, st.regions[i]);
    assert Belongs(after, name, a, i);
  }

  /** The first lookup's promotion, region by region. */
  lemma PromotedRegion(st: State, name: string, r: Recompilation)
    requires name !in st.promotedPtrs && FirstSaved(st.savedModules, name).Some? && r.compiles
    requires name in st.functionPtrs && IsClearOf(st.functionPtrs[name], r.place)
    ensures var (after, ptr) := Promote(st, name, r);
            var region := Region(r.place.addr, r.place.bytes, name, FirstSaved(st.savedModules, name).value);
            && ptr == Some(r.place.addr) && after.linked == st.linked
            && after.regions == st.regions + [region]
            && Intact(after.memory, region)
  {
    var src := st.functionPtrs[name];
    var after := Promote(st, name, r).0;
    var placed := Write(st.memory, r.place.addr, r.place.bytes);
    var region := Region(r.place.addr, r.place.bytes, name, FirstSaved(st.savedModules, name).value);
    hide FirstSaved;
    assert Intact(placed, region);
    if src != 0 && src != r.place.addr {
      WriteElsewhere(placed, src, JumpBytes(r.place.addr - (src + JMP_LENGTH)), region);
      IntactStands(placed, after.memory, region);
    }
  }

  lemma FreeIsElsewhere(regions: seq<Region>, p: Placement, i: nat)
    requires WellPlaced(regions) && IsFree(regions, p) && i < |regions|
    ensures regions[i].addr != p.addr
  {
    assert Apart(regions[i], Region(p.addr, p.bytes, "", 0));
  }

  /** With a promotion: the address is the definition's exactly when the first saved copy is. */
  lemma PromotedRunsExactly(st: State, name: string, r: Recompilation)
    requires name in st.linked && name !in st.promotedPtrs && FirstSaved(st.savedModules, name).Some? && r.compiles
    requires WellPlaced(st.regions) && IsFree(st.regions, r.place)
    requires name in st.functionPtrs && IsClearOf(st.functionPtrs[name], r.place)
    ensures var (after, ptr) := Promote(st, name, r);
            && ptr == Some(r.place.addr)
            && (Runs(after, name, r.place.addr) <==> FirstSaved(st.savedModules, name).value == st.linked[name])
  {
    PromotedRegion(st, name, r);
    var after := Promote(st, name, r).0;
    hide Promote, FirstSaved, WellPlaced, IsFree;
    if FirstSaved(st.savedModules, name).value == st.linked[name] {
      assert Belongs(after, name, r.place.addr, |st.regions|);
    } else {
      forall i | 0 <= i < |st.regions|
        ensures after.regions[i].addr != r.place.addr
      {
        FreeIsElsewhere(st.regions, r.place, i);
      }
      NowhereRuns(after, name, r.place.addr);
    }
  }

  /** The lookup counts once, and promotes at a threshold of 1. */
  predicate PromotesAtOnce(threshold: int, r: Recompilation) {
    threshold == 1 && r.compiles
  }

  /** Counting a lookup that does not promote. */
  lemma CountOnly(found: State, name: string, ptr: int, r: Recompilation)
    requires name in found.callCounts && found.callCounts[name] == 0 && name !in found.promotedPtrs
    requires !PromotesAtOnce(found.threshold, r)
    ensures Count(found, name, ptr, r) == (found.(callCounts := found.callCounts[name := 1]), ptr)
  {
    if !r.compiles {
      NothingPromoted(found.(callCounts := found.callCounts[name := 1]), name, r);
    }
    hide Promote;
  }

  /** Counting a lookup that promotes. */
  lemma CountAndPromote(found: State, name: string, ptr: int, r: Recompilation)
    requires name in found.callCounts && found.callCounts[name] == 0 && name !in found.promotedPtrs
    requires PromotesAtOnce(found.threshold, r) && r.place.addr != 0
    requires Promote(found.(callCounts := found.callCounts[name := 1]), name, r).1 == Some(r.place.addr)
    ensures Count(found, name, ptr, r) == (Promote(found.(callCounts := found.callCounts[name := 1]), name, r).0, r.place.addr)
  {
    hide Promote;
  }

  /** Counting the first lookup, which found `ptr`. */
  lemma CountRunsExactly(found: State, name: string, ptr: int, r: Recompilation)
    requires WellPlaced(found.regions) && name in found.linked && name !in found.promotedPtrs
    requires name in found.callCounts && found.callCounts[name] == 0 && FirstSaved(found.savedModules, name).Some?
    requires IsFree(found.regions, r.place) && IsClearOf(ptr, r.place)
    requires name in found.functionPtrs && found.functionPtrs[name] == ptr
    ensures var (after, a) := Count(found, name, ptr, r);
            Runs(after, name, a) <==>
              if PromotesAtOnce(found.threshold, r) then FirstSaved(found.savedModules, name) == Some(found.linked[name])
              else Runs(found, name, ptr)
  {
    var counted := found.(callCounts := found.callCounts[name := 1]);
    if PromotesAtOnce(found.threshold, r) {
      FreeIsNotNull(found.regions, r.place);
      hide *;
      PromotedAtOnce(counted, name, r);
      CountAndPromote(found, name, ptr, r);
    } else {
      hide *;
      CountOnly(found, name, ptr, r);
      SameMemory(found, counted);
    }
  }

  lemma PromotedAtOnce(st: State, name: string, r: Recompilation)
    requires name in st.linked && name !in st.promotedPtrs && FirstSaved(st.savedModules, name).Some?
    requires WellPlaced(st.regions) && IsFree(st.regions, r.place) && PromotesAtOnce(st.threshold, r)
    requires name in st.functionPtrs && IsClearOf(st.functionPtrs[name], r.place)
    ensures var (after, ptr) := Promote(st, name, r);
            && ptr == Some(r.place.addr)
            && (Runs(after, name, r.place.addr) <==> FirstSaved(st.savedModules, name) == Some(st.linked[name]))
  {
    hide WellPlaced, IsFree, Promote, Runs, FirstSaved;
    PromotedRunsExactly(st, name, r);
  }

  /** What a lookup does for a name that is linked, not promoted and not yet counted. */
  lemma LookupRunsExactly(st: State, name: string, p: Option<Placement>, r: Recompilation)
    requires WellPlaced(st.regions) && name in st.linked && name !in st.promotedPtrs
    requires name in st.callCounts && st.callCounts[name] == 0 && FirstSaved(st.savedModules, name).Some?
    requires forall i :: 0 <= i < |st.regions| ==> st.regions[i].name != name
    requires name !in st.functionPtrs && p.Some? ==> IsFree(st.regions, p.value)
    requires IsFree(Find(st, name, p).0.regions, r.place)
    requires Find(st, name, p).1.Some? ==> IsClearOf(Find(st, name, p).1.value, r.place)
    ensures var (after, ptr) := Lookup(st, name, p, r);
            ptr.Some? ==>
              (Runs(after, name, ptr.value) <==>
                 if PromotesAtOnce(st.threshold, r) then FirstSaved(st.savedModules, name) == Some(st.linked[name])
                 else name !in st.functionPtrs && p.Some?)
  {
    FoundRunsExactly(st, name, p);
    FindTouches(st, name, p);
    FindCaches(st, name, p);
    hide Find, FirstSaved, WellPlaced, IsFree, Count, Runs;
    var (found, ptr) := Find(st, name, p);
    if ptr.Some? {
      CountRunsExactly(found, name, ptr.value, r);
    }
  }

  lemma NothingPromoted(st: State, name: string, r: Recompilation)
    requires name !in st.promotedPtrs && !r.compiles
    ensures Promote(st, name, r) == (st, None)
  {
  }

  lemma FreeIsNotNull(regions: seq<Region>, p: Placement)
    requires IsFree(regions, p)
    ensures p.addr != 0
  {
  }

  /** A pointer that has been found is the cached one, and code is placed where it was free. */
  lemma FindCaches(st: State, name: string, p: Option<Placement>)
    requires WellPlaced(st.regions) && (name in st.linked && name !in st.functionPtrs && p.Some? ==> IsFree(st.regions, p.value))
    ensures var (found, ptr) := Find(st, name, p);
            && (ptr.Some? ==> name in found.functionPtrs && found.functionPtrs[name] == ptr.value)
            && WellPlaced(found.regions)
  {
    if name in st.linked && name !in st.functionPtrs && p.Some? {
      PlaceKeeps(st, name, st.linked[name], p.value);
    }
    hide Write;
  }

  /** What an addition leaves of a user function that is new to the JIT. */
  lemma NewlyLinked(st: State, fns: seq<Fn>, i: nat)
    requires Sound(st) && RegionsAreLinked(st) && DistinctFns(fns)
    requires i < |fns| && IsUserDefinition(fns[i]) && fns[i].name !in st.moduleSymbols
    ensures var name, after := fns[i].name, AddModule(st, fns, true, true);
            && name in after.linked && after.linked[name] == fns[i].code && name !in after.promotedPtrs
            && name in after.callCounts && after.callCounts[name] == 0
            && FirstSaved(after.savedModules, name).Some?
            && (FirstSaved(after.savedModules, name) == Some(fns[i].code)
                <==> FirstSaved(st.savedModules, name) in {None, Some(fns[i].code)})
            && forall j :: 0 <= j < |st.regions| ==> st.regions[j].name != name
  {
    var own, name := InternalizeAll(fns, st.moduleSymbols), fns[i].name;
    hide IsAnon, PointersRun, WellPlaced;
    InternalizedNames(fns, st.moduleSymbols);
    assert own[i] == fns[i];
    LinkEachExactly(st.linked, own, |own|);
    SaveEachExactly(own, |own|);
    FirstSavedAppended(st.savedModules, SaveEach(own, |own|), name);
    UserNamesExactly(own, |own|);
    ZeroEachExactly(st.callCounts, UserNames(own, |own|));
    assert name !in st.linked;
    NotPromoted(st, name);
  }

  lemma NotPromoted(st: State, name: string)
    requires PointersRun(st) && name !in st.linked
    ensures name !in st.promotedPtrs
  {
    hide Runs, RunsDirectly;
  }

  /**
    * After any legal run, an accepted module that newly links a user function: the first lookup of its name hands out
    * an address that runs the new definition exactly when the name was not in the pointer cache and was compiled
    * (or, when that lookup promotes, exactly when no other definition had been saved under the name).
    */
  lemma FirstLookupRunsExactly(host: map<string, int>, events: seq<Event>, fns: seq<Fn>, i: nat,
                               p: Option<Placement>, r: Recompilation)
    requires Legal(host, events) && RealModules(events) && DistinctFns(fns)
    requires i < |fns| && IsUserDefinition(fns[i]) && fns[i].name !in RunAll(host, events).state.moduleSymbols
    requires var after := AddModule(RunAll(host, events).state, fns, true, true);
             var (found, ptr) := Find(after, fns[i].name, p);
             && (fns[i].name !in after.functionPtrs && p.Some? ==> IsFree(after.regions, p.value))
             && IsFree(found.regions, r.place)
             && (ptr.Some? ==> IsClearOf(ptr.value, r.place))
    ensures var st, name := RunAll(host, events).state, fns[i].name;
            var (after, ptr) := Lookup(AddModule(st, fns, true, true), name, p, r);
            && name in after.linked && after.linked[name] == fns[i].code
            && (ptr.Some? ==>
                 (Runs(after, name, ptr.value) <==>
                    if PromotesAtOnce(st.threshold, r) then FirstSaved(st.savedModules, name) in {None, Some(fns[i].code)}
                    else name !in st.functionPtrs && p.Some?))
  {
    var st := RunAll(host, events).state;
    RunsKeepInvariant(host, events);
    RunsPlaceLinked(host, events);
    NewlyLinked(st, fns, i);
    hide RunAll, Runs, FirstSaved, IsUserDefinition, WellPlaced, PointersRun, SavedAreLinked, Find, Lookup;
    var added := AddModule(st, fns, true, true);
    assert added.regions == st.regions && added.functionPtrs == st.functionPtrs && added.threshold == st.threshold;
    LookupRunsExactly(added, fns[i].name, p, r);
    LookupTouches(added, fns[i].name, p, r);
  }

  // ----- Two runs that go wrong

  const NOPS: seq<Byte> := [0x90, 0x90, 0x90, 0x90, 0x90]
  const HERE := Placement(0x1000, NOPS)
  const THERE := Placement(0x2000, NOPS)

  lemma UserFunction(code: int)
    ensures IsUserDefinition(Fn("f", false, true, code))
  {
    assert !IsAnon("f");
  }

  /** The run so far, with one more step. */
  lemma OneMoreStep(host: map<string, int>, events: seq<Event>, e: Event)
    ensures RunAll(host, events + [e]) == Advance(RunAll(host, events), e)
    ensures Legal(host, events) && Allowed(RunAll(host, events).state, e) ==> Legal(host, events + [e])
  {
    assert (events + [e])[..|events|] == events;
  }

  /** f is looked up while only the process has it, then a module defines f, then f is looked up again. */
  lemma ProcessPointerIsReturned()
    ensures var host, look := map["f" := 5000], GetPointer("f", Some(HERE), Recompilation(false, THERE, true));
            var run := RunAll(host, [] + [look] + [Add([Fn("f", false, true, 1)], true, true)] + [look]);
            && Legal(host, [] + [look])
            && "f" in run.state.linked && run.state.linked["f"] == 1
            && ("f", 5000) in run.issued && !Runs(run.state, "f", 5000)
  {
    var host, r := map["f" := 5000], Recompilation(false, THERE, true);
    var look, fns := GetPointer("f", Some(HERE), r), [Fn("f", false, true, 1)];
    UserFunction(1);
    OneMoreStep(host, [], look);
    OneMoreStep(host, [] + [look], Add(fns, true, true));
    OneMoreStep(host, [] + [look] + [Add(fns, true, true)], look);
    var st := RunAll(host, [] + [look]).state;
    assert st == Initial(host).(functionPtrs := map["f" := 5000]);
    hide IsUserDefinition, IsAnon, Runs;
    FirstLookupRunsExactly(host, [] + [look], fns, 0, Some(HERE), r);
  }

  /** The state in which an invalid module has left a copy of f. */
  lemma RefusedLeavesCopy()
    ensures var refused := Add([Fn("f", false, true, 1)], false, false);
            var start := [] + [SetThreshold(1)] + [refused];
            && Legal(map[], start) && RealModules(start)
            && RunAll(map[], start).state == Initial(map[]).(threshold := 1, savedModules := [Saved("f", 1)])
  {
    var fns := [Fn("f", false, true, 1)];
    UserFunction(1);
    OneMoreStep(map[], [], SetThreshold(1));
    OneMoreStep(map[], [] + [SetThreshold(1)], Add(fns, false, false));
    hide IsUserDefinition, IsAnon;
    assert InternalizeAll(fns, {}) == fns;
    assert SaveEach(fns, 1) == SaveEach(fns, 0) + [Saved("f", 1)] == [Saved("f", 1)];
  }

  /** An invalid module defines f, then a valid one does, and the first lookup promotes f. */
  lemma RejectedCopyIsPromoted()
    ensures var refused, added := Add([Fn("f", false, true, 1)], false, false), Add([Fn("f", false, true, 2)], true, true);
            var look := GetPointer("f", Some(HERE), Recompilation(true, THERE, true));
            var run := RunAll(map[], [] + [SetThreshold(1)] + [refused] + [added] + [look]);
            && "f" in run.state.linked && run.state.linked["f"] == 2
            && ("f", THERE.addr) in run.issued && !Runs(run.state, "f", THERE.addr)
  {
    var r, fns := Recompilation(true, THERE, true), [Fn("f", false, true, 2)];
    var look := GetPointer("f", Some(HERE), r);
    var start := [] + [SetThreshold(1)] + [Add([Fn("f", false, true, 1)], false, false)];
    RefusedLeavesCopy();
    UserFunction(2);
    OneMoreStep(map[], start, Add(fns, true, true));
    OneMoreStep(map[], start + [Add(fns, true, true)], look);
    var st := RunAll(map[], start).state;
    assert FirstSaved(st.savedModules, "f") == Some(1);
    hide IsUserDefinition, IsAnon, Runs, RunAll;
    RefusedIsHandedOut(st, fns, r);
    FirstLookupRunsExactly(map[], start, fns, 0, Some(HERE), r);
  }

  /** The address that the promoting lookup hands out. */
  lemma RefusedIsHandedOut(st: State, fns: seq<Fn>, r: Recompilation)
    requires st == Initial(map[]).(threshold := 1, savedModules := [Saved("f", 1)])
    requires fns == [Fn("f", false, true, 2)] && r == Recompilation(true, THERE, true)
    ensures var added := AddModule(st, fns, true, true);
            && added.regions == [] && added.functionPtrs == map[] && "f" in added.linked
            && Find(added, "f", Some(HERE)).1 == Some(HERE.addr)
            && IsFree([], HERE) && IsFree(Find(added, "f", Some(HERE)).0.regions, THERE)
            && Lookup(added, "f", Some(HERE), r).1 == Some(THERE.addr)
  {
    UserFunction(2);
    hide IsUserDefinition, IsAnon, Write, Redirect;
    var added := AddModule(st, fns, true, true);
    assert InternalizeAll(fns, {}) == fns;
    LinkEachExactly(st.linked, fns, 1);
    SaveEachExactly(fns, 1);
    UserNamesExactly(fns, 1);
    ZeroEachExactly(map[], UserNames(fns, 1));
    FirstSavedAppended(st.savedModules, SaveEach(fns, 1), "f");
    hide SaveEach, UserNames, ZeroEach, LinkEach, FirstSaved;
    PromotedRegion(Find(added, "f", Some(HERE)).0.(callCounts := added.callCounts["f" := 1]), "f", r);
  }
}
