/** Whole runs of the JIT: additions, lookups, promotions. */
module JitRuns {
  import opened JumpPatch
  import opened Options
  import opened Jit
  import opened JitLaws

  // ----- What adding a module does to each table

  lemma {:induction false} LinkEachExactly(linked: map<string, int>, fns: seq<Fn>, count: nat)
    requires count <= |fns| && DistinctFns(fns)
    ensures var after := LinkEach(linked, fns, count);
            && (forall i :: 0 <= i < count && IsDefinition(fns[i]) ==>
                  fns[i].name in after && after[fns[i].name] == fns[i].code)
            && (forall n :: n in after ==>
                  (n in linked && after[n] == linked[n]) || exists i :: 0 <= i < count && IsDefinition(fns[i]) && fns[i].name == n)
            && (forall n :: n in linked && (forall i :: 0 <= i < count && IsDefinition(fns[i]) ==> fns[i].name != n) ==>
                  n in after && after[n] == linked[n])
  {
    if count > 0 {
      LinkEachExactly(linked, fns, count - 1);
    }
  }

  lemma {:induction false} UserNamesExactly(fns: seq<Fn>, count: nat)
    requires count <= |fns|
    ensures forall n :: n in UserNames(fns, count) <==> exists i :: 0 <= i < count && IsUserDefinition(fns[i]) && fns[i].name == n
  {
    hide IsUserDefinition;
    if count > 0 {
      UserNamesExactly(fns, count - 1);
    }
  }

  lemma {:induction false} ZeroEachExactly(counts: map<string, nat>, names: seq<string>)
    ensures forall n :: n in ZeroEach(counts, names) <==> n in counts || n in names
    ensures forall n :: n in ZeroEach(counts, names) ==>
              ZeroEach(counts, names)[n] == if n in names then 0 else counts[n]
  {
    if names != [] {
      var rest := names[..|names| - 1];
      ZeroEachExactly(counts, rest);
      assert forall n :: n in names <==> n in rest || n == names[|names| - 1];
    }
  }

  lemma {:induction false} FirstSavedAppended(a: seq<Saved>, b: seq<Saved>, n: string)
    ensures FirstSaved(a + b, n) == if FirstSaved(a, n).Some? then FirstSaved(a, n) else FirstSaved(b, n)
  {
    if a == [] {
      assert a + b == b;
    } else {
      FirstSavedAppended(a[1..], b, n);
      assert (a + b)[1..] == a[1..] + b;
    }
  }

  ghost predicate Defines(fns: seq<Fn>, count: nat, name: string)
    requires count <= |fns|
  {
    exists i :: 0 <= i < count && IsUserDefinition(fns[i]) && fns[i].name == name
  }

  /** The first copy of n after one more function has been saved. */
  lemma SavedStep(fns: seq<Fn>, count: nat, n: string)
    requires 0 < count <= |fns|
    ensures var last, shorter := fns[count - 1], SaveEach(fns, count - 1);
            FirstSaved(SaveEach(fns, count), n)
            == if FirstSaved(shorter, n).Some? then FirstSaved(shorter, n)
               else if IsUserDefinition(last) && last.name == n then Some(last.code) else None
  {
    hide IsUserDefinition;
    var last := fns[count - 1];
    FirstSavedAppended(SaveEach(fns, count - 1), if IsUserDefinition(last) then [Saved(last.name, last.code)] else [], n);
  }

  lemma {:induction false} SavesNoAnon(fns: seq<Fn>, count: nat)
    requires count <= |fns|
    ensures forall k :: 0 <= k < |SaveEach(fns, count)| ==> !IsAnon(SaveEach(fns, count)[k].name)
  {
    hide IsAnon;
    if count > 0 {
      SavesNoAnon(fns, count - 1);
    }
  }

  lemma {:induction false} SavesOnlyDefinitions(fns: seq<Fn>, count: nat, n: string)
    requires count <= |fns| && FirstSaved(SaveEach(fns, count), n).Some?
    ensures Defines(fns, count, n)
  {
    hide IsUserDefinition;
    if count > 0 {
      SavedStep(fns, count, n);
      if FirstSaved(SaveEach(fns, count - 1), n).Some? {
        SavesOnlyDefinitions(fns, count - 1, n);
        var i :| 0 <= i < count - 1 && IsUserDefinition(fns[i]) && fns[i].name == n;
        assert i < count;
      } else {
        assert IsUserDefinition(fns[count - 1]) && fns[count - 1].name == n;
      }
    }
  }

  lemma {:induction false} SavesDefinition(fns: seq<Fn>, count: nat, i: nat)
    requires i < count <= |fns| && DistinctFns(fns) && IsUserDefinition(fns[i])
    ensures FirstSaved(SaveEach(fns, count), fns[i].name) == Some(fns[i].code)
  {
    hide IsUserDefinition, SaveEach, FirstSaved;
    var n := fns[i].name;
    SavedStep(fns, count, n);
    if i < count - 1 {
      SavesDefinition(fns, count - 1, i);
    } else if FirstSaved(SaveEach(fns, count - 1), n).Some? {
      SavesOnlyDefinitions(fns, count - 1, n);
    }
  }

  lemma SaveEachExactly(fns: seq<Fn>, count: nat)
    requires count <= |fns| && DistinctFns(fns)
    ensures var saved := SaveEach(fns, count);
            && (forall k :: 0 <= k < |saved| ==> !IsAnon(saved[k].name))
            && (forall i :: 0 <= i < count && IsUserDefinition(fns[i]) ==> FirstSaved(saved, fns[i].name) == Some(fns[i].code))
            && (forall n :: FirstSaved(saved, n).Some? ==> Defines(fns, count, n))
  {
    hide IsAnon, IsUserDefinition, SaveEach, FirstSaved, Defines, DistinctFns;
    SavesNoAnon(fns, count);
    forall i | 0 <= i < count && IsUserDefinition(fns[i])
      ensures FirstSaved(SaveEach(fns, count), fns[i].name) == Some(fns[i].code)
    {
      SavesDefinition(fns, count, i);
    }
    forall n | FirstSaved(SaveEach(fns, count), n).Some?
      ensures Defines(fns, count, n)
    {
      SavesOnlyDefinitions(fns, count, n);
    }
  }

  lemma InternalizedNames(fns: seq<Fn>, symbols: set<string>)
    requires DistinctFns(fns)
    ensures DistinctFns(InternalizeAll(fns, symbols))
  {
  }

  // ----- Adding keeps the invariant

  /** A saved copy made by any module leaves the first copy of every linked name where it was. */
  lemma SavingKeeps(st: State, fns: seq<Fn>)
    requires SavedAreLinked(st) && DistinctFns(fns)
    ensures SavedAreLinked(st.(savedModules := st.savedModules + SaveEach(fns, |fns|)))
  {
    hide IsAnon, FirstSaved, SaveEach;
    SaveEachExactly(fns, |fns|);
    forall n
      ensures FirstSaved(st.savedModules, n).Some? ==>
                FirstSaved(st.savedModules + SaveEach(fns, |fns|), n) == FirstSaved(st.savedModules, n)
    {
      FirstSavedAppended(st.savedModules, SaveEach(fns, |fns|), n);
    }
  }

  /** The definitions of user functions that are left after internalisation are new to the linker. */
  lemma UserDefinitionsAreNew(st: State, f: Fn)
    requires SavedAreLinked(st) && IsUserDefinition(Internalized(f, st.moduleSymbols))
    ensures f.name !in st.linked
  {
    hide IsAnon, FirstSaved;
  }

  /** No module, accepted or not, redefines a linked user function: duplicates are made private. */
  lemma UserLinksStand(st: State, fns: seq<Fn>, valid: bool, accepted: bool, n: string)
    requires SavedAreLinked(st) && DistinctFns(fns) && n in st.linked && !IsAnon(n)
    ensures forall i :: 0 <= i < |fns| && IsDefinition(Internalized(fns[i], st.moduleSymbols)) ==> fns[i].name != n
    ensures var after := AddModule(st, fns, valid, accepted);
            n in after.linked && after.linked[n] == st.linked[n]
  {
    var own := InternalizeAll(fns, st.moduleSymbols);
    InternalizedNames(fns, st.moduleSymbols);
    LinkEachExactly(st.linked, own, |own|);
    hide IsAnon, SavedAreLinked;
    forall i | 0 <= i < |fns| && IsDefinition(Internalized(fns[i], st.moduleSymbols))
      ensures fns[i].name != n
    {
      if fns[i].name == n {
        UserDefinitionsAreNew(st, fns[i]);
      }
    }
    assert forall i :: 0 <= i < |own| && IsDefinition(own[i]) ==> own[i] == Internalized(fns[i], st.moduleSymbols) && fns[i].name != n;
  }

  /** What MayAdd says of the functions as they are after internalisation. */
  lemma OwnAreNew(st: State, fns: seq<Fn>, i: nat)
    requires SavedAreLinked(st) && MayAdd(st, fns) && i < |fns| && IsDefinition(InternalizeAll(fns, st.moduleSymbols)[i])
    ensures var f := InternalizeAll(fns, st.moduleSymbols)[i];
            f.name !in st.linked && f.name !in st.functionPtrs && FirstSaved(st.savedModules, f.name) in {None, Some(f.code)}
  {
    hide IsAnon, FirstSaved, SavedAreLinked;
    var f := Internalized(fns[i], st.moduleSymbols);
    assert InternalizeAll(fns, st.moduleSymbols)[i] == f;
    if !IsAnon(f.name) {
      UserDefinitionsAreNew(st, fns[i]);
    }
  }

  lemma AcceptedLinks(st: State, fns: seq<Fn>, n: string)
    requires SavedAreLinked(st) && MayAdd(st, fns)
    ensures var after := AddModule(st, fns, true, true);
            && (n in st.linked ==> n in after.linked && after.linked[n] == st.linked[n])
            && (n in after.linked && n in st.functionPtrs ==> n in st.linked)
  {
    var own := InternalizeAll(fns, st.moduleSymbols);
    InternalizedNames(fns, st.moduleSymbols);
    LinkEachExactly(st.linked, own, |own|);
    hide MayAdd, IsDefinition, InternalizeAll, SavedAreLinked;
    forall i | 0 <= i < |own| && IsDefinition(own[i])
      ensures own[i].name !in st.linked && own[i].name !in st.functionPtrs
    {
      OwnAreNew(st, fns, i);
    }
  }

  lemma AcceptedIsLinked(st: State, fns: seq<Fn>, n: string)
    requires SavedAreLinked(st) && MayAdd(st, fns)
    ensures var after := AddModule(st, fns, true, true);
            && (n in after.linked && !IsAnon(n) ==>
                  n in after.moduleSymbols && FirstSaved(after.savedModules, n) == Some(after.linked[n]))
            && (n in after.callCounts ==> n in after.linked && !IsAnon(n))
  {
    hide IsAnon;
    var own := InternalizeAll(fns, st.moduleSymbols);
    InternalizedNames(fns, st.moduleSymbols);
    LinkEachExactly(st.linked, own, |own|);
    UserNamesExactly(own, |own|);
    SaveEachExactly(own, |own|);
    ZeroEachExactly(st.callCounts, UserNames(own, |own|));
    FirstSavedAppended(st.savedModules, SaveEach(own, |own|), n);
    AcceptedLinks(st, fns, n);
    hide MayAdd, InternalizeAll, FirstSaved;
    forall i | 0 <= i < |own| && IsDefinition(own[i])
      ensures own[i].name !in st.linked && FirstSaved(st.savedModules, own[i].name) in {None, Some(own[i].code)}
    {
      OwnAreNew(st, fns, i);
    }
  }

  lemma AddKeeps(st: State, fns: seq<Fn>, valid: bool, accepted: bool)
    requires WellPlaced(st.regions) && PointersRun(st) && SavedAreLinked(st)
    requires DistinctFns(fns) && (valid && accepted ==> MayAdd(st, fns))
    ensures var after := AddModule(st, fns, valid, accepted);
            PointersRun(after) && SavedAreLinked(after) && StillRuns(st, after)
  {
    hide IsAnon, Runs, RunsDirectly, MayAdd, WellPlaced, StillRuns, FirstSaved;
    var own := InternalizeAll(fns, st.moduleSymbols);
    var after := AddModule(st, fns, valid, accepted);
    InternalizedNames(fns, st.moduleSymbols);
    SavingKeeps(st, own);
    if valid && accepted {
      forall n
        ensures n in st.linked ==> n in after.linked && after.linked[n] == st.linked[n]
        ensures n in after.linked && !IsAnon(n) ==>
                  n in after.moduleSymbols && FirstSaved(after.savedModules, n) == Some(after.linked[n])
        ensures n in after.linked && n in st.functionPtrs ==> n in st.linked
        ensures n in after.callCounts ==> n in after.linked && !IsAnon(n)
      {
        AcceptedLinks(st, fns, n);
        AcceptedIsLinked(st, fns, n);
      }
      MoreLinksKeep(st, after);
    } else {
      MoreLinksKeep(st, after);
    }
  }

  lemma MoreLinksKeep(st: State, after: State)
    requires WellPlaced(st.regions) && PointersRun(st)
    requires after.regions == st.regions && after.memory == st.memory
    requires after.promotedPtrs == st.promotedPtrs && after.functionPtrs == st.functionPtrs
    requires forall n :: n in st.linked ==> n in after.linked && after.linked[n] == st.linked[n]
    requires forall n :: n in after.linked && n in st.functionPtrs ==> n in st.linked
    ensures PointersRun(after) && StillRuns(st, after)
  {
    forall n
      ensures KeepsName(st, after, n)
    {
    }
    KeptNamesRun(st, after);
    hide Runs, RunsDirectly, KeepsName;
  }

  // ----- Every run keeps the invariant

  ghost predicate Sound(st: State) {
    WellPlaced(st.regions) && PointersRun(st) && SavedAreLinked(st)
  }

  ghost predicate StepKeepsAll(st: State, e: Event, after: State, ptr: Option<int>) {
    && Sound(after)
    && StillRuns(st, after)
    && (forall n :: n in st.linked ==> n in after.linked)
    && (ptr.Some? && AskedName(e) in after.linked ==> Runs(after, AskedName(e), ptr.value))
  }

  lemma CountKeeps(st: State, name: string, ptr: int, r: Recompilation)
    requires Sound(st) && IsFree(st.regions, r.place)
    requires name in st.linked ==> Runs(st, name, ptr)
    ensures var (after, a) := Count(st, name, ptr, r);
            && Sound(after) && StillRuns(st, after) && after.linked == st.linked
            && (name in st.linked ==> Runs(after, name, a))
  {
    hide Runs, RunsDirectly, WellPlaced, IsFree, FirstSaved, IsAnon, Write;
    EveryoneRuns(st);
    if name in st.callCounts {
      var counted := st.(callCounts := st.callCounts[name := st.callCounts[name] + 1]);
      SameMemory(st, counted);
      if st.threshold > 0 && counted.callCounts[name] >= st.threshold && name !in st.promotedPtrs {
        hide Promote;
        PromoteKeeps(counted, name, r);
        StillRunsChain(st, counted, Promote(counted, name, r).0);
      }
    }
  }

  lemma StillRunsChain(a: State, b: State, c: State)
    requires StillRuns(a, b) && StillRuns(b, c)
    ensures StillRuns(a, c)
  {
  }

  lemma LookupKeeps(st: State, name: string, p: Option<Placement>, r: Recompilation)
    requires Sound(st) && Allowed(st, GetPointer(name, p, r))
    ensures var (after, ptr) := Lookup(st, name, p, r); StepKeepsAll(st, GetPointer(name, p, r), after, ptr)
  {
    hide Runs, RunsDirectly, WellPlaced, IsFree, Find, Count, PointersRun, SavedAreLinked;
    FindKeeps(st, name, p);
    var (found, ptr) := Find(st, name, p);
    if ptr.Some? {
      CountKeeps(found, name, ptr.value, r);
      StillRunsChain(st, found, Count(found, name, ptr.value, r).0);
    }
  }

  lemma ResetKeeps(st: State)
    requires Sound(st)
    ensures Sound(ResetCounts(st)) && StillRuns(st, ResetCounts(st))
  {
    hide Runs, RunsDirectly, WellPlaced, FirstSaved, IsAnon;
    SameMemory(st, ResetCounts(st));
  }

  lemma ThresholdKeeps(st: State, n: int)
    requires Sound(st)
    ensures Sound(st.(threshold := n)) && StillRuns(st, st.(threshold := n))
  {
    hide Runs, RunsDirectly, WellPlaced, FirstSaved, IsAnon;
    SameMemory(st, st.(threshold := n));
  }

  lemma RegisterKeeps(st: State, name: string, ptr: int)
    requires Sound(st) && name !in st.linked
    ensures Sound(RegisterFunction(st, name, ptr)) && StillRuns(st, RegisterFunction(st, name, ptr))
  {
    hide Runs, RunsDirectly, WellPlaced, FirstSaved, IsAnon;
    SameMemory(st, RegisterFunction(st, name, ptr));
  }

  lemma StepKeeps(st: State, e: Event)
    requires Sound(st) && Allowed(st, e) && (e.Add? ==> DistinctFns(e.fns))
    ensures StepKeepsAll(st, e, Step(st, e).0, Step(st, e).1)
  {
    hide Runs, WellPlaced, PointersRun, SavedAreLinked, Lookup, Promote, AddModule;
    match e
    case Add(fns, valid, accepted) =>
      AddKeeps(st, fns, valid, accepted);
      LinksGrow(st, fns, valid, accepted);
    case GetPointer(name, p, r) => LookupKeeps(st, name, p, r);
    case PromoteNow(name, r) => PromoteKeeps(st, name, r);
    case Reset => ResetKeeps(st);
    case SetThreshold(n) => ThresholdKeeps(st, n);
    case Register(name, ptr) => RegisterKeeps(st, name, ptr);
  }

  lemma LinksGrow(st: State, fns: seq<Fn>, valid: bool, accepted: bool)
    requires Sound(st) && (valid && accepted ==> MayAdd(st, fns))
    ensures var after := AddModule(st, fns, valid, accepted);
            after.regions == st.regions && forall n :: n in st.linked ==> n in after.linked
  {
    hide MayAdd, WellPlaced, PointersRun, SavedAreLinked, FirstSaved;
    if valid && accepted {
      forall n | n in st.linked
        ensures n in AddModule(st, fns, true, true).linked
      {
        AcceptedLinks(st, fns, n);
      }
    }
  }

  /** A module never holds two functions of one name. */
  ghost predicate RealModules(events: seq<Event>) {
    forall i :: 0 <= i < |events| && events[i].Add? ==> DistinctFns(events[i].fns)
  }

  lemma StartIsSound(host: map<string, int>)
    ensures Inv(RunAll(host, []))
  {
  }

  lemma {:induction false} RunsKeepInvariant(host: map<string, int>, events: seq<Event>)
    requires Legal(host, events) && RealModules(events)
    ensures Inv(RunAll(host, events))
  {
    if events == [] {
      StartIsSound(host);
    } else {
      var before, e := events[..|events| - 1], events[|events| - 1];
      RunsKeepInvariant(host, before);
      StepKeeps(RunAll(host, before).state, e);
      AdvanceKeeps(RunAll(host, before), e);
    }
  }

  lemma AdvanceKeeps(run: Run, e: Event)
    requires Inv(run) && StepKeepsAll(run.state, e, Step(run.state, e).0, Step(run.state, e).1)
    ensures Inv(Advance(run, e))
  {
    hide Runs, RunsDirectly, WellPlaced, PointersRun, SavedAreLinked, Step;
  }

  /**
    * Over every run of additions, lookups, promotions, resets and registrations, every address ever handed out
    * for a linked name still runs that name's definition, after at most one jump.
    */
  lemma IssuedAddressesRun(host: map<string, int>, events: seq<Event>, name: string, a: int)
    requires Legal(host, events) && RealModules(events) && (name, a) in RunAll(host, events).issued
    ensures Runs(RunAll(host, events).state, name, a)
  {
    RunsKeepInvariant(host, events);
  }

  // ----- Which copy a promotion recompiles

  /**
    * A module that newly links a name decides for good what its promotion recompiles: its own definition,
    * exactly when no earlier module left a saved copy of another.
    */
  lemma AddDecidesPromotion(st: State, fns: seq<Fn>, i: nat)
    requires DistinctFns(fns) && i < |fns| && IsUserDefinition(fns[i]) && fns[i].name !in st.moduleSymbols
    ensures var after := AddModule(st, fns, true, true);
            && fns[i].name in after.linked
            && (FirstSaved(after.savedModules, fns[i].name) == Some(after.linked[fns[i].name])
                <==> FirstSaved(st.savedModules, fns[i].name) in {None, Some(fns[i].code)})
  {
    hide IsAnon;
    var own := InternalizeAll(fns, st.moduleSymbols);
    InternalizedNames(fns, st.moduleSymbols);
    assert own[i] == fns[i];
    LinkEachExactly(st.linked, own, |own|);
    SaveEachExactly(own, |own|);
    FirstSavedAppended(st.savedModules, SaveEach(own, |own|), fns[i].name);
  }

  ghost predicate AllAccepted(events: seq<Event>) {
    forall i :: 0 <= i < |events| && events[i].Add? ==> events[i].valid && events[i].accepted
  }

  ghost predicate DistinctSaved(saved: seq<Saved>) {
    forall i, j :: 0 <= i < j < |saved| ==> saved[i].name != saved[j].name
  }

  ghost predicate SavedOnce(st: State) {
    && DistinctSaved(st.savedModules)
    && forall s :: s in st.savedModules ==> s.name in st.linked
  }

  lemma {:induction false} SaveEachOnce(fns: seq<Fn>, count: nat)
    requires count <= |fns| && DistinctFns(fns)
    ensures DistinctSaved(SaveEach(fns, count))
    ensures forall s :: s in SaveEach(fns, count) ==> Defines(fns, count, s.name)
  {
    hide IsUserDefinition;
    if count > 0 {
      SaveEachOnce(fns, count - 1);
      var saved, last := SaveEach(fns, count - 1), fns[count - 1];
      forall s | s in saved
        ensures s.name != last.name && Defines(fns, count, s.name)
      {
        var i :| 0 <= i < count - 1 && IsUserDefinition(fns[i]) && fns[i].name == s.name;
      }
    }
  }

  lemma NewIsNotLinked(st: State, fns: seq<Fn>, name: string)
    requires SavedAreLinked(st) && MayAdd(st, fns) && Defines(InternalizeAll(fns, st.moduleSymbols), |fns|, name)
    ensures name !in st.linked && name in LinkEach(st.linked, InternalizeAll(fns, st.moduleSymbols), |fns|)
  {
    hide IsAnon, FirstSaved, SavedAreLinked;
    var own := InternalizeAll(fns, st.moduleSymbols);
    InternalizedNames(fns, st.moduleSymbols);
    LinkEachExactly(st.linked, own, |own|);
    var i :| 0 <= i < |own| && IsUserDefinition(own[i]) && own[i].name == name;
    OwnAreNew(st, fns, i);
  }

  lemma AddSavesOnce(st: State, fns: seq<Fn>)
    requires SavedOnce(st) && SavedAreLinked(st) && MayAdd(st, fns)
    ensures SavedOnce(AddModule(st, fns, true, true))
  {
    var own := InternalizeAll(fns, st.moduleSymbols);
    InternalizedNames(fns, st.moduleSymbols);
    SaveEachOnce(own, |own|);
    hide MayAdd, LinkEach, SaveEach, InternalizeAll, Defines, UserNames, ZeroEach;
    var saved := SaveEach(own, |own|);
    forall s | s in saved
      ensures s.name !in st.linked && s.name in AddModule(st, fns, true, true).linked
    {
      NewIsNotLinked(st, fns, s.name);
    }
    forall s | s in st.savedModules
      ensures s.name in AddModule(st, fns, true, true).linked
    {
      AcceptedLinks(st, fns, s.name);
    }
  }

  /** In a state where only linked names have saved copies, no copy is of another definition. */
  lemma SavedOnceAgrees(st: State, fns: seq<Fn>)
    requires SavedOnce(st) && SavedAreLinked(st) && MayLink(st, fns)
    ensures SavedAgree(st, fns)
  {
    hide IsAnon, SavedAreLinked;
    forall i | 0 <= i < |fns| && IsDefinition(Internalized(fns[i], st.moduleSymbols))
      ensures FirstSaved(st.savedModules, fns[i].name) == None
    {
      FirstSavedIsSaved(st.savedModules, fns[i].name);
      if !IsAnon(fns[i].name) {
        UserDefinitionsAreNew(st, fns[i]);
      }
    }
  }

  /**
    * When every addition succeeds, no saved copy can be wrong: the run is legal, each name has at most one saved copy,
    * and it is one of a linked name.
    */
  lemma {:induction false} EachNameIsSavedOnce(host: map<string, int>, events: seq<Event>)
    requires Possible(host, events) && RealModules(events) && AllAccepted(events)
    ensures Legal(host, events) && SavedOnce(RunAll(host, events).state)
  {
    if events != [] {
      var before, e := events[..|events| - 1], events[|events| - 1];
      EachNameIsSavedOnce(host, before);
      RunsKeepInvariant(host, before);
      var st := RunAll(host, before).state;
      hide MayLink, SavedAgree, SavedOnce, SavedAreLinked, Step;
      if e.Add? {
        SavedOnceAgrees(st, e.fns);
        AddSavesOnce(st, e.fns);
        AddIsStep(st, e);
      } else {
        OtherStepsSaveNothing(st, e);
        SavedOnceStands(st, Step(st, e).0);
      }
    }
  }

  lemma AddIsStep(st: State, e: Event)
    requires e.Add?
    ensures Step(st, e).0 == AddModule(st, e.fns, e.valid, e.accepted)
  {
  }

  lemma SavedOnceStands(st: State, after: State)
    requires SavedOnce(st) && after.savedModules == st.savedModules && after.linked == st.linked
    ensures SavedOnce(after)
  {
  }

  lemma PromoteTouches(st: State, name: string, r: Recompilation)
    ensures var after := Promote(st, name, r).0;
            && after.savedModules == st.savedModules && after.linked == st.linked
            && after.callCounts == st.callCounts && after.threshold == st.threshold
            && (forall n :: n in st.promotedPtrs ==> n in after.promotedPtrs && after.promotedPtrs[n] == st.promotedPtrs[n])
            && (forall n :: n in after.promotedPtrs && n != name ==> n in st.promotedPtrs)
            && (name in after.promotedPtrs <==>
                  name in st.promotedPtrs || (FirstSaved(st.savedModules, name).Some? && r.compiles))
  {
    hide Write, Redirect, FirstSaved;
  }

  lemma FindTouches(st: State, name: string, p: Option<Placement>)
    ensures var (after, ptr) := Find(st, name, p);
            && after.savedModules == st.savedModules && after.linked == st.linked
            && after.callCounts == st.callCounts && after.threshold == st.threshold
            && after.promotedPtrs == st.promotedPtrs
            && (name in st.linked && p.Some? ==> ptr.Some?)
  {
    hide Write;
  }

  /** What a lookup leaves alone, and exactly when it promotes. */
  lemma LookupTouches(st: State, name: string, p: Option<Placement>, r: Recompilation)
    ensures var after := Lookup(st, name, p, r).0;
            && after.savedModules == st.savedModules && after.linked == st.linked && after.threshold == st.threshold
            && (forall n :: n in after.callCounts && n != name ==> n in st.callCounts && after.callCounts[n] == st.callCounts[n])
            && (name in after.callCounts ==> name in st.callCounts)
            && (forall n :: n in st.promotedPtrs ==> n in after.promotedPtrs && after.promotedPtrs[n] == st.promotedPtrs[n])
            && (forall n :: n in after.promotedPtrs && n != name ==> n in st.promotedPtrs)
            && (Find(st, name, p).1.None? ==> after.callCounts == st.callCounts && after.promotedPtrs == st.promotedPtrs)
            && (name in st.callCounts && Find(st, name, p).1.Some? ==>
                  && name in after.callCounts && after.callCounts[name] == st.callCounts[name] + 1
                  && (name in after.promotedPtrs <==>
                        || name in st.promotedPtrs
                        || (&& 0 < st.threshold <= st.callCounts[name] + 1
                            && FirstSaved(st.savedModules, name).Some? && r.compiles)))
  {
    hide Promote, Find, FirstSaved;
    FindTouches(st, name, p);
    var (found, ptr) := Find(st, name, p);
    if ptr.Some? && name in found.callCounts {
      PromoteTouches(found.(callCounts := found.callCounts[name := found.callCounts[name] + 1]), name, r);
    }
  }

  lemma OtherStepsSaveNothing(st: State, e: Event)
    requires !e.Add?
    ensures Step(st, e).0.savedModules == st.savedModules && Step(st, e).0.linked == st.linked
  {
    hide Promote, Lookup, FirstSaved;
    match e
    case GetPointer(name, p, r) => LookupTouches(st, name, p, r);
    case PromoteNow(name, r) => PromoteTouches(st, name, r);
    case _ =>
  }

  // ----- When promotion happens

  /** A counted lookup promotes exactly at or beyond a positive threshold, if the recompilation succeeds. */
  lemma LookupPromotesExactly(st: State, name: string, p: Option<Placement>, r: Recompilation)
    requires SavedAreLinked(st) && name in st.callCounts && Find(st, name, p).1.Some?
    ensures var after := Lookup(st, name, p, r).0;
            && name in after.callCounts && after.callCounts[name] == st.callCounts[name] + 1
            && (name in after.promotedPtrs <==>
                  name in st.promotedPtrs || (0 < st.threshold <= st.callCounts[name] + 1 && r.compiles))
  {
    hide IsAnon, Lookup, FirstSaved;
    LookupTouches(st, name, p, r);
  }

  /** Promotions are never undone or redone. */
  lemma PromotionsStand(st: State, e: Event, name: string)
    requires name in st.promotedPtrs
    ensures name in Step(st, e).0.promotedPtrs && Step(st, e).0.promotedPtrs[name] == st.promotedPtrs[name]
  {
    hide Promote, Lookup, FirstSaved;
    match e
    case GetPointer(asked, p, r) => LookupTouches(st, asked, p, r);
    case PromoteNow(asked, r) => PromoteTouches(st, asked, r);
    case _ =>
  }

  /** No counted name waits at or beyond the threshold. */
  ghost predicate Prompt(st: State) {
    st.threshold > 0 ==> forall n :: n in st.callCounts && n !in st.promotedPtrs ==> st.callCounts[n] < st.threshold
  }

  /** Recompilations succeed, and the threshold is set before anything is counted. */
  ghost predicate Timely(st: State, e: Event) {
    match e
    case GetPointer(_, _, r) => r.compiles
    case SetThreshold(_) => st.callCounts == map[]
    case _ => true
  }

  lemma StepIsPrompt(st: State, e: Event)
    requires SavedAreLinked(st) && Prompt(st) && Timely(st, e)
    ensures Prompt(Step(st, e).0)
  {
    hide Lookup, Promote, FirstSaved, IsAnon;
    match e
    case Add(fns, valid, accepted) =>
      if valid && accepted {
        var own := InternalizeAll(fns, st.moduleSymbols);
        ZeroEachExactly(st.callCounts, UserNames(own, |own|));
      }
    case GetPointer(name, p, r) => LookupTouches(st, name, p, r);
    case PromoteNow(name, r) => PromoteTouches(st, name, r);
    case _ =>
  }

  ghost predicate AllTimely(host: map<string, int>, events: seq<Event>) {
    events != [] ==> AllTimely(host, events[..|events| - 1]) && Timely(RunAll(host, events[..|events| - 1]).state, events[|events| - 1])
  }

  /** In every run whose recompilations succeed, a name that is not promoted has not yet reached the threshold. */
  lemma {:induction false} PromotionIsPrompt(host: map<string, int>, events: seq<Event>)
    requires Legal(host, events) && RealModules(events) && AllTimely(host, events)
    ensures Prompt(RunAll(host, events).state)
  {
    if events != [] {
      var before := events[..|events| - 1];
      PromotionIsPrompt(host, before);
      RunsKeepInvariant(host, before);
      StepIsPrompt(RunAll(host, before).state, events[|events| - 1]);
    }
  }

  /** Until somebody sets it, the threshold is 10. */
  lemma {:induction false} ThresholdStands(host: map<string, int>, events: seq<Event>)
    requires forall e :: e in events ==> !e.SetThreshold?
    ensures RunAll(host, events).state.threshold == 10
  {
    if events != [] {
      var before, e := events[..|events| - 1], events[|events| - 1];
      ThresholdStands(host, before);
      hide Lookup, Promote, AddModule;
      var st := RunAll(host, before).state;
      match e
      case Add(fns, valid, accepted) => AddKeepsThreshold(st, fns, valid, accepted);
      case GetPointer(name, p, r) => LookupTouches(st, name, p, r);
      case PromoteNow(name, r) => PromoteTouches(st, name, r);
      case _ =>
    }
  }

  lemma AddKeepsThreshold(st: State, fns: seq<Fn>, valid: bool, accepted: bool)
    ensures AddModule(st, fns, valid, accepted).threshold == st.threshold
  {
  }

  /** In a run that leaves the threshold alone, a name that is not promoted has been looked up less than ten times. */
  lemma TenLookupsPromote(host: map<string, int>, events: seq<Event>, name: string)
    requires Legal(host, events) && RealModules(events) && AllTimely(host, events)
    requires forall e :: e in events ==> !e.SetThreshold?
    ensures var st := RunAll(host, events).state;
            name in st.callCounts && name !in st.promotedPtrs ==> st.callCounts[name] < 10
  {
    PromotionIsPrompt(host, events);
    ThresholdStands(host, events);
    hide Legal, RealModules, AllTimely, RunAll;
  }
}
