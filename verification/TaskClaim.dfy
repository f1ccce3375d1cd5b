/** Workers that claim tasks from a shared counter, in every interleaving. */
module TaskClaim {

  /** The outcome of looking up and evaluating one named component. */
  datatype Task = Absent | Evaluated(success: bool, out: seq<real>)

  predicate Succeeds(t: Task) {
    t.Evaluated? && t.success
  }

  /** Where a worker stands: about to claim, or between two steps on the task it claimed. */
  datatype Pc =
    | Fetching
    | Claimed(idx: nat)
    | Missing(idx: nat)
    | Failing(idx: nat)
    | Writing(idx: nat)
    | Done

  /** The shared state, and two logs: which worker claimed each index, and the slots written. */
  datatype State = State(counter: nat, success: bool, outputs: seq<seq<real>>, pcs: seq<Pc>,
                         claims: seq<nat>, written: seq<nat>)

  function Resized(outputs: seq<seq<real>>, n: nat): seq<seq<real>> {
    seq(n, i requires 0 <= i < n => if i < |outputs| then outputs[i] else [])
  }

  function Initial(tasks: seq<Task>, workers: nat, outputs: seq<seq<real>>): State {
    State(0, true, Resized(outputs, |tasks|), seq(workers, w => Fetching), [], [])
  }

  /** One atomic step of worker w. */
  function Step(tasks: seq<Task>, st: State, w: nat): State
    requires w < |st.pcs| && |st.outputs| == |tasks|
  {
    match st.pcs[w]
    case Fetching =>
      var idx := st.counter;
      if idx >= |tasks| then st.(counter := idx + 1, pcs := st.pcs[w := Done])
      else st.(counter := idx + 1, pcs := st.pcs[w := Claimed(idx)], claims := st.claims + [w])
    case Claimed(idx) =>
      if idx >= |tasks| then st
      else if tasks[idx].Absent? then st.(pcs := st.pcs[w := Missing(idx)])
      else if tasks[idx].success then st.(pcs := st.pcs[w := Writing(idx)])
      else st.(pcs := st.pcs[w := Failing(idx)])
    case Missing(idx) => st.(success := false, pcs := st.pcs[w := Fetching])
    case Failing(idx) => st.(success := false, pcs := st.pcs[w := Writing(idx)])
    case Writing(idx) =>
      if idx >= |tasks| || tasks[idx].Absent? then st
      else st.(outputs := st.outputs[idx := tasks[idx].out], written := st.written + [idx], pcs := st.pcs[w := Fetching])
    case Done => st
  }

  /** What one worker alone would leave behind. */
  function Sequential(tasks: seq<Task>, outputs: seq<seq<real>>): seq<seq<real>> {
    seq(|tasks|, i requires 0 <= i < |tasks| =>
      if tasks[i].Evaluated? then tasks[i].out else Resized(outputs, |tasks|)[i])
  }

  ghost predicate AllSucceed(tasks: seq<Task>) {
    forall i :: 0 <= i < |tasks| ==> Succeeds(tasks[i])
  }

  // ----- The invariant

  predicate IsBusy(pc: Pc) {
    pc.Claimed? || pc.Missing? || pc.Failing? || pc.Writing?
  }

  /** The claim at idx is still being worked on. */
  predicate IsPending(st: State, idx: nat)
    requires idx < |st.claims| && st.claims[idx] < |st.pcs|
  {
    IsBusy(st.pcs[st.claims[idx]]) && st.pcs[st.claims[idx]].idx == idx
  }

  predicate PcFits(tasks: seq<Task>, pc: Pc) {
    match pc
    case Fetching => true
    case Claimed(idx) => idx < |tasks|
    case Missing(idx) => idx < |tasks| && tasks[idx].Absent?
    case Failing(idx) => idx < |tasks| && tasks[idx].Evaluated? && !tasks[idx].success
    case Writing(idx) => idx < |tasks| && tasks[idx].Evaluated?
    case Done => true
  }

  function DoneCount(pcs: seq<Pc>): nat {
    if pcs == [] then 0 else DoneCount(pcs[..|pcs| - 1]) + if pcs[|pcs| - 1].Done? then 1 else 0
  }

  ghost predicate Counted(tasks: seq<Task>, st: State) {
    && |st.outputs| == |tasks|
    && |st.claims| == (if st.counter <= |tasks| then st.counter else |tasks|)
    && st.counter == |st.claims| + DoneCount(st.pcs)
    && (forall i :: 0 <= i < |st.claims| ==> st.claims[i] < |st.pcs|)
  }

  /** Every busy worker works on an index it alone has claimed, and has not written it. */
  ghost predicate Owned(tasks: seq<Task>, st: State) {
    forall w :: 0 <= w < |st.pcs| ==> Owns(tasks, st.pcs[w], st.claims, w)
  }

  predicate Owns(tasks: seq<Task>, pc: Pc, claims: seq<nat>, w: nat) {
    PcFits(tasks, pc) && (IsBusy(pc) ==> pc.idx < |claims| && claims[pc.idx] == w)
  }

  /** A slot has been written exactly when its task was evaluated and is no longer pending; never twice. */
  ghost predicate Written(tasks: seq<Task>, st: State, before: seq<seq<real>>)
    requires Counted(tasks, st) && |before| == |tasks|
  {
    && (forall i, j :: 0 <= i < j < |st.written| ==> st.written[i] != st.written[j])
    && (forall i :: 0 <= i < |tasks| ==>
          (i in st.written <==> i < |st.claims| && tasks[i].Evaluated? && !IsPending(st, i)))
    && (forall i :: 0 <= i < |tasks| ==>
          st.outputs[i] == if i in st.written then tasks[i].out else before[i])
  }

  /** The flag is lowered exactly for the failures that have been stored. */
  ghost predicate Flagged(tasks: seq<Task>, st: State)
    requires Counted(tasks, st)
  {
    && (!st.success ==> exists i :: 0 <= i < |st.claims| && i < |tasks| && !Succeeds(tasks[i]))
    && (forall i :: 0 <= i < |st.claims| && i < |tasks| && !Succeeds(tasks[i]) ==>
          st.success ==> IsPending(st, i) && !st.pcs[st.claims[i]].Writing?)
  }

  ghost predicate Inv(tasks: seq<Task>, before: seq<seq<real>>, st: State) {
    && |before| == |tasks|
    && Counted(tasks, st)
    && Owned(tasks, st)
    && Written(tasks, st, before)
    && Flagged(tasks, st)
  }

  // ----- Counting workers

  lemma {:induction false} DoneUpdated(pcs: seq<Pc>, w: nat, pc: Pc)
    requires w < |pcs|
    ensures DoneCount(pcs[w := pc]) == DoneCount(pcs) - (if pcs[w].Done? then 1 else 0) + (if pc.Done? then 1 else 0)
  {
    var last := |pcs| - 1;
    if w == last {
      assert pcs[w := pc][..last] == pcs[..last];
    } else {
      DoneUpdated(pcs[..last], w, pc);
      assert pcs[w := pc][..last] == pcs[..last][w := pc];
    }
  }

  lemma {:induction false} DoneAll(pcs: seq<Pc>)
    ensures DoneCount(pcs) <= |pcs|
    ensures DoneCount(pcs) == |pcs| <==> forall w :: 0 <= w < |pcs| ==> pcs[w].Done?
  {
    if pcs != [] {
      DoneAll(pcs[..|pcs| - 1]);
    }
  }

  lemma {:induction false} NoneDone(workers: nat)
    ensures DoneCount(seq(workers, w => Fetching)) == 0
  {
    if workers > 0 {
      NoneDone(workers - 1);
      assert seq(workers, w => Fetching)[..workers - 1] == seq(workers - 1, w => Fetching);
    }
  }

  // ----- Every interleaving keeps the invariant

  lemma StartsWell(tasks: seq<Task>, workers: nat, outputs: seq<seq<real>>)
    ensures Inv(tasks, Resized(outputs, |tasks|), Initial(tasks, workers, outputs))
  {
    NoneDone(workers);
  }

  /** The counters, in every kind of step. */
  lemma StepIsCounted(tasks: seq<Task>, st: State, w: nat)
    requires Counted(tasks, st) && w < |st.pcs| && Owns(tasks, st.pcs[w], st.claims, w)
    ensures Counted(tasks, Step(tasks, st, w))
    ensures st.claims <= Step(tasks, st, w).claims
    ensures Step(tasks, st, w).pcs == st.pcs[w := Step(tasks, st, w).pcs[w]]
  {
    var next := Step(tasks, st, w);
    assert next.pcs == st.pcs[w := next.pcs[w]];
    DoneUpdated(st.pcs, w, next.pcs[w]);
    hide DoneCount;
  }

  lemma StepIsOwned(tasks: seq<Task>, st: State, w: nat)
    requires Counted(tasks, st) && Owned(tasks, st) && w < |st.pcs|
    ensures Owned(tasks, Step(tasks, st, w))
  {
    var next := Step(tasks, st, w);
    StepIsCounted(tasks, st, w);
    hide Counted;
    forall v | 0 <= v < |next.pcs|
      ensures Owns(tasks, next.pcs[v], next.claims, v)
    {
      assert Owns(tasks, st.pcs[v], st.claims, v);
      if v == w {
        MoverOwns(tasks, st, w);
      }
    }
  }

  lemma MoverOwns(tasks: seq<Task>, st: State, w: nat)
    requires |st.outputs| == |tasks| && w < |st.pcs| && Owns(tasks, st.pcs[w], st.claims, w)
    requires |st.claims| == if st.counter <= |tasks| then st.counter else |tasks|
    ensures Owns(tasks, Step(tasks, st, w).pcs[w], Step(tasks, st, w).claims, w)
  {
  }

  lemma StepCounts(tasks: seq<Task>, before: seq<seq<real>>, st: State, w: nat)
    requires Inv(tasks, before, st) && w < |st.pcs|
    ensures Counted(tasks, Step(tasks, st, w)) && Owned(tasks, Step(tasks, st, w))
  {
    hide Written, Flagged, Step;
    StepIsCounted(tasks, st, w);
    StepIsOwned(tasks, st, w);
  }

  /** A step of w leaves every claim of another worker as pending as it was. */
  lemma OthersPending(tasks: seq<Task>, st: State, w: nat, i: nat)
    requires Counted(tasks, st) && Owned(tasks, st) && w < |st.pcs|
    requires i < |st.claims| && (st.claims[i] != w || (IsBusy(st.pcs[w]) && st.pcs[w].idx != i))
    ensures var next := Step(tasks, st, w);
            && i < |next.claims| && next.claims[i] == st.claims[i] && |next.pcs| == |st.pcs|
            && (st.claims[i] != w ==> IsPending(next, i) == IsPending(st, i) && next.pcs[st.claims[i]] == st.pcs[st.claims[i]])
            && (st.claims[i] == w ==> !IsPending(st, i) && !IsPending(next, i))
  {
  }

  /** Between the states every claim but perhaps the last is as pending as before, and nothing is written. */
  ghost predicate OnlyClaims(tasks: seq<Task>, st: State, next: State)
    requires Counted(tasks, st) && Counted(tasks, next)
  {
    && next.outputs == st.outputs && next.written == st.written
    && st.claims <= next.claims
    && (forall i :: 0 <= i < |st.claims| ==> IsPending(next, i) == IsPending(st, i))
    && (forall i :: |st.claims| <= i < |next.claims| ==> IsPending(next, i))
  }

  lemma OnlyClaimsWrites(tasks: seq<Task>, before: seq<seq<real>>, st: State, next: State)
    requires |before| == |tasks| && Counted(tasks, st) && Counted(tasks, next) && OnlyClaims(tasks, st, next)
    requires Written(tasks, st, before)
    ensures Written(tasks, next, before)
  {
    hide IsPending, DoneCount;
  }

  lemma ClaimPends(tasks: seq<Task>, st: State, w: nat)
    requires Counted(tasks, st) && Owned(tasks, st) && w < |st.pcs| && st.pcs[w].Fetching?
    requires Counted(tasks, Step(tasks, st, w))
    ensures var next := Step(tasks, st, w);
            && OnlyClaims(tasks, st, next)
            && (forall i :: 0 <= i < |st.claims| && IsPending(st, i) ==> next.pcs[st.claims[i]] == st.pcs[st.claims[i]])
            && (forall i :: |st.claims| <= i < |next.claims| ==> next.pcs[next.claims[i]].Claimed?)
  {
    hide DoneCount, Owned;
  }

  lemma ClaimWrites(tasks: seq<Task>, before: seq<seq<real>>, st: State, w: nat)
    requires Inv(tasks, before, st) && w < |st.pcs| && st.pcs[w].Fetching?
    ensures Counted(tasks, Step(tasks, st, w))
    ensures Written(tasks, Step(tasks, st, w), before) && Flagged(tasks, Step(tasks, st, w))
  {
    StepCounts(tasks, before, st, w);
    ClaimPends(tasks, st, w);
    OnlyClaimsWrites(tasks, before, st, Step(tasks, st, w));
    hide DoneCount, Owned, IsPending, Written;
  }

  lemma MiddlePends(tasks: seq<Task>, st: State, w: nat)
    requires Counted(tasks, st) && Owned(tasks, st) && w < |st.pcs| && (st.pcs[w].Claimed? || st.pcs[w].Failing?)
    requires Counted(tasks, Step(tasks, st, w))
    ensures var next, idx := Step(tasks, st, w), st.pcs[w].idx;
            && OnlyClaims(tasks, st, next) && next.claims == st.claims && idx < |st.claims| && st.claims[idx] == w
            && (forall i :: 0 <= i < |st.claims| && i != idx && IsPending(st, i) ==>
                  next.pcs[st.claims[i]] == st.pcs[st.claims[i]])
  {
    var next, idx := Step(tasks, st, w), st.pcs[w].idx;
    assert Owns(tasks, st.pcs[w], st.claims, w);
    forall i | 0 <= i < |st.claims|
      ensures IsPending(next, i) == IsPending(st, i)
      ensures i != idx && IsPending(st, i) ==> next.pcs[st.claims[i]] == st.pcs[st.claims[i]]
    {
      if i != idx {
        OthersPending(tasks, st, w, i);
      }
    }
  }

  lemma MiddleWrites(tasks: seq<Task>, before: seq<seq<real>>, st: State, w: nat)
    requires Inv(tasks, before, st) && w < |st.pcs| && (st.pcs[w].Claimed? || st.pcs[w].Failing?)
    ensures Counted(tasks, Step(tasks, st, w))
    ensures Written(tasks, Step(tasks, st, w), before) && Flagged(tasks, Step(tasks, st, w))
  {
    StepCounts(tasks, before, st, w);
    MiddlePends(tasks, st, w);
    OnlyClaimsWrites(tasks, before, st, Step(tasks, st, w));
    assert Owns(tasks, st.pcs[w], st.claims, w);
    hide DoneCount, Owned, IsPending, Written;
  }

  /** The step that gives a claim up ends exactly that claim. */
  lemma LastStepEnds(tasks: seq<Task>, st: State, w: nat)
    requires Counted(tasks, st) && Owned(tasks, st) && w < |st.pcs| && (st.pcs[w].Missing? || st.pcs[w].Writing?)
    ensures var next, idx := Step(tasks, st, w), st.pcs[w].idx;
            && idx < |st.claims| && next.claims == st.claims && |next.pcs| == |st.pcs| && next.counter == st.counter
            && IsPending(st, idx) && !IsPending(next, idx)
            && forall i :: 0 <= i < |st.claims| && i != idx ==>
                 && IsPending(next, i) == IsPending(st, i)
                 && (IsPending(st, i) ==> next.pcs[st.claims[i]] == st.pcs[st.claims[i]])
  {
    var next, idx := Step(tasks, st, w), st.pcs[w].idx;
    assert Owns(tasks, st.pcs[w], st.claims, w);
    forall i | 0 <= i < |st.claims| && i != idx
      ensures IsPending(next, i) == IsPending(st, i)
      ensures IsPending(st, i) ==> next.pcs[st.claims[i]] == st.pcs[st.claims[i]]
    {
      OthersPending(tasks, st, w, i);
    }
  }

  lemma MissingWrites(tasks: seq<Task>, before: seq<seq<real>>, st: State, w: nat)
    requires Inv(tasks, before, st) && w < |st.pcs| && st.pcs[w].Missing?
    ensures Counted(tasks, Step(tasks, st, w))
    ensures Written(tasks, Step(tasks, st, w), before) && Flagged(tasks, Step(tasks, st, w))
  {
    StepCounts(tasks, before, st, w);
    LastStepEnds(tasks, st, w);
    assert Owns(tasks, st.pcs[w], st.claims, w);
    hide DoneCount, Owned, IsPending;
  }

  lemma WritingWrites(tasks: seq<Task>, before: seq<seq<real>>, st: State, w: nat)
    requires Inv(tasks, before, st) && w < |st.pcs| && st.pcs[w].Writing?
    ensures Counted(tasks, Step(tasks, st, w))
    ensures Written(tasks, Step(tasks, st, w), before) && Flagged(tasks, Step(tasks, st, w))
  {
    StepCounts(tasks, before, st, w);
    LastStepEnds(tasks, st, w);
    assert Owns(tasks, st.pcs[w], st.claims, w);
    hide DoneCount, Owned;
    var next, idx := Step(tasks, st, w), st.pcs[w].idx;
    assert forall i :: i in next.written <==> i in st.written || i == idx;
    assert Flagged(tasks, next);
    hide IsPending, Flagged;
    assert idx !in st.written;
  }

  /** Whatever worker moves next, the invariant holds after its step. */
  lemma StepKeeps(tasks: seq<Task>, before: seq<seq<real>>, st: State, w: nat)
    requires Inv(tasks, before, st) && w < |st.pcs|
    ensures Inv(tasks, before, Step(tasks, st, w))
  {
    StepCounts(tasks, before, st, w);
    hide Counted, Owned, Written, Flagged;
    match st.pcs[w]
    case Fetching => ClaimWrites(tasks, before, st, w);
    case Claimed(_) => MiddleWrites(tasks, before, st, w);
    case Failing(_) => MiddleWrites(tasks, before, st, w);
    case Missing(_) => MissingWrites(tasks, before, st, w);
    case Writing(_) => WritingWrites(tasks, before, st, w);
    case Done =>
  }

  // ----- Every run ends

  function Rank(pc: Pc): nat {
    match pc
    case Done => 0
    case Fetching => 1
    case Missing(_) => 2
    case Writing(_) => 2
    case Failing(_) => 3
    case Claimed(_) => 4
  }

  function RankSum(pcs: seq<Pc>): nat {
    if pcs == [] then 0 else RankSum(pcs[..|pcs| - 1]) + Rank(pcs[|pcs| - 1])
  }

  lemma {:induction false} RankUpdated(pcs: seq<Pc>, w: nat, pc: Pc)
    requires w < |pcs|
    ensures RankSum(pcs[w := pc]) == RankSum(pcs) - Rank(pcs[w]) + Rank(pc)
  {
    var last := |pcs| - 1;
    if w == last {
      assert pcs[w := pc][..last] == pcs[..last];
    } else {
      RankUpdated(pcs[..last], w, pc);
      assert pcs[w := pc][..last] == pcs[..last][w := pc];
    }
  }

  lemma {:induction false} InitialRank(workers: nat)
    ensures RankSum(seq(workers, w => Fetching)) == workers
  {
    if workers > 0 {
      InitialRank(workers - 1);
      assert seq(workers, w => Fetching)[..workers - 1] == seq(workers - 1, w => Fetching);
    }
  }

  /** The steps that are left: four for each unclaimed task, and what each worker still has before it. */
  function Remaining(tasks: seq<Task>, st: State): int {
    4 * (|tasks| - |st.claims|) + RankSum(st.pcs)
  }

  /** Every step of a worker that is not done uses one of the remaining steps up. */
  lemma StepUsesUp(tasks: seq<Task>, before: seq<seq<real>>, st: State, w: nat)
    requires Inv(tasks, before, st) && w < |st.pcs| && !st.pcs[w].Done?
    ensures 0 <= Remaining(tasks, Step(tasks, st, w)) < Remaining(tasks, st)
  {
    hide Written, Flagged, DoneCount, RankSum;
    assert Owns(tasks, st.pcs[w], st.claims, w);
    StepIsCounted(tasks, st, w);
    hide Owned;
    var next := Step(tasks, st, w);
    RankUpdated(st.pcs, w, next.pcs[w]);
    RankIsPositive(next.pcs);
  }

  /** A schedule names the worker that moves next; it never names one that is done. */
  function RunSchedule(tasks: seq<Task>, st: State, schedule: seq<nat>): State
    requires |st.outputs| == |tasks|
    decreases |schedule|
  {
    if schedule == [] || schedule[0] >= |st.pcs| then st
    else RunSchedule(tasks, Step(tasks, st, schedule[0]), schedule[1..])
  }

  ghost predicate IsSchedule(tasks: seq<Task>, st: State, schedule: seq<nat>)
    requires |st.outputs| == |tasks|
    decreases |schedule|
  {
    schedule != [] ==>
      && schedule[0] < |st.pcs| && !st.pcs[schedule[0]].Done?
      && IsSchedule(tasks, Step(tasks, st, schedule[0]), schedule[1..])
  }

  lemma {:induction false} SchedulesEnd(tasks: seq<Task>, before: seq<seq<real>>, st: State, schedule: seq<nat>)
    requires Inv(tasks, before, st) && IsSchedule(tasks, st, schedule)
    ensures Inv(tasks, before, RunSchedule(tasks, st, schedule))
    ensures |schedule| <= Remaining(tasks, st)
    ensures |RunSchedule(tasks, st, schedule).pcs| == |st.pcs|
    decreases |schedule|
  {
    hide Written, Flagged, Owned, RankSum;
    if schedule == [] {
      RankIsPositive(st.pcs);
    } else {
      StepKeeps(tasks, before, st, schedule[0]);
      StepUsesUp(tasks, before, st, schedule[0]);
      SchedulesEnd(tasks, before, Step(tasks, st, schedule[0]), schedule[1..]);
    }
  }

  lemma RankIsPositive(pcs: seq<Pc>)
    ensures RankSum(pcs) >= 0
  {
  }

  // ----- What every interleaving ends with

  ghost predicate AllDone(st: State) {
    forall w :: 0 <= w < |st.pcs| ==> st.pcs[w].Done?
  }

  /** With at least one worker: every slot as one worker alone would leave it, every index claimed once, nothing lost. */
  lemma EndIsSequential(tasks: seq<Task>, outputs: seq<seq<real>>, st: State)
    requires Inv(tasks, Resized(outputs, |tasks|), st) && AllDone(st) && |st.pcs| > 0
    ensures st.outputs == Sequential(tasks, outputs)
    ensures st.success <==> AllSucceed(tasks)
    ensures st.counter == |tasks| + |st.pcs|
    ensures |st.claims| == |tasks| && forall i :: 0 <= i < |tasks| ==> st.claims[i] < |st.pcs|
    ensures forall i :: 0 <= i < |tasks| ==> (i in st.written <==> tasks[i].Evaluated?)
    ensures forall i, j :: 0 <= i < j < |st.written| ==> st.written[i] != st.written[j]
  {
    DoneAll(st.pcs);
    forall i | 0 <= i < |st.claims|
      ensures !IsPending(st, i)
    {
      assert st.pcs[st.claims[i]].Done?;
    }
  }

  /**
    * Every interleaving of at least one worker is over after at most 4 steps a task and one a worker, and when
    * all workers are done the outputs, the verdict and the counter are those of the sequential evaluation.
    */
  lemma EveryScheduleAgrees(tasks: seq<Task>, workers: nat, outputs: seq<seq<real>>, schedule: seq<nat>)
    requires workers > 0
    requires IsSchedule(tasks, Initial(tasks, workers, outputs), schedule)
    ensures |schedule| <= 4 * |tasks| + workers
    ensures var end := RunSchedule(tasks, Initial(tasks, workers, outputs), schedule);
            AllDone(end) ==>
              && end.outputs == Sequential(tasks, outputs)
              && (end.success <==> AllSucceed(tasks))
              && end.counter == |tasks| + workers
              && |end.claims| == |tasks| && (forall i :: 0 <= i < |tasks| ==> end.claims[i] < workers)
              && (forall i :: 0 <= i < |tasks| ==> (i in end.written <==> tasks[i].Evaluated?))
              && (forall i, j :: 0 <= i < j < |end.written| ==> end.written[i] != end.written[j])
              && |end.outputs| == |tasks|
              && (forall i :: 0 <= i < |tasks| && tasks[i].Evaluated? ==> end.outputs[i] == tasks[i].out)
              && (forall i :: 0 <= i < |tasks| && tasks[i].Absent? ==>
                    end.outputs[i] == if i < |outputs| then outputs[i] else [])
  {
    var start := Initial(tasks, workers, outputs);
    StartsWell(tasks, workers, outputs);
    InitialRank(workers);
    SchedulesEnd(tasks, Resized(outputs, |tasks|), start, schedule);
    var end := RunSchedule(tasks, start, schedule);
    hide Inv;
    if AllDone(end) {
      EndIsSequential(tasks, outputs, end);
    }
  }

  /**
    * The run itself, with the scheduler free to pick any worker that is not done; no worker, no work. The slot of
    * an absent component keeps what the caller had there.
    */
  method EvaluateComponentsParallel(tasks: seq<Task>, workers: nat, outputs: seq<seq<real>>)
    returns (success: bool, results: seq<seq<real>>)
    ensures workers > 0 ==> results == Sequential(tasks, outputs) && (success <==> AllSucceed(tasks))
    ensures workers == 0 ==> results == Resized(outputs, |tasks|) && success
    ensures |results| == |tasks|
    ensures forall i :: 0 <= i < |tasks| ==>
              results[i] ==
                if workers > 0 && tasks[i].Evaluated? then tasks[i].out
                else if i < |outputs| then outputs[i]
                else []
    ensures success <==> workers == 0 || forall i :: 0 <= i < |tasks| ==> tasks[i].Evaluated? && tasks[i].success
  {
    ghost var before := Resized(outputs, |tasks|);
    var st := Initial(tasks, workers, outputs);
    StartsWell(tasks, workers, outputs);
    hide Counted, Owned, Written, Flagged;
    while exists w :: 0 <= w < |st.pcs| && !st.pcs[w].Done?
      invariant Inv(tasks, before, st) && |st.pcs| == workers && |st.outputs| == |tasks|
      invariant workers == 0 ==> st == Initial(tasks, workers, outputs)
      decreases Remaining(tasks, st)
    {
      var w :| 0 <= w < |st.pcs| && !st.pcs[w].Done?;
      StepUsesUp(tasks, before, st, w);
      StepKeeps(tasks, before, st, w);
      OutputsKeepLength(tasks, st, w);
      st := Step(tasks, st, w);
    }
    if workers > 0 {
      EndIsSequential(tasks, outputs, st);
    }
    success, results := st.success, st.outputs;
  }

  lemma OutputsKeepLength(tasks: seq<Task>, st: State, w: nat)
    requires w < |st.pcs| && |st.outputs| == |tasks|
    ensures |Step(tasks, st, w).outputs| == |tasks| && |Step(tasks, st, w).pcs| == |st.pcs|
  {
  }
}
