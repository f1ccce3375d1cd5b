/** What a whole resolution promises about its roots. */
module ResolutionLaws {
  import opened Options
  import opened Versions
  import opened Resolver
  import opened ResolverLaws

  // ----- Soundness of a successful resolution

  /** An assignment that covers the roots and is closed under the dependencies of what it chooses. */
  ghost predicate IsSolution(reg: Registry, roots: seq<Dependency>, r: Assignment) {
    && (forall i :: 0 <= i < |roots| ==> Meets(roots[i], r))
    && (forall n :: n in r ==> Settled(reg, r, n))
  }

  lemma {:induction false} RootsAreSound(reg: Registry, limit: int, roots: seq<Dependency>, count: nat)
    requires count <= |roots|
    ensures var w := VisitRoots(reg, limit, roots, count);
            w.ok ==> IsSolution(reg, roots[..count], w.resolved) && ReachedFromAny(reg, map[], w.resolved, roots, count)
  {
    if count > 0 {
      RootsAreSound(reg, limit, roots, count - 1);
      var before := VisitRoots(reg, limit, roots, count - 1);
      if before.ok {
        var d := roots[count - 1];
        var w := Visit(reg, limit, d, 0, before.resolved, []);
        VisitIsSound(reg, limit, d, 0, before.resolved, []);
        VisitReaches(reg, limit, d, 0, before.resolved, []);
        if w.ok {
          OneMoreRoot(reg, roots, count, before.resolved, w.resolved);
        }
      }
    }
  }

  lemma OneMoreRoot(reg: Registry, roots: seq<Dependency>, count: nat, before: Assignment, after: Assignment)
    requires 0 < count <= |roots| && Extends(before, after)
    requires IsSolution(reg, roots[..count - 1], before) && ReachedFromAny(reg, map[], before, roots, count - 1)
    requires Meets(roots[count - 1], after) && SettledBeyond(reg, before, after)
    requires ReachedBeyond(reg, before, after, roots[count - 1].name)
    ensures IsSolution(reg, roots[..count], after) && ReachedFromAny(reg, map[], after, roots, count)
  {
    hide Settled, Satisfies, Reaches;
    forall i | 0 <= i < count
      ensures Meets(roots[..count][i], after)
    {
      if i < count - 1 {
        assert Meets(roots[..count - 1][i], before);
      }
    }
    forall n | n in after
      ensures Settled(reg, after, n) && exists i :: 0 <= i < count && Reaches(reg, after, roots[i].name, n)
    {
      if n in before {
        SettledStays(reg, before, after, n);
        var i :| 0 <= i < count - 1 && Reaches(reg, before, roots[i].name, n);
        ReachesStill(reg, before, after, roots[i].name, n);
      }
    }
  }

  /** For every registry, cyclic ones included: a successful resolution solves the roots and chooses nothing they do not need. */
  lemma ResolveIsSound(reg: Registry, roots: seq<Dependency>)
    requires Resolve(reg, roots).ok
    ensures IsSolution(reg, roots, Resolve(reg, roots).resolved)
    ensures forall n :: n in Resolve(reg, roots).resolved ==>
              exists i :: 0 <= i < |roots| && Reaches(reg, Resolve(reg, roots).resolved, roots[i].name, n)
  {
    hide VisitRoots, IsSolution, Reaches;
    RootsAreSound(reg, MAX_DEPTH, roots, |roots|);
    assert roots[..|roots|] == roots;
  }

  // ----- The depth limit

  lemma {:induction false} SubsetIsNoLarger<T>(a: set<T>, b: set<T>)
    requires a <= b
    ensures |a| <= |b|
  {
    if a != {} {
      var x :| x in a;
      SubsetIsNoLarger(a - {x}, b - {x});
    }
  }

  /** A frame at some depth has that many frames around it, each with a registered package of its own. */
  ghost predicate Nested(reg: Registry, depth: nat, resolved: Assignment) {
    depth <= |resolved| && resolved.Keys <= reg.Keys
  }

  lemma NestedIsBounded(reg: Registry, depth: nat, resolved: Assignment)
    requires Nested(reg, depth, resolved)
    ensures depth <= |reg|
  {
    SubsetIsNoLarger(resolved.Keys, reg.Keys);
    assert |resolved| == |resolved.Keys| && |reg| == |reg.Keys|;
  }

  lemma NestedBelow(reg: Registry, depth: nat, resolved: Assignment)
    ensures Nested(reg, depth + 1, resolved) ==> Nested(reg, depth, resolved)
  {
  }

  /** Choosing a version makes room for one more frame, and uses up a name. */
  lemma ChoiceNests(reg: Registry, depth: nat, resolved: Assignment, name: string, v: Version)
    requires Nested(reg, depth, resolved) && name in reg && name !in resolved
    ensures Nested(reg, depth + 1, resolved[name := v])
    ensures reg.Keys - resolved[name := v].Keys < reg.Keys - resolved.Keys
  {
    var chosen := resolved[name := v];
    assert chosen.Keys == resolved.Keys + {name};
    assert |chosen| == |chosen.Keys| && |resolved| == |resolved.Keys|;
    assert name in reg.Keys - resolved.Keys && name !in reg.Keys - chosen.Keys;
  }

  /** One step of a call that has to choose. */
  lemma VisitChooses(reg: Registry, limit: int, d: Dependency, depth: nat, resolved: Assignment, path: seq<Dependency>)
    requires depth <= limit && d.name !in resolved
    requires SelectBest(reg, d.name, d.constraint, resolved) != NO_VERSION
    ensures var best := SelectBest(reg, d.name, d.constraint, resolved);
            var deps, chosen := DependenciesOf(reg, d.name, best), resolved[d.name := best];
            var inner := VisitAll(reg, limit, deps, |deps|, depth + 1, chosen, path + [d]);
            var outer := Visit(reg, limit, d, depth, resolved, path);
            && d.name in reg
            && reg.Keys - chosen.Keys < reg.Keys - resolved.Keys
            && outer.ok == inner.ok && outer.error == inner.error
            && (inner.ok ==> outer.resolved == inner.resolved)
            && (Nested(reg, depth, resolved) ==> Nested(reg, depth + 1, chosen))
  {
    var best := SelectBest(reg, d.name, d.constraint, resolved);
    BestIsRegistered(reg, d.name, d.constraint, resolved);
    hide SelectBest, Satisfies, Nested;
    if Nested(reg, depth, resolved) {
      ChoiceNests(reg, depth, resolved, d.name, best);
    }
    var chosen := resolved[d.name := best];
    assert d.name in reg.Keys - resolved.Keys && d.name !in reg.Keys - chosen.Keys;
  }

  /** A call that does not choose. */
  lemma VisitStops(reg: Registry, limit: int, d: Dependency, depth: nat, resolved: Assignment, path: seq<Dependency>)
    requires depth > limit || d.name in resolved || SelectBest(reg, d.name, d.constraint, resolved) == NO_VERSION
    ensures var w := Visit(reg, limit, d, depth, resolved, path);
            w.resolved == resolved && (w.error == Some(TooDeep) ==> depth > limit)
  {
    hide Satisfies, SelectBest;
  }

  lemma {:induction false} VisitNests(reg: Registry, limit: int, d: Dependency, depth: nat,
                                      resolved: Assignment, path: seq<Dependency>)
    requires Nested(reg, depth, resolved)
    ensures var w := Visit(reg, limit, d, depth, resolved, path);
            (w.ok ==> Nested(reg, depth, w.resolved)) && (w.error == Some(TooDeep) ==> limit < |reg|)
    decreases reg.Keys - resolved.Keys, 0, 0
  {
    hide SelectBest, DependenciesOf, Nested, Visit, VisitAll;
    NestedIsBounded(reg, depth, resolved);
    if depth <= limit && d.name !in resolved && SelectBest(reg, d.name, d.constraint, resolved) != NO_VERSION {
      var best := SelectBest(reg, d.name, d.constraint, resolved);
      var deps, chosen := DependenciesOf(reg, d.name, best), resolved[d.name := best];
      VisitChooses(reg, limit, d, depth, resolved, path);
      VisitAllNests(reg, limit, deps, |deps|, depth + 1, chosen, path + [d]);
      NestedBelow(reg, depth, VisitAll(reg, limit, deps, |deps|, depth + 1, chosen, path + [d]).resolved);
    } else {
      VisitStops(reg, limit, d, depth, resolved, path);
    }
  }

  lemma {:induction false} VisitAllNests(reg: Registry, limit: int, deps: seq<Dependency>, count: nat, depth: nat,
                                         resolved: Assignment, path: seq<Dependency>)
    requires count <= |deps| && Nested(reg, depth, resolved)
    ensures var w := VisitAll(reg, limit, deps, count, depth, resolved, path);
            (w.ok ==> Nested(reg, depth, w.resolved)) && (w.error == Some(TooDeep) ==> limit < |reg|)
    decreases reg.Keys - resolved.Keys, 1, count
  {
    if count > 0 {
      VisitAllNests(reg, limit, deps, count - 1, depth, resolved, path);
      var before := VisitAll(reg, limit, deps, count - 1, depth, resolved, path);
      if before.ok {
        assert resolved.Keys <= before.resolved.Keys;
        assert reg.Keys - before.resolved.Keys <= reg.Keys - resolved.Keys;
        VisitNests(reg, limit, deps[count - 1], depth, before.resolved, before.path);
      }
    }
  }

  lemma {:induction false} RootsNest(reg: Registry, limit: int, roots: seq<Dependency>, count: nat)
    requires count <= |roots|
    ensures var w := VisitRoots(reg, limit, roots, count);
            (w.ok ==> Nested(reg, 0, w.resolved)) && (w.error == Some(TooDeep) ==> limit < |reg|)
  {
    if count > 0 {
      RootsNest(reg, limit, roots, count - 1);
      var before := VisitRoots(reg, limit, roots, count - 1);
      if before.ok {
        VisitNests(reg, limit, roots[count - 1], 0, before.resolved, []);
      }
    }
  }

  /** The depth error can only come from a registry of more than 100 packages, however cyclic. */
  lemma DepthErrorNeedsManyPackages(reg: Registry, roots: seq<Dependency>)
    requires Resolve(reg, roots).error == Some(TooDeep)
    ensures |reg| >= 101
  {
    RootsNest(reg, MAX_DEPTH, roots, |roots|);
  }

  /** Below its reach the limit makes no difference: the search would end the same way with any larger one. */
  lemma {:induction false} LimitIsIdle(reg: Registry, limit: int, larger: int, d: Dependency, depth: nat,
                                       resolved: Assignment, path: seq<Dependency>)
    requires Nested(reg, depth, resolved) && |reg| <= limit <= larger
    ensures Visit(reg, limit, d, depth, resolved, path) == Visit(reg, larger, d, depth, resolved, path)
    decreases reg.Keys - resolved.Keys, 0, 0
  {
    NestedIsBounded(reg, depth, resolved);
    if d.name !in resolved && SelectBest(reg, d.name, d.constraint, resolved) != NO_VERSION {
      var best := SelectBest(reg, d.name, d.constraint, resolved);
      BestIsRegistered(reg, d.name, d.constraint, resolved);
      var deps, chosen := DependenciesOf(reg, d.name, best), resolved[d.name := best];
      ChoiceNests(reg, depth, resolved, d.name, best);
      hide SelectBest, DependenciesOf, Nested;
      LimitIsIdleForAll(reg, limit, larger, deps, |deps|, depth + 1, chosen, path + [d]);
    }
  }

  lemma {:induction false} LimitIsIdleForAll(reg: Registry, limit: int, larger: int, deps: seq<Dependency>, count: nat,
                                             depth: nat, resolved: Assignment, path: seq<Dependency>)
    requires count <= |deps| && Nested(reg, depth, resolved) && |reg| <= limit <= larger
    ensures VisitAll(reg, limit, deps, count, depth, resolved, path) == VisitAll(reg, larger, deps, count, depth, resolved, path)
    decreases reg.Keys - resolved.Keys, 1, count
  {
    if count > 0 {
      LimitIsIdleForAll(reg, limit, larger, deps, count - 1, depth, resolved, path);
      VisitAllNests(reg, limit, deps, count - 1, depth, resolved, path);
      var before := VisitAll(reg, limit, deps, count - 1, depth, resolved, path);
      if before.ok {
        assert resolved.Keys <= before.resolved.Keys;
        assert reg.Keys - before.resolved.Keys <= reg.Keys - resolved.Keys;
        LimitIsIdle(reg, limit, larger, deps[count - 1], depth, before.resolved, before.path);
      }
    }
  }

  // ----- What a failure takes back

  /** A failing call takes its own choice back, and keeps every choice made before it. */
  lemma {:induction false} FailureErases(reg: Registry, limit: int, d: Dependency, depth: nat,
                                         resolved: Assignment, path: seq<Dependency>)
    requires !Visit(reg, limit, d, depth, resolved, path).ok
    ensures var after := Visit(reg, limit, d, depth, resolved, path).resolved;
            Extends(resolved, after) && (d.name in after <==> d.name in resolved)
    decreases reg.Keys - resolved.Keys, 0, 0
  {
    hide SelectBest, DependenciesOf, Satisfies;
    if depth <= limit && d.name !in resolved && SelectBest(reg, d.name, d.constraint, resolved) != NO_VERSION {
      var best := SelectBest(reg, d.name, d.constraint, resolved);
      BestIsRegistered(reg, d.name, d.constraint, resolved);
      var deps, chosen := DependenciesOf(reg, d.name, best), resolved[d.name := best];
      assert d.name in reg.Keys - resolved.Keys && d.name !in reg.Keys - chosen.Keys;
      FailureKeeps(reg, limit, deps, |deps|, depth + 1, chosen, path + [d]);
    }
  }

  lemma {:induction false} FailureKeeps(reg: Registry, limit: int, deps: seq<Dependency>, count: nat, depth: nat,
                                        resolved: Assignment, path: seq<Dependency>)
    requires count <= |deps| && !VisitAll(reg, limit, deps, count, depth, resolved, path).ok
    ensures Extends(resolved, VisitAll(reg, limit, deps, count, depth, resolved, path).resolved)
    decreases reg.Keys - resolved.Keys, 1, count
  {
    hide Visit;
    var before := VisitAll(reg, limit, deps, count - 1, depth, resolved, path);
    if before.ok {
      assert resolved.Keys <= before.resolved.Keys;
      assert reg.Keys - before.resolved.Keys <= reg.Keys - resolved.Keys;
      FailureErases(reg, limit, deps[count - 1], depth, before.resolved, before.path);
    } else {
      FailureKeeps(reg, limit, deps, count - 1, depth, resolved, path);
    }
  }

  // ----- The path left by a failure

  ghost predicate DistinctNames(path: seq<Dependency>, count: int) {
    forall i, j :: 0 <= i < j < count && j < |path| ==> path[i].name != path[j].name
  }

  /** The frames around a call: as many as its depth, with different names, all of them chosen. */
  ghost predicate IsStack(path: seq<Dependency>, depth: nat, resolved: Assignment) {
    && |path| == depth
    && DistinctNames(path, depth)
    && forall i :: 0 <= i < depth ==> path[i].name in resolved
  }

  /** The version that the call for d chooses when it is entered with the assignment `from`. */
  function Choice(reg: Registry, d: Dependency, from: Assignment): Version {
    SelectBest(reg, d.name, d.constraint, from)
  }

  /**
    * The call for path[i], entered with `from`, chooses a version, resolves the first k dependencies of that version,
    * which leaves `to`, and goes on to the next one, path[i + 1].
    */
  predicate CallsBy(reg: Registry, limit: int, path: seq<Dependency>, i: nat, from: Assignment, to: Assignment, k: nat)
    requires i + 1 < |path|
  {
    var v := Choice(reg, path[i], from);
    var deps, chosen := DependenciesOf(reg, path[i].name, v), from[path[i].name := v];
    && path[i].name !in from && v != NO_VERSION
    && k < |deps| && deps[k] == path[i + 1]
    && VisitAll(reg, limit, deps, k, i + 1, chosen, path[..i + 1]) == Walk(true, to, path[..i + 1], None)
  }

  ghost predicate Calls(reg: Registry, limit: int, path: seq<Dependency>, i: nat, from: Assignment, to: Assignment)
    requires i + 1 < |path|
  {
    exists k: nat :: CallsBy(reg, limit, path, i, from, to, k)
  }

  /** frames[j] is the assignment with which the call for path[start + j] was entered. */
  ghost predicate AreFrames(reg: Registry, limit: int, path: seq<Dependency>, start: nat, frames: seq<Assignment>) {
    && start + |frames| == |path|
    && forall j :: 0 <= j < |frames| - 1 ==> Calls(reg, limit, path, start + j, frames[j], frames[j + 1])
  }

  /** The error is the one of the call for d, entered with `from`. */
  ghost predicate Explains(reg: Registry, d: Dependency, from: Assignment, e: ResolveError) {
    match e
    case TooDeep => d.name !in from && Choice(reg, d, from) != NO_VERSION
    case Conflict(n, needed, existing) =>
      n == d.name && needed == d.constraint.raw && n in from && from[n] == existing && !Satisfies(d.constraint, existing)
    case NotFound(n) => n == d.name && n !in from && (n !in reg || reg[n] == [])
    case Unsatisfied(n, needed) =>
      n == d.name && needed == d.constraint.raw && n !in from && n in reg && reg[n] != [] && Choice(reg, d, from) == NO_VERSION
  }

  /** What a failing call for `d` has added to the path it was given, and with which frames. */
  ghost predicate FailsWith(reg: Registry, limit: int, d: Dependency, depth: nat, resolved: Assignment,
                            path: seq<Dependency>, w: Walk, frames: seq<Assignment>)
  {
    && path <= w.path && w.error.Some?
    && (w.path == path <==> depth > limit)
    && (w.path == path ==> w.error == Some(TooDeep))
    && AreFrames(reg, limit, w.path, |path|, frames)
    && (w.path != path ==>
          w.path[|path|] == d && frames[0] == resolved
          && Explains(reg, w.path[|w.path| - 1], frames[|frames| - 1], w.error.value))
    && DistinctNames(w.path, |w.path| - 1)
    && (w.error == Some(TooDeep) ==> |w.path| == limit + 1 && DistinctNames(w.path, |w.path|))
  }

  ghost predicate FailsBehind(reg: Registry, limit: int, d: Dependency, depth: nat, resolved: Assignment,
                              path: seq<Dependency>, w: Walk)
  {
    exists frames :: FailsWith(reg, limit, d, depth, resolved, path, w, frames)
  }

  lemma FramesGrow(reg: Registry, limit: int, path: seq<Dependency>, start: nat, from: Assignment, frames: seq<Assignment>)
    requires AreFrames(reg, limit, path, start + 1, frames)
    requires frames != [] ==> Calls(reg, limit, path, start, from, frames[0])
    ensures AreFrames(reg, limit, path, start, [from] + frames)
  {
    hide Calls;
    var longer := [from] + frames;
    forall j | 0 <= j < |longer| - 1
      ensures Calls(reg, limit, path, start + j, longer[j], longer[j + 1])
    {
      assert longer[j + 1] == frames[j];
      if j > 0 {
        assert longer[j] == frames[j - 1];
        assert Calls(reg, limit, path, start + 1 + (j - 1), frames[j - 1], frames[j - 1 + 1]);
      }
    }
  }

  /** The call for d failed in the call for its dependency number k. */
  lemma PathGrows(reg: Registry, limit: int, d: Dependency, depth: nat, resolved: Assignment, path: seq<Dependency>,
                  k: nat, before: Walk, w: Walk)
    requires IsStack(path, depth, resolved) && d.name !in resolved && depth <= limit
    requires Choice(reg, d, resolved) != NO_VERSION
    requires var deps := DependenciesOf(reg, d.name, Choice(reg, d, resolved));
             var chosen := resolved[d.name := Choice(reg, d, resolved)];
             && k < |deps|
             && before == VisitAll(reg, limit, deps, k, depth + 1, chosen, path + [d])
             && before == Walk(true, before.resolved, path + [d], None)
             && FailsBehind(reg, limit, deps[k], depth + 1, before.resolved, path + [d], w)
    ensures FailsBehind(reg, limit, d, depth, resolved, path, w)
  {
    hide DependenciesOf, VisitAll, Choice;
    var next := DependenciesOf(reg, d.name, Choice(reg, d, resolved))[k];
    hide Explains, AreFrames;
    var frames :| FailsWith(reg, limit, next, depth + 1, before.resolved, path + [d], w, frames);
    assert w.path[..|path|] == path && w.path[..|path| + 1] == path + [d] && w.path[|path|] == d;
    var longer := [resolved] + frames;
    if w.path == path + [d] {
      assert |frames| == 0 by { NoFrames(reg, limit, w.path, depth + 1, frames); }
      assert Explains(reg, d, resolved, TooDeep) by { TooDeepExplained(reg, d, resolved); }
    } else {
      SomeFrames(reg, limit, w.path, depth + 1, frames);
      assert CallsBy(reg, limit, w.path, depth, resolved, before.resolved, k);
    }
    FramesGrow(reg, limit, w.path, depth, resolved, frames);
    assert FailsWith(reg, limit, d, depth, resolved, path, w, longer);
  }

  lemma TooDeepExplained(reg: Registry, d: Dependency, from: Assignment)
    requires d.name !in from && Choice(reg, d, from) != NO_VERSION
    ensures Explains(reg, d, from, TooDeep)
  {
  }

  lemma NoFrames(reg: Registry, limit: int, path: seq<Dependency>, start: nat, frames: seq<Assignment>)
    requires AreFrames(reg, limit, path, start, frames) && |path| == start
    ensures frames == []
  {
  }

  lemma SomeFrames(reg: Registry, limit: int, path: seq<Dependency>, start: nat, frames: seq<Assignment>)
    requires AreFrames(reg, limit, path, start, frames)
    ensures |frames| == |path| - start
  {
  }

  lemma StackGrows(path: seq<Dependency>, depth: nat, resolved: Assignment, d: Dependency, best: Version)
    requires IsStack(path, depth, resolved) && d.name !in resolved
    ensures IsStack(path + [d], depth + 1, resolved[d.name := best])
  {
  }

  /** A successful call leaves the path as it was; a failing one leaves the frames that lead to the failure. */
  lemma {:induction false} VisitPath(reg: Registry, limit: int, d: Dependency, depth: nat,
                                     resolved: Assignment, path: seq<Dependency>)
    requires IsStack(path, depth, resolved) && depth <= limit + 1
    ensures var w := Visit(reg, limit, d, depth, resolved, path);
            (w.ok ==> w.path == path && w.error == None) && (!w.ok ==> FailsBehind(reg, limit, d, depth, resolved, path, w))
    decreases reg.Keys - resolved.Keys, 0, 0
  {
    if depth <= limit && d.name !in resolved && SelectBest(reg, d.name, d.constraint, resolved) != NO_VERSION {
      var best := SelectBest(reg, d.name, d.constraint, resolved);
      BestIsRegistered(reg, d.name, d.constraint, resolved);
      var deps, chosen := DependenciesOf(reg, d.name, best), resolved[d.name := best];
      assert d.name in reg.Keys - resolved.Keys && d.name !in reg.Keys - chosen.Keys;
      StackGrows(path, depth, resolved, d, best);
      VisitAllPath(reg, limit, deps, |deps|, depth + 1, chosen, path + [d]);
      var w := VisitAll(reg, limit, deps, |deps|, depth + 1, chosen, path + [d]);
      hide FailsBehind, IsStack, SelectBest, VisitAll;
      if w.ok {
        assert Pop(path + [d]) == path;
      } else {
        var k: nat :| k < |deps| && FailsAt(reg, limit, deps, k, depth + 1, chosen, path + [d], w);
        PathGrows(reg, limit, d, depth, resolved, path, k, VisitAll(reg, limit, deps, k, depth + 1, chosen, path + [d]), w);
        FailureForgetsChoice(reg, limit, d, depth, resolved, path, w);
      }
    } else {
      FailsHere(reg, limit, d, depth, resolved, path);
    }
  }

  lemma FailureForgetsChoice(reg: Registry, limit: int, d: Dependency, depth: nat, resolved: Assignment,
                             path: seq<Dependency>, w: Walk)
    requires FailsBehind(reg, limit, d, depth, resolved, path, w)
    ensures FailsBehind(reg, limit, d, depth, resolved, path, w.(resolved := w.resolved - {d.name}))
  {
    var frames :| FailsWith(reg, limit, d, depth, resolved, path, w, frames);
    hide AreFrames, Explains;
    assert FailsWith(reg, limit, d, depth, resolved, path, w.(resolved := w.resolved - {d.name}), frames);
  }

  lemma FailsHere(reg: Registry, limit: int, d: Dependency, depth: nat, resolved: Assignment, path: seq<Dependency>)
    requires IsStack(path, depth, resolved) && depth <= limit + 1
    requires depth > limit || d.name in resolved || SelectBest(reg, d.name, d.constraint, resolved) == NO_VERSION
    ensures var w := Visit(reg, limit, d, depth, resolved, path);
            (w.ok ==> w.path == path && w.error == None) && (!w.ok ==> FailsBehind(reg, limit, d, depth, resolved, path, w))
  {
    hide Satisfies, SelectBest, VisitAll;
    var w := Visit(reg, limit, d, depth, resolved, path);
    if !w.ok {
      var frames := if depth > limit then [] else [resolved];
      assert AreFrames(reg, limit, w.path, |path|, frames);
      assert FailsWith(reg, limit, d, depth, resolved, path, w, frames);
    }
  }

  /** The first k dependencies are resolved, and the call for number k fails. */
  ghost predicate FailsAt(reg: Registry, limit: int, deps: seq<Dependency>, k: nat, depth: nat, resolved: Assignment,
                          path: seq<Dependency>, w: Walk)
    requires k < |deps|
  {
    var before := VisitAll(reg, limit, deps, k, depth, resolved, path);
    before == Walk(true, before.resolved, path, None) && FailsBehind(reg, limit, deps[k], depth, before.resolved, path, w)
  }

  lemma {:induction false} VisitAllPath(reg: Registry, limit: int, deps: seq<Dependency>, count: nat, depth: nat,
                                        resolved: Assignment, path: seq<Dependency>)
    requires count <= |deps| && IsStack(path, depth, resolved) && depth <= limit + 1
    ensures var w := VisitAll(reg, limit, deps, count, depth, resolved, path);
            (w.ok ==> w.path == path && w.error == None)
            && (!w.ok ==> exists k: nat :: k < count && FailsAt(reg, limit, deps, k, depth, resolved, path, w))
    decreases reg.Keys - resolved.Keys, 1, count
  {
    hide FailsBehind;
    if count > 0 {
      VisitAllPath(reg, limit, deps, count - 1, depth, resolved, path);
      var before := VisitAll(reg, limit, deps, count - 1, depth, resolved, path);
      if before.ok {
        assert reg.Keys - before.resolved.Keys <= reg.Keys - resolved.Keys;
        VisitPath(reg, limit, deps[count - 1], depth, before.resolved, before.path);
        hide Visit;
        var w := VisitAll(reg, limit, deps, count, depth, resolved, path);
        assert !w.ok ==> FailsAt(reg, limit, deps, count - 1, depth, resolved, path, w);
      }
    }
  }

  /** The first k roots are resolved, and the call for number k fails. */
  ghost predicate RootFails(reg: Registry, limit: int, roots: seq<Dependency>, k: nat, w: Walk)
    requires k < |roots|
  {
    var before := VisitRoots(reg, limit, roots, k);
    before.ok && FailsBehind(reg, limit, roots[k], 0, before.resolved, [], w)
  }

  lemma {:induction false} RootsFailBehind(reg: Registry, limit: nat, roots: seq<Dependency>, count: nat)
    requires count <= |roots|
    ensures var w := VisitRoots(reg, limit, roots, count);
            (w.ok ==> w.path == []) && (!w.ok ==> exists k: nat :: k < count && RootFails(reg, limit, roots, k, w))
  {
    hide FailsBehind;
    if count > 0 {
      RootsFailBehind(reg, limit, roots, count - 1);
      var before := VisitRoots(reg, limit, roots, count - 1);
      if before.ok {
        VisitPath(reg, limit, roots[count - 1], 0, before.resolved, []);
        var w := VisitRoots(reg, limit, roots, count);
        assert !w.ok ==> RootFails(reg, limit, roots, count - 1, w);
      }
    }
  }

  /** The version chosen for d under `from` has d's constraint met and the dependency e, and `to` keeps the choice. */
  ghost predicate ChoosesNext(reg: Registry, d: Dependency, e: Dependency, from: Assignment, to: Assignment) {
    var v := Choice(reg, d, from);
    && d.name !in from && IsRegistered(reg, d.name, v) && Satisfies(d.constraint, v)
    && e in DependenciesOf(reg, d.name, v)
    && Extends(from[d.name := v], to)
  }

  /** Each next entry is a dependency of the version chosen for the one before, and no choice is taken back. */
  ghost predicate IsChosenPath(reg: Registry, path: seq<Dependency>, frames: seq<Assignment>) {
    && |frames| == |path|
    && forall i :: 0 <= i < |path| - 1 ==> ChoosesNext(reg, path[i], path[i + 1], frames[i], frames[i + 1])
  }

  lemma CallIsChosen(reg: Registry, limit: int, path: seq<Dependency>, i: nat, from: Assignment, to: Assignment)
    requires i + 1 < |path| && Calls(reg, limit, path, i, from, to)
    ensures ChoosesNext(reg, path[i], path[i + 1], from, to)
  {
    hide DependenciesOf, VisitAll, SelectBest, IsRegistered, Satisfies;
    BestIsRegistered(reg, path[i].name, path[i].constraint, from);
  }

  lemma FramesAreChosen(reg: Registry, limit: int, path: seq<Dependency>, frames: seq<Assignment>)
    requires AreFrames(reg, limit, path, 0, frames)
    ensures IsChosenPath(reg, path, frames)
  {
    hide Calls, ChoosesNext;
    forall i | 0 <= i < |path| - 1
      ensures ChoosesNext(reg, path[i], path[i + 1], frames[i], frames[i + 1])
    {
      assert Calls(reg, limit, path, 0 + i, frames[i], frames[i + 1]);
      CallIsChosen(reg, limit, path, i, frames[i], frames[i + 1]);
    }
  }

  /** The first k roots are resolved, which leaves `from`. */
  predicate EntersRoot(reg: Registry, roots: seq<Dependency>, k: nat, from: Assignment)
    requires k < |roots|
  {
    VisitRoots(reg, MAX_DEPTH, roots, k).ok && VisitRoots(reg, MAX_DEPTH, roots, k).resolved == from
  }

  /** The frames of the failing search, from the root that failed to the call the error is about. */
  ghost predicate IsFailure(reg: Registry, root: Dependency, from: Assignment, w: Walk, frames: seq<Assignment>) {
    && w.path != [] && w.error.Some? && |frames| == |w.path|
    && w.path[0] == root && frames[0] == from
    && AreFrames(reg, MAX_DEPTH, w.path, 0, frames)
    && IsChosenPath(reg, w.path, frames)
    && Explains(reg, w.path[|w.path| - 1], frames[|frames| - 1], w.error.value)
    && (w.error == Some(TooDeep) ==> |w.path| == 101 && DistinctNames(w.path, |w.path|))
    && DistinctNames(w.path, |w.path| - 1)
  }

  lemma FailureFrames(reg: Registry, root: Dependency, from: Assignment, w: Walk) returns (frames: seq<Assignment>)
    requires FailsBehind(reg, MAX_DEPTH, root, 0, from, [], w)
    ensures IsFailure(reg, root, from, w, frames)
  {
    hide AreFrames, Explains, IsChosenPath, DistinctNames;
    var none: seq<Dependency> := [];
    frames :| FailsWith(reg, MAX_DEPTH, root, 0, from, none, w, frames);
    assert |none| == 0 && w.path != none;
    SomeFrames(reg, MAX_DEPTH, w.path, 0, frames);
    assert w.path[0] == root && frames[0] == from;
    FramesAreChosen(reg, MAX_DEPTH, w.path, frames);
  }

  /**
    * The conflict chain starts at a root; each next entry is a dependency of the version the search chose for the one
    * before, under the assignment it had reached there; the last entry is the one the error is about; and no frame
    * repeats a name.
    */
  lemma ConflictChainIsReal(reg: Registry, roots: seq<Dependency>) returns (k: nat, frames: seq<Assignment>)
    requires !Resolve(reg, roots).ok
    ensures k < |roots| && frames != [] && EntersRoot(reg, roots, k, frames[0])
    ensures IsFailure(reg, roots[k], frames[0], Resolve(reg, roots), frames)
  {
    hide FailsBehind, IsFailure;
    RootsFailBehind(reg, MAX_DEPTH, roots, |roots|);
    var w := Resolve(reg, roots);
    k :| k < |roots| && RootFails(reg, MAX_DEPTH, roots, k, w);
    var from := VisitRoots(reg, MAX_DEPTH, roots, k).resolved;
    frames := FailureFrames(reg, roots[k], from, w);
    FirstFrame(reg, roots[k], from, w, frames);
  }

  lemma FirstFrame(reg: Registry, root: Dependency, from: Assignment, w: Walk, frames: seq<Assignment>)
    requires IsFailure(reg, root, from, w, frames)
    ensures frames != [] && frames[0] == from
  {
  }

  // ----- Completeness when there is nothing to choose

  /** Every package has one version, and it is not the version that means "none". */
  ghost predicate HasSingleVersions(reg: Registry) {
    forall n :: n in reg ==> |reg[n]| == 1 && reg[n][0].version != NO_VERSION
  }

  lemma OnlyChoice(reg: Registry, d: Dependency, resolved: Assignment, s: Assignment)
    requires HasSingleVersions(reg) && Meets(d, s) && Settled(reg, s, d.name) && Extends(resolved, s)
    ensures SelectBest(reg, d.name, d.constraint, resolved) == s[d.name] != NO_VERSION
  {
    hide Satisfies;
    var m := reg[d.name][0];
    assert FindVersion(reg[d.name], s[d.name]).value == m;
    assert DependenciesOf(reg, d.name, s[d.name]) == m.dependencies;
    forall i | 0 <= i < |m.dependencies|
      ensures !Clashes(m.dependencies[i], resolved)
    {
      assert Meets(m.dependencies[i], s);
    }
    assert IsEligible(m, d.constraint, resolved);
  }

  ghost predicate AllSettled(reg: Registry, s: Assignment) {
    forall n :: n in s ==> Settled(reg, s, n)
  }

  lemma VisitKnown(reg: Registry, limit: int, d: Dependency, depth: nat, resolved: Assignment, path: seq<Dependency>)
    requires depth <= limit && Meets(d, resolved)
    ensures Visit(reg, limit, d, depth, resolved, path) == Walk(true, resolved, path, None)
  {
    hide Satisfies;
  }

  lemma DependenciesAreMet(reg: Registry, s: Assignment, n: string)
    requires AllSettled(reg, s) && n in s
    ensures Settled(reg, s, n)
    ensures var deps := DependenciesOf(reg, n, s[n]);
            forall k :: 0 <= k < |deps| ==> Meets(deps[k], s)
  {
    hide Satisfies, IsRegistered, DependenciesOf;
  }

  /** Inside a solution every call succeeds and stays inside it. */
  lemma {:induction false} VisitStaysWithin(reg: Registry, limit: int, d: Dependency, depth: nat,
                                            resolved: Assignment, path: seq<Dependency>, s: Assignment)
    requires HasSingleVersions(reg) && |reg| <= limit && Nested(reg, depth, resolved)
    requires AllSettled(reg, s) && Meets(d, s) && Extends(resolved, s)
    ensures var w := Visit(reg, limit, d, depth, resolved, path);
            w.ok && Extends(w.resolved, s)
    decreases reg.Keys - resolved.Keys, 0, 0
  {
    hide Satisfies, IsRegistered, DependenciesOf, HasSingleVersions, AllSettled, Settled, Nested, SelectBest, Visit, VisitAll;
    NestedIsBounded(reg, depth, resolved);
    if d.name in resolved {
      assert s[d.name] == resolved[d.name];
      VisitKnown(reg, limit, d, depth, resolved, path);
    } else {
      DependenciesAreMet(reg, s, d.name);
      OnlyChoice(reg, d, resolved, s);
      VisitChooses(reg, limit, d, depth, resolved, path);
      var deps := DependenciesOf(reg, d.name, s[d.name]);
      VisitAllStaysWithin(reg, limit, deps, |deps|, depth + 1, resolved[d.name := s[d.name]], path + [d], s);
    }
  }

  lemma {:induction false} VisitAllStaysWithin(reg: Registry, limit: int, deps: seq<Dependency>, count: nat, depth: nat,
                                               resolved: Assignment, path: seq<Dependency>, s: Assignment)
    requires count <= |deps| && HasSingleVersions(reg) && |reg| <= limit && Nested(reg, depth, resolved)
    requires AllSettled(reg, s) && Extends(resolved, s)
    requires forall k :: 0 <= k < |deps| ==> Meets(deps[k], s)
    ensures var w := VisitAll(reg, limit, deps, count, depth, resolved, path);
            w.ok && Extends(w.resolved, s)
    decreases reg.Keys - resolved.Keys, 1, count
  {
    hide Meets, AllSettled, HasSingleVersions, Nested, Visit;
    if count > 0 {
      VisitAllStaysWithin(reg, limit, deps, count - 1, depth, resolved, path, s);
      VisitAllNests(reg, limit, deps, count - 1, depth, resolved, path);
      var before := VisitAll(reg, limit, deps, count - 1, depth, resolved, path);
      assert resolved.Keys <= before.resolved.Keys;
      assert reg.Keys - before.resolved.Keys <= reg.Keys - resolved.Keys;
      VisitStaysWithin(reg, limit, deps[count - 1], depth, before.resolved, before.path, s);
    }
  }

  lemma {:induction false} RootsStayWithin(reg: Registry, limit: nat, roots: seq<Dependency>, count: nat, s: Assignment)
    requires count <= |roots| && HasSingleVersions(reg) && |reg| <= limit && IsSolution(reg, roots, s)
    ensures var w := VisitRoots(reg, limit, roots, count);
            w.ok && Extends(w.resolved, s)
  {
    hide Meets, Settled, HasSingleVersions;
    if count > 0 {
      RootsStayWithin(reg, limit, roots, count - 1, s);
      RootsNest(reg, limit, roots, count - 1);
      var before := VisitRoots(reg, limit, roots, count - 1);
      VisitStaysWithin(reg, limit, roots[count - 1], 0, before.resolved, [], s);
    }
  }

  /**
    * With one version per package and at most 100 packages, resolution succeeds exactly when the roots have a
    * solution, and its answer is contained in every solution.
    */
  lemma ResolveFindsLeast(reg: Registry, roots: seq<Dependency>)
    requires HasSingleVersions(reg) && |reg| <= 100
    ensures Resolve(reg, roots).ok <==> exists s :: IsSolution(reg, roots, s)
    ensures forall s :: IsSolution(reg, roots, s) ==> Extends(Resolve(reg, roots).resolved, s)
  {
    hide IsSolution, HasSingleVersions, VisitRoots;
    if Resolve(reg, roots).ok {
      ResolveIsSound(reg, roots);
    }
    forall s | IsSolution(reg, roots, s)
      ensures Resolve(reg, roots).ok && Extends(Resolve(reg, roots).resolved, s)
    {
      RootsStayWithin(reg, MAX_DEPTH, roots, |roots|, s);
    }
  }

  // ----- With a choice, the greedy search can miss

  const ANY := Constraint("*", Any, NO_VERSION, NO_VERSION)

  function TwoVersions(): Registry {
    map["a" := [Metadata("a", Version(1, 0, 0, ""), []),
                Metadata("a", Version(2, 0, 0, ""), [Dependency("b", ANY)])]]
  }

  /** The newest version of a needs the missing b; version 1 would do, but is not tried. */
  lemma GreedyCanMiss()
    ensures Valid(TwoVersions())
    ensures IsSolution(TwoVersions(), [Dependency("a", ANY)], map["a" := Version(1, 0, 0, "")])
    ensures !Resolve(TwoVersions(), [Dependency("a", ANY)]).ok
  {
    var reg, a, b := TwoVersions(), Dependency("a", ANY), Dependency("b", ANY);
    var v1, v2 := Version(1, 0, 0, ""), Version(2, 0, 0, "");
    assert FindVersion(reg["a"], v1) == Some(reg["a"][0]);
    assert FindVersion(reg["a"], v2) == Some(reg["a"][1]) by {
      assert reg["a"][1..] == [reg["a"][1]];
    }
    assert IsEligible(reg["a"][1], ANY, map[]);
    assert SelectBest(reg, "a", ANY, map[]) == v2;
    assert DependenciesOf(reg, "a", v2) == [b];
    var inner := VisitAll(reg, MAX_DEPTH, [b], 1, 1, map["a" := v2], [a]);
    assert VisitAll(reg, MAX_DEPTH, [b], 0, 1, map["a" := v2], [a]).ok;
    assert "b" != "a" && "b" !in reg;
    assert !Visit(reg, MAX_DEPTH, b, 1, map["a" := v2], [a]).ok;
    assert !inner.ok;
    assert VisitRoots(reg, MAX_DEPTH, [a], 0) == Walk(true, map[], [], None);
    assert [] + [a] == [a];
    assert !Visit(reg, MAX_DEPTH, a, 0, map[], []).ok;
  }
}
