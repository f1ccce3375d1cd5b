/** Soundness, termination, failure paths and completeness of dependency resolution. */
module ResolverLaws {
  import opened Options
  import opened Versions
  import opened Resolver

  // ----- The registry stays ordered

  lemma {:induction false} InsertKeepsOrder(t: seq<Metadata>, pkg: Metadata)
    requires Ascending(t)
    ensures Ascending(Insert(t, pkg)) && Insert(t, pkg) != []
    ensures forall e :: e in Insert(t, pkg) <==> e == pkg || (e in t && e.version != pkg.version)
  {
    if t != [] {
      var rest := t[1..];
      forall e | e in rest
        ensures Less(t[0].version, e.version)
      {
        var i :| 0 <= i < |rest| && rest[i] == e;
        assert t[i + 1] == e;
      }
      if Less(pkg.version, t[0].version) {
        forall e | e in t
          ensures Less(pkg.version, e.version)
        {
          VersionOrder(pkg.version, t[0].version, e.version);
        }
      } else {
        InsertKeepsOrder(rest, pkg);
        VersionOrder(pkg.version, t[0].version, pkg.version);
        VersionOrder(t[0].version, t[0].version, t[0].version);
        assert t == [t[0]] + rest;
      }
      VersionOrder(pkg.version, pkg.version, pkg.version);
    }
  }

  /** Registering adds the package, replaces its own version and touches no other. */
  lemma RegisterKeepsRegistry(reg: Registry, pkg: Metadata)
    requires Valid(reg)
    ensures Valid(Register(reg, pkg))
    ensures forall e :: e in Register(reg, pkg)[pkg.name] <==>
              e == pkg || (pkg.name in reg && e in reg[pkg.name] && e.version != pkg.version)
    ensures forall n :: n != pkg.name ==> (n in Register(reg, pkg) <==> n in reg)
    ensures forall n :: n != pkg.name && n in reg ==> Register(reg, pkg)[n] == reg[n]
  {
    InsertKeepsOrder(if pkg.name in reg then reg[pkg.name] else [], pkg);
  }

  // ----- The chosen version is the greatest

  lemma {:induction false} EntryIsFound(t: seq<Metadata>, i: nat)
    requires Ascending(t) && i < |t|
    ensures FindVersion(t, t[i].version) == Some(t[i])
  {
    VersionOrder(t[0].version, t[0].version, t[0].version);
    if i > 0 {
      assert Less(t[0].version, t[i].version);
      EntryIsFound(t[1..], i - 1);
    }
  }

  /** A registered version that the constraint admits and whose dependencies admit every version chosen so far. */
  predicate IsCandidate(reg: Registry, name: string, c: Constraint, resolved: Assignment, v: Version) {
    && IsRegistered(reg, name, v) && Satisfies(c, v)
    && var deps := DependenciesOf(reg, name, v);
       forall i :: 0 <= i < |deps| && deps[i].name in resolved ==> Satisfies(deps[i].constraint, resolved[deps[i].name])
  }

  /** An unknown version conflicts, and a known one when a chosen version does not meet one of its dependencies. */
  lemma ConflictMeans(reg: Registry, name: string, v: Version, resolved: Assignment)
    ensures HasConflict(reg, name, v, resolved) <==>
              || !IsRegistered(reg, name, v)
              || exists d :: d in DependenciesOf(reg, name, v) && d.name in resolved && !Satisfies(d.constraint, resolved[d.name])
  {
    hide IsRegistered, Satisfies;
    var deps := DependenciesOf(reg, name, v);
    if HasConflict(reg, name, v, resolved) && IsRegistered(reg, name, v) {
      var i :| 0 <= i < |deps| && Clashes(deps[i], resolved);
      assert deps[i] in deps;
    }
    if d :| d in deps && d.name in resolved && !Satisfies(d.constraint, resolved[d.name]) {
      var i :| 0 <= i < |deps| && deps[i] == d;
      assert Clashes(deps[i], resolved);
    }
  }

  lemma CandidatesAreEligible(reg: Registry, name: string, c: Constraint, resolved: Assignment, i: nat)
    requires Valid(reg) && name in reg && i < |reg[name]|
    ensures IsEligible(reg[name][i], c, resolved) <==> IsCandidate(reg, name, c, resolved, reg[name][i].version)
  {
    EntryIsFound(reg[name], i);
    hide Satisfies;
    var deps := reg[name][i].dependencies;
    assert DependenciesOf(reg, name, reg[name][i].version) == deps;
    assert AnyClash(deps, resolved) <==>
           exists k :: 0 <= k < |deps| && deps[k].name in resolved && !Satisfies(deps[k].constraint, resolved[deps[k].name]);
  }

  /** The result is the greatest registered version that satisfies the constraint without a conflict, if there is one. */
  lemma SelectsGreatest(reg: Registry, name: string, c: Constraint, resolved: Assignment, v: Version)
    requires Valid(reg) && IsCandidate(reg, name, c, resolved, v)
    ensures IsCandidate(reg, name, c, resolved, SelectBest(reg, name, c, resolved))
    ensures !Less(SelectBest(reg, name, c, resolved), v)
  {
    var t := reg[name];
    var i :| 0 <= i < |t| && t[i].version == v;
    hide IsEligible, IsCandidate, FindVersion;
    CandidatesAreEligible(reg, name, c, resolved, i);
    var r := SelectFrom(t, c, resolved, |t|);
    CandidatesAreEligible(reg, name, c, resolved, r.value);
    VersionOrder(t[r.value].version, v, t[r.value].version);
  }

  /** Without a candidate the result is the marker version. */
  lemma SelectsNothing(reg: Registry, name: string, c: Constraint, resolved: Assignment)
    requires Valid(reg) && forall v :: !IsCandidate(reg, name, c, resolved, v)
    ensures SelectBest(reg, name, c, resolved) == NO_VERSION
  {
    if name in reg {
      hide IsEligible, IsCandidate, FindVersion;
      var r := SelectFrom(reg[name], c, resolved, |reg[name]|);
      if r.Some? {
        CandidatesAreEligible(reg, name, c, resolved, r.value);
      }
    }
  }

  // ----- Soundness

  predicate Meets(d: Dependency, r: Assignment) {
    d.name in r && Satisfies(d.constraint, r[d.name])
  }

  /** The chosen version of n is registered and all its dependencies are met. */
  ghost predicate Settled(reg: Registry, r: Assignment, n: string) {
    && n in r
    && IsRegistered(reg, n, r[n])
    && forall d :: d in DependenciesOf(reg, n, r[n]) ==> Meets(d, r)
  }

  ghost predicate SettledBeyond(reg: Registry, before: Assignment, r: Assignment) {
    forall n :: n in r && n !in before ==> Settled(reg, r, n)
  }

  lemma SettledStays(reg: Registry, r: Assignment, after: Assignment, n: string)
    requires Settled(reg, r, n) && Extends(r, after)
    ensures Settled(reg, after, n)
  {
    hide Satisfies, IsRegistered, DependenciesOf;
    forall d | d in DependenciesOf(reg, n, after[n])
      ensures Meets(d, after)
    {
      assert Meets(d, r);
    }
  }

  lemma {:induction false} VisitIsSound(reg: Registry, limit: int, d: Dependency, depth: nat,
                                        resolved: Assignment, path: seq<Dependency>)
    ensures var w := Visit(reg, limit, d, depth, resolved, path);
            w.ok ==> Meets(d, w.resolved) && SettledBeyond(reg, resolved, w.resolved)
    decreases reg.Keys - resolved.Keys, 0, 0
  {
    var w := Visit(reg, limit, d, depth, resolved, path);
    if w.ok && d.name !in resolved {
      var best := SelectBest(reg, d.name, d.constraint, resolved);
      BestIsRegistered(reg, d.name, d.constraint, resolved);
      var deps, chosen := DependenciesOf(reg, d.name, best), resolved[d.name := best];
      assert d.name in reg.Keys - resolved.Keys && d.name !in reg.Keys - chosen.Keys;
      VisitAllIsSound(reg, limit, deps, |deps|, depth + 1, chosen, path + [d]);
    }
  }

  lemma {:induction false} VisitAllIsSound(reg: Registry, limit: int, deps: seq<Dependency>, count: nat, depth: nat,
                                           resolved: Assignment, path: seq<Dependency>)
    requires count <= |deps|
    ensures var w := VisitAll(reg, limit, deps, count, depth, resolved, path);
            w.ok ==> (forall i :: 0 <= i < count ==> Meets(deps[i], w.resolved)) && SettledBeyond(reg, resolved, w.resolved)
    decreases reg.Keys - resolved.Keys, 1, count
  {
    hide Satisfies, Visit, IsRegistered, DependenciesOf, Settled;
    if count > 0 {
      VisitAllIsSound(reg, limit, deps, count - 1, depth, resolved, path);
      var before := VisitAll(reg, limit, deps, count - 1, depth, resolved, path);
      var w := VisitAll(reg, limit, deps, count, depth, resolved, path);
      if w.ok {
        assert reg.Keys - before.resolved.Keys <= reg.Keys - resolved.Keys;
        VisitIsSound(reg, limit, deps[count - 1], depth, before.resolved, before.path);
        hide VisitAll;
        forall n | n in w.resolved && n !in resolved
          ensures Settled(reg, w.resolved, n)
        {
          if n in before.resolved {
            SettledStays(reg, before.resolved, w.resolved, n);
          }
        }
      }
    }
  }

  // ----- Everything chosen is needed

  /** b can be reached from a by following dependencies of chosen versions. */
  ghost predicate IsChain(reg: Registry, r: Assignment, names: seq<string>) {
    && names != []
    && forall i :: 0 <= i < |names| - 1 ==> Links(reg, r, names[i], names[i + 1])
  }

  ghost predicate Links(reg: Registry, r: Assignment, a: string, b: string) {
    a in r && exists d :: d in DependenciesOf(reg, a, r[a]) && d.name == b
  }

  ghost predicate Reaches(reg: Registry, r: Assignment, a: string, b: string) {
    exists names :: IsChain(reg, r, names) && names[0] == a && names[|names| - 1] == b
  }

  lemma ReachesItself(reg: Registry, r: Assignment, a: string)
    ensures Reaches(reg, r, a, a)
  {
    assert IsChain(reg, r, [a]);
  }

  lemma ReachesThrough(reg: Registry, r: Assignment, a: string, b: string, c: string)
    requires Links(reg, r, a, b) && Reaches(reg, r, b, c)
    ensures Reaches(reg, r, a, c)
  {
    hide Links;
    var names :| IsChain(reg, r, names) && names[0] == b && names[|names| - 1] == c;
    var longer := [a] + names;
    assert forall i :: 1 <= i < |longer| ==> longer[i] == names[i - 1];
    assert IsChain(reg, r, longer);
  }

  lemma ReachesStill(reg: Registry, r: Assignment, after: Assignment, a: string, b: string)
    requires Reaches(reg, r, a, b) && Extends(r, after)
    ensures Reaches(reg, after, a, b)
  {
    var names :| IsChain(reg, r, names) && names[0] == a && names[|names| - 1] == b;
    forall i | 0 <= i < |names| - 1
      ensures Links(reg, after, names[i], names[i + 1])
    {
      assert Links(reg, r, names[i], names[i + 1]);
    }
    assert IsChain(reg, after, names);
  }

  ghost predicate ReachedBeyond(reg: Registry, before: Assignment, r: Assignment, from: string) {
    forall n :: n in r && n !in before ==> Reaches(reg, r, from, n)
  }

  ghost predicate ReachedFromAny(reg: Registry, before: Assignment, r: Assignment, deps: seq<Dependency>, count: nat)
    requires count <= |deps|
  {
    forall n :: n in r && n !in before ==> exists i :: 0 <= i < count && Reaches(reg, r, deps[i].name, n)
  }

  lemma {:induction false} VisitReaches(reg: Registry, limit: int, d: Dependency, depth: nat,
                                        resolved: Assignment, path: seq<Dependency>)
    ensures var w := Visit(reg, limit, d, depth, resolved, path);
            w.ok ==> ReachedBeyond(reg, resolved, w.resolved, d.name)
    decreases reg.Keys - resolved.Keys, 0, 0
  {
    var w := Visit(reg, limit, d, depth, resolved, path);
    if w.ok && d.name !in resolved {
      var best := SelectBest(reg, d.name, d.constraint, resolved);
      BestIsRegistered(reg, d.name, d.constraint, resolved);
      var deps, chosen := DependenciesOf(reg, d.name, best), resolved[d.name := best];
      assert d.name in reg.Keys - resolved.Keys && d.name !in reg.Keys - chosen.Keys;
      VisitAllReaches(reg, limit, deps, |deps|, depth + 1, chosen, path + [d]);
      assert d.name in chosen && chosen[d.name] == best;
      assert w.resolved[d.name] == best;
      hide Visit, VisitAll, Reaches;
      forall n | n in w.resolved && n !in resolved
        ensures Reaches(reg, w.resolved, d.name, n)
      {
        if n == d.name {
          ReachesItself(reg, w.resolved, n);
        } else {
          var i :| 0 <= i < |deps| && Reaches(reg, w.resolved, deps[i].name, n);
          assert deps[i] in DependenciesOf(reg, d.name, w.resolved[d.name]);
          ReachesThrough(reg, w.resolved, d.name, deps[i].name, n);
        }
      }
    }
  }

  lemma {:induction false} VisitAllReaches(reg: Registry, limit: int, deps: seq<Dependency>, count: nat, depth: nat,
                                           resolved: Assignment, path: seq<Dependency>)
    requires count <= |deps|
    ensures var w := VisitAll(reg, limit, deps, count, depth, resolved, path);
            w.ok ==> ReachedFromAny(reg, resolved, w.resolved, deps, count)
    decreases reg.Keys - resolved.Keys, 1, count
  {
    if count > 0 {
      VisitAllReaches(reg, limit, deps, count - 1, depth, resolved, path);
      var before := VisitAll(reg, limit, deps, count - 1, depth, resolved, path);
      var w := VisitAll(reg, limit, deps, count, depth, resolved, path);
      if w.ok {
        assert reg.Keys - before.resolved.Keys <= reg.Keys - resolved.Keys;
        VisitReaches(reg, limit, deps[count - 1], depth, before.resolved, before.path);
        hide Visit, VisitAll, Reaches;
        forall n | n in w.resolved && n !in resolved
          ensures exists i :: 0 <= i < count && Reaches(reg, w.resolved, deps[i].name, n)
        {
          if n in before.resolved {
            var i :| 0 <= i < count - 1 && Reaches(reg, before.resolved, deps[i].name, n);
            ReachesStill(reg, before.resolved, w.resolved, deps[i].name, n);
          }
        }
      }
    }
  }
}
