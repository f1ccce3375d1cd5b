/** The depth limit is what bounds completeness: 100 packages are resolved, more than 100 in a ring are not. */
module DepthLimit {
  import opened Options
  import opened Versions
  import opened Resolver
  import opened ResolverLaws
  import opened ResolutionLaws

  // ----- Registries of one shape

  /** The versions registered under each name. */
  type Shape = map<string, seq<Version>>

  /** What registering packages can lead to, without the version that means "none". */
  ghost predicate IsShape(vs: Shape) {
    forall n :: n in vs ==>
      && vs[n] != [] && NO_VERSION !in vs[n]
      && forall i, j :: 0 <= i < j < |vs[n]| ==> Less(vs[n][i], vs[n][j])
  }

  ghost predicate HasShape(reg: Registry, vs: Shape) {
    && reg.Keys == vs.Keys
    && forall n :: n in vs ==>
         |reg[n]| == |vs[n]| && forall i :: 0 <= i < |vs[n]| ==> reg[n][i].version == vs[n][i]
  }

  ghost predicate IsSingle(vs: Shape) {
    forall n :: n in vs ==> |vs[n]| == 1
  }

  /** Resolution succeeds exactly when there is a solution. */
  ghost predicate IsComplete(reg: Registry, roots: seq<Dependency>) {
    Resolve(reg, roots).ok <==> exists s :: IsSolution(reg, roots, s)
  }

  lemma CompleteBy(reg: Registry, roots: seq<Dependency>)
    requires Resolve(reg, roots).ok <==> exists s :: IsSolution(reg, roots, s)
    ensures IsComplete(reg, roots)
  {
  }

  lemma IncompleteBy(reg: Registry, roots: seq<Dependency>, s: Assignment)
    requires !Resolve(reg, roots).ok && IsSolution(reg, roots, s)
    ensures !IsComplete(reg, roots)
  {
  }

  /** A call whose chosen version has one dependency fails when that dependency's call does. */
  lemma OnlyDependencyFails(reg: Registry, limit: int, d: Dependency, next: Dependency, depth: nat,
                            resolved: Assignment, path: seq<Dependency>)
    requires depth <= limit && d.name !in resolved && SelectBest(reg, d.name, d.constraint, resolved) != NO_VERSION
    requires DependenciesOf(reg, d.name, SelectBest(reg, d.name, d.constraint, resolved)) == [next]
    requires !Visit(reg, limit, next, depth + 1,
                    resolved[d.name := SelectBest(reg, d.name, d.constraint, resolved)], path + [d]).ok
    ensures !Visit(reg, limit, d, depth, resolved, path).ok
  {
    VisitChooses(reg, limit, d, depth, resolved, path);
    var chosen := resolved[d.name := SelectBest(reg, d.name, d.constraint, resolved)];
    hide SelectBest, DependenciesOf, Visit;
    assert VisitAll(reg, limit, [next], 0, depth + 1, chosen, path + [d]) == Walk(true, chosen, path + [d], None);
    assert !VisitAll(reg, limit, [next], 1, depth + 1, chosen, path + [d]).ok;
  }

  // ----- A ring of packages

  predicate AreDistinct(names: seq<string>) {
    forall i, j :: 0 <= i < j < |names| ==> names[i] != names[j]
  }

  /** `names` lists the packages of a shape in which each has one version. */
  ghost predicate Lists(names: seq<string>, vs: Shape) {
    && names != [] && AreDistinct(names)
    && (forall k :: k in vs <==> k in names)
    && IsShape(vs) && IsSingle(vs)
  }

  function Position(names: seq<string>, k: string): (i: nat)
    requires k in names
    ensures i < |names| && names[i] == k
  {
    if names[0] == k then 0 else 1 + Position(names[1..], k)
  }

  function RingLink(names: seq<string>, i: nat): Dependency
    requires names != []
  {
    Dependency(names[i % |names|], ANY)
  }

  /** Each package depends on the one listed next, and the last on the first. */
  ghost function Ring(names: seq<string>, vs: Shape): Registry
    requires Lists(names, vs)
  {
    map k | k in vs :: [Metadata(k, vs[k][0], [RingLink(names, Position(names, k) + 1)])]
  }

  lemma RingHasShape(names: seq<string>, vs: Shape)
    requires Lists(names, vs)
    ensures HasShape(Ring(names, vs), vs) && HasSingleVersions(Ring(names, vs))
  {
    hide RingLink, Position;
    forall k | k in vs
      ensures vs[k] == [vs[k][0]] && vs[k][0] != NO_VERSION
    {
      assert vs[k][0] in vs[k];
    }
  }

  lemma OneEntry(reg: Registry, k: string, e: Metadata, resolved: Assignment)
    requires k in reg && reg[k] == [e] && forall i :: 0 <= i < |e.dependencies| ==> e.dependencies[i].constraint == ANY
    ensures SelectBest(reg, k, ANY, resolved) == e.version
    ensures IsRegistered(reg, k, e.version) && DependenciesOf(reg, k, e.version) == e.dependencies
  {
    assert IsEligible(e, ANY, resolved);
  }

  lemma RingChoice(names: seq<string>, vs: Shape, k: string, resolved: Assignment)
    requires Lists(names, vs) && k in vs
    ensures vs[k] != [] && vs[k][0] != NO_VERSION
    ensures SelectBest(Ring(names, vs), k, ANY, resolved) == vs[k][0]
    ensures IsRegistered(Ring(names, vs), k, vs[k][0])
    ensures DependenciesOf(Ring(names, vs), k, vs[k][0]) == [RingLink(names, Position(names, k) + 1)]
  {
    assert vs[k][0] in vs[k];
    var e := Metadata(k, vs[k][0], [RingLink(names, Position(names, k) + 1)]);
    assert Ring(names, vs)[k] == [e];
    assert e.dependencies[0].constraint == ANY;
    hide *;
    OneEntry(Ring(names, vs), k, e, resolved);
  }

  lemma SmallRemainder(i: nat, n: nat)
    requires i < n
    ensures i % n == i
  {
  }

  lemma LinkAt(names: seq<string>, i: nat)
    requires i < |names|
    ensures RingLink(names, i) == Dependency(names[i], ANY)
  {
    SmallRemainder(i, |names|);
  }

  lemma NextPrefix(names: seq<string>, i: nat)
    requires i < |names|
    ensures names[..i + 1] == names[..i] + [names[i]] && names[i] in names
  {
  }

  lemma NotBefore(names: seq<string>, i: nat)
    requires AreDistinct(names) && i < |names|
    ensures names[i] !in names[..i]
  {
    forall j | 0 <= j < i
      ensures names[..i][j] != names[i]
    {
      assert names[..i][j] == names[j];
    }
    hide AreDistinct;
  }

  lemma PositionIs(names: seq<string>, i: nat)
    requires AreDistinct(names) && i < |names|
    ensures names[i] in names && Position(names, names[i]) == i
  {
    hide Position;
    assert names[i] in names;
  }

  lemma {:induction false} RingIsTooDeep(names: seq<string>, vs: Shape, i: nat, resolved: Assignment, path: seq<Dependency>)
    requires Lists(names, vs) && MAX_DEPTH < |names| && i <= MAX_DEPTH + 1
    requires forall k :: k in resolved ==> k in names[..i]
    ensures !Visit(Ring(names, vs), MAX_DEPTH, RingLink(names, i), i, resolved, path).ok
    decreases MAX_DEPTH + 1 - i
  {
    if i <= MAX_DEPTH {
      LinkAt(names, i);
      NextPrefix(names, i);
      NotBefore(names, i);
      PositionIs(names, i);
      hide Ring, Lists, SelectBest, DependenciesOf, RingLink, Position, Visit;
      RingChoice(names, vs, names[i], resolved);
      var d, chosen := RingLink(names, i), resolved[names[i] := vs[names[i]][0]];
      RingIsTooDeep(names, vs, i + 1, chosen, path + [d]);
      OnlyDependencyFails(Ring(names, vs), MAX_DEPTH, d, RingLink(names, i + 1), i, resolved, path);
    }
  }

  ghost function RingSolution(vs: Shape): Assignment
    requires IsShape(vs)
  {
    map k | k in vs :: vs[k][0]
  }

  lemma LinkIsMet(names: seq<string>, vs: Shape, i: nat)
    requires Lists(names, vs)
    ensures Meets(RingLink(names, i), RingSolution(vs))
  {
    hide IsShape, IsSingle, AreDistinct;
    assert names[i % |names|] in names;
  }

  lemma RingSettles(names: seq<string>, vs: Shape, k: string)
    requires Lists(names, vs) && k in vs
    ensures Settled(Ring(names, vs), RingSolution(vs), k)
  {
    hide Ring, IsRegistered, DependenciesOf, RingLink, Position, Meets, Settled;
    RingChoice(names, vs, k, map[]);
    LinkIsMet(names, vs, Position(names, k) + 1);
    hide Lists, IsShape;
    OneDependencySettles(Ring(names, vs), RingSolution(vs), k, RingLink(names, Position(names, k) + 1));
  }

  lemma OneDependencySettles(reg: Registry, r: Assignment, n: string, d: Dependency)
    requires n in r && IsRegistered(reg, n, r[n]) && DependenciesOf(reg, n, r[n]) == [d] && Meets(d, r)
    ensures Settled(reg, r, n)
  {
    hide IsRegistered, DependenciesOf, Meets;
  }

  lemma RingHasSolution(names: seq<string>, vs: Shape)
    requires Lists(names, vs)
    ensures IsSolution(Ring(names, vs), [RingLink(names, 0)], RingSolution(vs))
  {
    LinkIsMet(names, vs, 0);
    hide Ring, Settled, RingLink, Lists, IsShape, Meets;
    forall k | k in RingSolution(vs)
      ensures Settled(Ring(names, vs), RingSolution(vs), k)
    {
      RingSettles(names, vs, k);
    }
  }

  /** More than 100 packages in a ring have a solution, and the depth limit hides it. */
  lemma RingFailsWithSolution(names: seq<string>, vs: Shape)
    requires Lists(names, vs) && |names| > MAX_DEPTH
    ensures HasShape(Ring(names, vs), vs) && HasSingleVersions(Ring(names, vs))
    ensures !IsComplete(Ring(names, vs), [RingLink(names, 0)])
  {
    var reg, root := Ring(names, vs), RingLink(names, 0);
    RingHasShape(names, vs);
    RingHasSolution(names, vs);
    RingIsTooDeep(names, vs, 0, map[], []);
    hide Ring, RingLink, Visit, HasSingleVersions, IsSolution, Lists, HasShape;
    assert VisitRoots(reg, MAX_DEPTH, [root], 0) == Walk(true, map[], [], None);
    assert !VisitRoots(reg, MAX_DEPTH, [root], 1).ok;
    IncompleteBy(reg, [root], RingSolution(vs));
  }

  // ----- How many packages are too many

  function RingName(i: nat): (name: string)
    ensures |name| == i
  {
    seq(i, _ => 'a')
  }

  lemma {:induction false} DistinctCount(names: seq<string>)
    requires AreDistinct(names)
    ensures |set k | k in names| == |names|
  {
    if names != [] {
      var rest := names[..|names| - 1];
      DistinctCount(rest);
      assert (set k | k in names) == (set k | k in rest) + {names[|names| - 1]};
    }
  }

  /** Every registry of n packages with one version each is resolved completely exactly when n is at most 100. */
  lemma LimitIsTight(n: nat)
    ensures (forall reg, roots :: HasSingleVersions(reg) && |reg| == n ==> IsComplete(reg, roots)) <==> n <= 100
  {
    if n <= MAX_DEPTH {
      hide IsComplete;
      forall reg, roots | HasSingleVersions(reg) && |reg| == n
        ensures IsComplete(reg, roots)
      {
        ResolveFindsLeast(reg, roots);
        CompleteBy(reg, roots);
      }
    } else {
      var names, vs := ManyNames(n);
      RingFailsWithSolution(names, vs);
      hide IsComplete, Lists;
      var reg := Ring(names, vs);
      assert |reg| == |reg.Keys| && |vs| == |vs.Keys|;
      assert !IsComplete(reg, [RingLink(names, 0)]);
    }
  }

  lemma ManyNames(n: nat) returns (names: seq<string>, vs: Shape)
    requires n > 0
    ensures Lists(names, vs) && |names| == |vs| == n
  {
    names := seq(n, i requires 0 <= i < n => RingName(i));
    vs := map k | k in names :: [Version(1, 0, 0, "")];
    assert forall i :: 0 <= i < n ==> |names[i]| == i;
    hide RingName;
    DistinctCount(names);
    assert vs.Keys == set k | k in names;
    assert |vs| == |vs.Keys|;
  }
}
