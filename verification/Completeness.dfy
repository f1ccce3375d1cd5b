/** Which versions may be registered for the search to be complete, whatever the packages depend on. */
module Completeness {
  import opened Options
  import opened Versions
  import opened Resolver
  import opened ResolverLaws
  import opened ResolutionLaws
  import opened DepthLimit

  // ----- A package whose newest version needs its oldest

  function Exactly(v: Version): Constraint {
    Constraint("", Exact, v, NO_VERSION)
  }

  ghost function SelfishEntry(vs: Shape, a: string, k: string, i: nat): Metadata
    requires k in vs && i < |vs[k]|
  {
    Metadata(k, vs[k][i], if k == a && i == |vs[k]| - 1 then [Dependency(a, Exactly(vs[k][0]))] else [])
  }

  /** The newest version of a depends on the oldest; nothing else depends on anything. */
  ghost function Selfish(vs: Shape, a: string): Registry {
    map k | k in vs :: seq(|vs[k]|, i requires 0 <= i < |vs[k]| => SelfishEntry(vs, a, k, i))
  }

  lemma SelfishTable(vs: Shape, a: string)
    requires IsShape(vs) && a in vs
    ensures HasShape(Selfish(vs, a), vs) && Ascending(Selfish(vs, a)[a])
    ensures |Selfish(vs, a)[a]| == |vs[a]| && forall i :: 0 <= i < |vs[a]| ==> Selfish(vs, a)[a][i] == SelfishEntry(vs, a, a, i)
  {
  }

  /** The oldest version alone is a solution. */
  lemma OldestSolves(vs: Shape, a: string)
    requires IsShape(vs) && a in vs && |vs[a]| >= 2
    ensures IsSolution(Selfish(vs, a), [Dependency(a, ANY)], map[a := vs[a][0]])
  {
    var reg := Selfish(vs, a);
    SelfishTable(vs, a);
    EntryIsFound(reg[a], 0);
    hide Selfish;
    assert DependenciesOf(reg, a, vs[a][0]) == [];
  }

  /** The search takes the newest version, which rules itself out. */
  lemma NewestFails(vs: Shape, a: string)
    requires IsShape(vs) && a in vs && |vs[a]| >= 2
    ensures !Resolve(Selfish(vs, a), [Dependency(a, ANY)]).ok
  {
    var reg, last := Selfish(vs, a), |vs[a]| - 1;
    var root, back := Dependency(a, ANY), Dependency(a, Exactly(vs[a][0]));
    var newest := vs[a][last];
    SelfishTable(vs, a);
    EntryIsFound(reg[a], last);
    assert newest in vs[a] && newest != NO_VERSION;
    assert vs[a][0] != newest by {
      VersionOrder(newest, newest, newest);
    }
    hide Selfish, IsShape;
    assert IsEligible(reg[a][last], ANY, map[]);
    assert SelectBest(reg, a, ANY, map[]) == newest;
    assert DependenciesOf(reg, a, newest) == [back];
    hide SelectBest, DependenciesOf;
    assert !Visit(reg, MAX_DEPTH, back, 1, map[][a := newest], [] + [root]).ok;
    OnlyDependencyFails(reg, MAX_DEPTH, root, back, 0, map[], []);
    hide Visit;
    assert VisitRoots(reg, MAX_DEPTH, [root], 0) == Walk(true, map[], [], None);
  }

  // ----- The exact condition

  ghost function NamesOf(keys: set<string>): (names: seq<string>)
    ensures AreDistinct(names) && |names| == |keys| && forall k :: k in keys <==> k in names
    decreases |keys|
  {
    if keys == {} then []
    else
      var k :| k in keys;
      NamesOf(keys - {k}) + [k]
  }

  lemma ShapeCounts(reg: Registry, vs: Shape)
    requires HasShape(reg, vs) && IsShape(vs) && IsSingle(vs)
    ensures |reg| == |vs| && HasSingleVersions(reg)
  {
    assert |reg| == |reg.Keys| && |vs| == |vs.Keys|;
    forall n | n in reg
      ensures |reg[n]| == 1 && reg[n][0].version != NO_VERSION
    {
      assert reg[n][0].version == vs[n][0] && vs[n][0] in vs[n];
    }
  }

  /**
    * The search is complete on every registry with given versions, whatever the dependencies and the roots, exactly
    * when no package has more than one version and there are at most 100 packages.
    */
  lemma SearchIsCompleteExactly(vs: Shape)
    requires IsShape(vs)
    ensures (forall reg, roots :: HasShape(reg, vs) ==> IsComplete(reg, roots)) <==> IsSingle(vs) && |vs| <= 100
  {
    hide IsComplete, HasShape;
    if !IsSingle(vs) {
      var a :| a in vs && |vs[a]| != 1;
      SelfishTable(vs, a);
      OldestSolves(vs, a);
      NewestFails(vs, a);
      IncompleteBy(Selfish(vs, a), [Dependency(a, ANY)], map[a := vs[a][0]]);
    } else if |vs| > MAX_DEPTH {
      var names := NamesOf(vs.Keys);
      assert |vs| == |vs.Keys|;
      RingFailsWithSolution(names, vs);
    } else {
      forall reg, roots | HasShape(reg, vs)
        ensures IsComplete(reg, roots)
      {
        ShapeCounts(reg, vs);
        ResolveFindsLeast(reg, roots);
        CompleteBy(reg, roots);
      }
    }
  }
}
