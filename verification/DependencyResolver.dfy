/** The resolver as the class runs it, over a registry field and a search state updated in place. */
module DependencyResolution {
  import opened Options
  import opened Versions
  import opened Resolver
  import opened ResolverLaws

  /** What the recursive calls pass by reference. */
  class Search {
    var resolved: Assignment
    var path: seq<Dependency>
    var error: Option<ResolveError>

    constructor (resolved: Assignment)
      ensures this.resolved == resolved && path == [] && error == None
    {
      this.resolved, path, error := resolved, [], None;
    }
  }

  datatype ResolutionResult = ResolutionResult(success: bool, packages: Assignment, error: Option<ResolveError>,
                                               conflictChain: seq<Dependency>)

  class DependencyResolver {
    var registry: Registry

    constructor ()
      ensures registry == map[] && Valid(registry)
    {
      registry := map[];
    }

    method RegisterPackage(pkg: Metadata)
      requires Valid(registry)
      modifies this
      ensures registry == Register(old(registry), pkg) && Valid(registry)
    {
      RegisterKeepsRegistry(registry, pkg);
      var versions := if pkg.name in registry then registry[pkg.name] else [];
      registry := registry[pkg.name := Insert(versions, pkg)];
    }

    method ClearRegistry()
      modifies this
      ensures registry == map[] && Valid(registry)
    {
      registry := map[];
    }

    method ConflictsWith(deps: seq<Dependency>, resolved: Assignment) returns (conflict: bool)
      ensures conflict == AnyClash(deps, resolved)
    {
      hide Satisfies;
      conflict := false;
      for i := 0 to |deps|
        invariant forall j :: 0 <= j < i ==> !Clashes(deps[j], resolved)
      {
        if deps[i].name in resolved && !Satisfies(deps[i].constraint, resolved[deps[i].name]) {
          return true;
        }
      }
    }

    method HasConflicts(name: string, version: Version, resolved: Assignment) returns (conflict: bool)
      ensures conflict == HasConflict(registry, name, version, resolved)
    {
      if name !in registry {
        return true;
      }
      var found := FindVersion(registry[name], version);
      if found.None? {
        return true;
      }
      conflict := ConflictsWith(found.value.dependencies, resolved);
    }

    method SelectBestVersion(name: string, c: Constraint, resolved: Assignment) returns (best: Version)
      ensures best == SelectBest(registry, name, c, resolved)
      ensures Valid(registry) ==> forall v :: IsCandidate(registry, name, c, resolved, v) ==>
                IsCandidate(registry, name, c, resolved, best) && !Less(best, v)
    {
      hide Satisfies, Less, IsCandidate, Valid;
      if Valid(registry) {
        forall v | IsCandidate(registry, name, c, resolved, v)
          ensures IsCandidate(registry, name, c, resolved, SelectBest(registry, name, c, resolved))
          ensures !Less(SelectBest(registry, name, c, resolved), v)
        {
          SelectsGreatest(registry, name, c, resolved, v);
        }
      }
      best := NO_VERSION;
      if name in registry {
        var t := registry[name];
        var i := |t|;
        while i > 0
          invariant 0 <= i <= |t|
          invariant SelectFrom(t, c, resolved, |t|) == SelectFrom(t, c, resolved, i)
        {
          i := i - 1;
          if Satisfies(c, t[i].version) {
            var conflict := ConflictsWith(t[i].dependencies, resolved);
            if !conflict {
              return t[i].version;
            }
          }
        }
      }
    }

    method FindBestVersion(name: string, c: Constraint) returns (best: Version)
      ensures best == SelectBest(registry, name, c, map[])
    {
      best := SelectBestVersion(name, c, map[]);
    }

    method ResolveRecursive(d: Dependency, depth: nat, search: Search) returns (ok: bool)
      requires search as object != this
      modifies search
      ensures var w := Visit(registry, MAX_DEPTH, d, depth, old(search.resolved), old(search.path));
              && ok == w.ok && search.resolved == w.resolved && search.path == w.path
              && search.error == if ok then old(search.error) else w.error
      decreases registry.Keys - search.resolved.Keys
    {
      hide Satisfies, SelectBest;
      if depth > MAX_DEPTH {
        search.error := Some(TooDeep);
        return false;
      }
      search.path := search.path + [d];
      if d.name in search.resolved {
        if Satisfies(d.constraint, search.resolved[d.name]) {
          search.path := search.path[..|search.path| - 1];
          return true;
        }
        search.error := Some(Conflict(d.name, d.constraint.raw, search.resolved[d.name]));
        return false;
      }
      var best := SelectBestVersion(d.name, d.constraint, search.resolved);
      if best == NO_VERSION {
        search.error := Some(SelectionError(registry, d));
        return false;
      }
      BestIsRegistered(registry, d.name, d.constraint, search.resolved);
      search.resolved := search.resolved[d.name := best];
      var deps := FindVersion(registry[d.name], best).value.dependencies;
      assert d.name in registry.Keys - old(search.resolved).Keys && d.name !in registry.Keys - search.resolved.Keys;
      ghost var chosen, path := search.resolved, search.path;
      for i := 0 to |deps|
        invariant search.error == old(search.error)
        invariant VisitAll(registry, MAX_DEPTH, deps, i, depth + 1, chosen, path)
               == Walk(true, search.resolved, search.path, None)
      {
        assert chosen.Keys <= search.resolved.Keys;
        assert d.name in registry.Keys - old(search.resolved).Keys && d.name !in registry.Keys - search.resolved.Keys;
        ok := ResolveRecursive(deps[i], depth + 1, search);
        if !ok {
          VisitAllStops(registry, deps, i + 1, |deps|, depth + 1, chosen, path);
          search.resolved := search.resolved - {d.name};
          return false;
        }
        SuccessLeavesNoTrace(registry, MAX_DEPTH, deps, i + 1, depth + 1, chosen, path);
      }
      SuccessLeavesNoTrace(registry, MAX_DEPTH, deps, |deps|, depth + 1, chosen, path);
      search.path := search.path[..|search.path| - 1];
      return true;
    }

    method Resolve(roots: seq<Dependency>) returns (result: ResolutionResult)
      ensures var w := Resolver.Resolve(registry, roots);
              result == if w.ok then ResolutionResult(true, w.resolved, None, [])
                        else ResolutionResult(false, map[], w.error, w.path)
    {
      hide Visit;
      var resolved: Assignment := map[];
      for i := 0 to |roots|
        invariant VisitRoots(registry, MAX_DEPTH, roots, i).ok
        invariant VisitRoots(registry, MAX_DEPTH, roots, i).resolved == resolved
      {
        var search := new Search(resolved);
        var ok := ResolveRecursive(roots[i], 0, search);
        if !ok {
          RootsStop(registry, roots, i + 1, |roots|);
          return ResolutionResult(false, map[], search.error, search.path);
        }
        resolved := search.resolved;
      }
      result := ResolutionResult(true, resolved, None, []);
    }
  }

  lemma {:induction false} VisitAllStops(reg: Registry, deps: seq<Dependency>, k: nat, n: nat, depth: nat,
                                         resolved: Assignment, path: seq<Dependency>)
    requires k <= n <= |deps| && !VisitAll(reg, MAX_DEPTH, deps, k, depth, resolved, path).ok
    ensures VisitAll(reg, MAX_DEPTH, deps, n, depth, resolved, path) == VisitAll(reg, MAX_DEPTH, deps, k, depth, resolved, path)
  {
    if k < n {
      VisitAllStops(reg, deps, k, n - 1, depth, resolved, path);
    }
  }

  lemma {:induction false} RootsStop(reg: Registry, roots: seq<Dependency>, k: nat, n: nat)
    requires k <= n <= |roots| && !VisitRoots(reg, MAX_DEPTH, roots, k).ok
    ensures VisitRoots(reg, MAX_DEPTH, roots, n) == VisitRoots(reg, MAX_DEPTH, roots, k)
  {
    if k < n {
      RootsStop(reg, roots, k, n - 1);
    }
  }

  /** A successful call raises no error and leaves the path exactly as it found it. */
  lemma {:induction false} SuccessLeavesNoTrace(reg: Registry, limit: int, deps: seq<Dependency>, count: nat, depth: nat,
                                             resolved: Assignment, path: seq<Dependency>)
    requires count <= |deps|
    ensures var w := VisitAll(reg, limit, deps, count, depth, resolved, path); w.ok ==> w.error == None && w.path == path
    decreases reg.Keys - resolved.Keys, 1, count
  {
    if count > 0 {
      SuccessLeavesNoTrace(reg, limit, deps, count - 1, depth, resolved, path);
      var w := VisitAll(reg, limit, deps, count - 1, depth, resolved, path);
      if w.ok {
        assert resolved.Keys <= w.resolved.Keys;
        assert reg.Keys - w.resolved.Keys <= reg.Keys - resolved.Keys;
        VisitLeavesNoTrace(reg, limit, deps[count - 1], depth, w.resolved, w.path);
      }
    }
  }

  lemma {:induction false} VisitLeavesNoTrace(reg: Registry, limit: int, d: Dependency, depth: nat,
                                           resolved: Assignment, path: seq<Dependency>)
    ensures var w := Visit(reg, limit, d, depth, resolved, path); w.ok ==> w.error == None && w.path == path
    decreases reg.Keys - resolved.Keys, 0, 0
  {
    if depth <= limit && d.name !in resolved && SelectBest(reg, d.name, d.constraint, resolved) != NO_VERSION {
      var best := SelectBest(reg, d.name, d.constraint, resolved);
      BestIsRegistered(reg, d.name, d.constraint, resolved);
      var deps, chosen := DependenciesOf(reg, d.name, best), resolved[d.name := best];
      assert d.name in reg.Keys - resolved.Keys && d.name !in reg.Keys - chosen.Keys;
      SuccessLeavesNoTrace(reg, limit, deps, |deps|, depth + 1, chosen, path + [d]);
    }
  }
}
