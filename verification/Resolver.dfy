/** The package registry and the recursive resolution over it. */
module Resolver {
  import opened Options
  import opened Versions

  datatype Dependency = Dependency(name: string, constraint: Constraint)

  datatype Metadata = Metadata(name: string, version: Version, dependencies: seq<Dependency>)

  /** For each name its versions in ascending order, as the ordered map keeps them. */
  type Registry = map<string, seq<Metadata>>

  type Assignment = map<string, Version>

  datatype ResolveError =
    | TooDeep
    | Conflict(name: string, needed: string, existing: Version)
    | NotFound(name: string)
    | Unsatisfied(name: string, needed: string)

  const MAX_DEPTH := 100

  ghost predicate Ascending(t: seq<Metadata>) {
    forall i, j :: 0 <= i < j < |t| ==> Less(t[i].version, t[j].version)
  }

  ghost predicate Valid(reg: Registry) {
    forall n :: n in reg ==> reg[n] != [] && Ascending(reg[n])
  }

  // ----- The registry

  function Insert(t: seq<Metadata>, pkg: Metadata): seq<Metadata> {
    if t == [] then [pkg]
    else if Less(pkg.version, t[0].version) then [pkg] + t
    else if pkg.version == t[0].version then [pkg] + t[1..]
    else [t[0]] + Insert(t[1..], pkg)
  }

  function Register(reg: Registry, pkg: Metadata): Registry {
    reg[pkg.name := Insert(if pkg.name in reg then reg[pkg.name] else [], pkg)]
  }

  function FindVersion(t: seq<Metadata>, v: Version): (r: Option<Metadata>)
    ensures r.Some? ==> r.value in t && r.value.version == v
    ensures r.None? ==> forall e :: e in t ==> e.version != v
  {
    if t == [] then None else if t[0].version == v then Some(t[0]) else FindVersion(t[1..], v)
  }

  predicate IsRegistered(reg: Registry, name: string, v: Version) {
    name in reg && FindVersion(reg[name], v).Some?
  }

  function DependenciesOf(reg: Registry, name: string, v: Version): seq<Dependency> {
    if IsRegistered(reg, name, v) then FindVersion(reg[name], v).value.dependencies else []
  }

  // ----- Choosing a version

  predicate Clashes(d: Dependency, resolved: Assignment) {
    d.name in resolved && !Satisfies(d.constraint, resolved[d.name])
  }

  predicate AnyClash(deps: seq<Dependency>, resolved: Assignment) {
    exists i :: 0 <= i < |deps| && Clashes(deps[i], resolved)
  }

  predicate HasConflict(reg: Registry, name: string, v: Version, resolved: Assignment) {
    !IsRegistered(reg, name, v) || AnyClash(DependenciesOf(reg, name, v), resolved)
  }

  predicate IsEligible(pkg: Metadata, c: Constraint, resolved: Assignment) {
    Satisfies(c, pkg.version) && !AnyClash(pkg.dependencies, resolved)
  }

  /** The last eligible entry among the first `count` of a table. */
  function SelectFrom(t: seq<Metadata>, c: Constraint, resolved: Assignment, count: nat): (r: Option<nat>)
    requires count <= |t|
    ensures r.Some? ==> r.value < count && IsEligible(t[r.value], c, resolved)
    ensures r.Some? ==> forall j :: r.value < j < count ==> !IsEligible(t[j], c, resolved)
    ensures r.None? ==> forall j :: 0 <= j < count ==> !IsEligible(t[j], c, resolved)
  {
    if count == 0 then None
    else if IsEligible(t[count - 1], c, resolved) then Some(count - 1)
    else SelectFrom(t, c, resolved, count - 1)
  }

  function SelectBest(reg: Registry, name: string, c: Constraint, resolved: Assignment): Version {
    if name !in reg then NO_VERSION
    else
      match SelectFrom(reg[name], c, resolved, |reg[name]|)
      case None => NO_VERSION
      case Some(i) => reg[name][i].version
  }

  lemma BestIsRegistered(reg: Registry, name: string, c: Constraint, resolved: Assignment)
    requires SelectBest(reg, name, c, resolved) != NO_VERSION
    ensures IsRegistered(reg, name, SelectBest(reg, name, c, resolved))
    ensures Satisfies(c, SelectBest(reg, name, c, resolved))
  {
    var i := SelectFrom(reg[name], c, resolved, |reg[name]|).value;
    assert reg[name][i] in reg[name];
  }

  // ----- The recursion

  /** What a call leaves behind: its verdict and the three things it updates. */
  datatype Walk = Walk(ok: bool, resolved: Assignment, path: seq<Dependency>, error: Option<ResolveError>)

  ghost predicate Extends(a: Assignment, b: Assignment) {
    forall n :: n in a ==> n in b && b[n] == a[n]
  }

  function Pop(path: seq<Dependency>): seq<Dependency> {
    if path == [] then [] else path[..|path| - 1]
  }

  function SelectionError(reg: Registry, d: Dependency): ResolveError {
    if d.name !in reg || reg[d.name] == [] then NotFound(d.name) else Unsatisfied(d.name, d.constraint.raw)
  }

  /** The recursion ends because each choice uses up a registered name, with or without the depth limit. */
  function Visit(reg: Registry, limit: int, d: Dependency, depth: nat, resolved: Assignment, path: seq<Dependency>): (w: Walk)
    ensures w.ok ==> Extends(resolved, w.resolved)
    decreases reg.Keys - resolved.Keys, 0, 0
  {
    if depth > limit then Walk(false, resolved, path, Some(TooDeep))
    else if d.name in resolved then
      if Satisfies(d.constraint, resolved[d.name]) then Walk(true, resolved, path, None)
      else Walk(false, resolved, path + [d], Some(Conflict(d.name, d.constraint.raw, resolved[d.name])))
    else
      var best := SelectBest(reg, d.name, d.constraint, resolved);
      if best == NO_VERSION then Walk(false, resolved, path + [d], Some(SelectionError(reg, d)))
      else
        BestIsRegistered(reg, d.name, d.constraint, resolved);
        var deps := DependenciesOf(reg, d.name, best);
        var chosen := resolved[d.name := best];
        assert d.name in reg.Keys - resolved.Keys && d.name !in reg.Keys - chosen.Keys;
        var w := VisitAll(reg, limit, deps, |deps|, depth + 1, chosen, path + [d]);
        if w.ok then w.(path := Pop(w.path)) else w.(resolved := w.resolved - {d.name})
  }

  /** The first `count` dependencies, stopping at the first that fails. */
  function VisitAll(reg: Registry, limit: int, deps: seq<Dependency>, count: nat, depth: nat,
                    resolved: Assignment, path: seq<Dependency>): (w: Walk)
    requires count <= |deps|
    ensures w.ok ==> Extends(resolved, w.resolved)
    decreases reg.Keys - resolved.Keys, 1, count
  {
    if count == 0 then Walk(true, resolved, path, None)
    else
      var w := VisitAll(reg, limit, deps, count - 1, depth, resolved, path);
      if !w.ok then w
      else
        assert resolved.Keys <= w.resolved.Keys;
        assert reg.Keys - w.resolved.Keys <= reg.Keys - resolved.Keys;
        Visit(reg, limit, deps[count - 1], depth, w.resolved, w.path)
  }

  /** The first `count` roots, each with a path of its own. */
  function VisitRoots(reg: Registry, limit: int, roots: seq<Dependency>, count: nat): Walk
    requires count <= |roots|
  {
    if count == 0 then Walk(true, map[], [], None)
    else
      var w := VisitRoots(reg, limit, roots, count - 1);
      if !w.ok then w else Visit(reg, limit, roots[count - 1], 0, w.resolved, [])
  }

  function Resolve(reg: Registry, roots: seq<Dependency>): Walk {
    VisitRoots(reg, MAX_DEPTH, roots, |roots|)
  }
}
