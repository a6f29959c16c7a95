/**
 * A resolved dependency graph, as the resolver hands it over: the packages
 * that can be obtained and, for each package, its direct dependencies in the
 * order the resolver lists them.
 */
module Resolve {
  import opened Wrappers

  /**
   * A semantic version. Pre-release and build identifiers are kept as the
   * text of each dot-separated identifier.
   */
  datatype Version = Version(major: nat, minor: nat, patch: nat, pre: seq<string>, build: seq<string>)

  /**
   * Version equality as the semver library defines it: two versions are the
   * same exactly when they agree once their build metadata is dropped.
   */
  predicate SameVersion(a: Version, b: Version): (same: bool)
    ensures same <==> a.(build := []) == b.(build := [])
  {
    a.major == b.major && a.minor == b.minor && a.patch == b.patch && a.pre == b.pre
  }

  /** A resolved package identity: name, exact version and source. */
  datatype PackageId = PackageId(name: string, version: Version, source: string)

  /**
   * `packages` are the ids whose package the package set can produce;
   * `deps` are the resolver's edges. An id without an entry has no dependencies.
   */
  datatype Graph = Graph(packages: set<PackageId>, deps: map<PackageId, seq<PackageId>>)

  function Deps(g: Graph, id: PackageId): seq<PackageId> {
    if id in g.deps then g.deps[id] else []
  }

  /**
   * The first element of `ds` named `name`, or `None` when no element has
   * that name.
   */
  function FirstNamed(ds: seq<PackageId>, name: string): (r: Option<PackageId>)
    ensures r.None? <==> forall j | 0 <= j < |ds| :: ds[j].name != name
    ensures r.Some? ==> exists i | 0 <= i < |ds| ::
      ds[i] == r.value && r.value.name == name && forall j | 0 <= j < i :: ds[j].name != name
  {
    if ds == [] then None
    else if ds[0].name == name then Some(ds[0])
    else
      var r := FirstNamed(ds[1..], name);
      assert forall j | 1 <= j < |ds| :: ds[j] == ds[1..][j - 1];
      assert r.Some? ==> exists i | 0 <= i < |ds| ::
        ds[i] == r.value && r.value.name == name && forall j | 0 <= j < i :: ds[j].name != name
      by {
        if r.Some? {
          var i :| 0 <= i < |ds[1..]| && ds[1..][i] == r.value && r.value.name == name && forall j | 0 <= j < i :: ds[1..][j].name != name;
          assert ds[i + 1] == r.value;
        }
      }
      r
  }

  /**
   * `find_dep_by_name`: scan the dependencies of `pkg` in order and stop at
   * the first one called `name`.
   */
  method FindDepByName(name: string, pkg: PackageId, resolve: Graph) returns (r: Option<PackageId>)
    ensures r == FirstNamed(Deps(resolve, pkg), name)
    ensures r.Some? ==> r.value in Deps(resolve, pkg) && r.value.name == name
  {
    var ds := Deps(resolve, pkg);
    var i := 0;
    while i < |ds|
      invariant 0 <= i <= |ds|
      invariant FirstNamed(ds[i..], name) == FirstNamed(ds, name)
    {
      if ds[i].name == name {
        return Some(ds[i]);
      }
      assert ds[i..][1..] == ds[i + 1..];
      i := i + 1;
    }
    return None;
  }

  /** Within one package's dependency list, no two dependencies share a name. */
  predicate NamesUnique(g: Graph) {
    forall id, i, j | id in g.deps && 0 <= i < j < |g.deps[id]| :: g.deps[id][i].name != g.deps[id][j].name
  }

  /** With unique names, looking a dependency up by its own name finds that dependency. */
  lemma FirstNamedFindsItself(g: Graph, id: PackageId, k: nat)
    requires NamesUnique(g)
    requires k < |Deps(g, id)|
    ensures FirstNamed(Deps(g, id), Deps(g, id)[k].name) == Some(Deps(g, id)[k])
  {
  }

  /**
   * Every edge out of a ranked package goes to a ranked package of strictly
   * smaller rank. Whatever is reachable from a ranked package is therefore
   * ranked and free of cycles; packages without a rank are unconstrained.
   */
  predicate Ranked(g: Graph, rank: map<PackageId, nat>) {
    forall id | id in g.deps && id in rank ::
      forall j | 0 <= j < |g.deps[id]| :: g.deps[id][j] in rank && rank[g.deps[id][j]] < rank[id]
  }

  function RankOf(rank: map<PackageId, nat>, id: PackageId): nat {
    if id in rank then rank[id] else 0
  }
}
