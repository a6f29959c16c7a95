/**
 * The typed view of a member's Cargo.toml and the two version policies that
 * the temporary projects are rewritten under.
 *
 * Only the eight fields of the source's `Manifest` record are carried: any
 * other top-level key of the file is dropped when the record is written back.
 */
module Manifest {
  import opened Wrappers
  import opened Toml

  const Wildcard: string := "*"
  const VersionKey: string := "version"
  const PathKey: string := "path"
  const TestLibPath: string := "test_lib.rs"

  /** The three dependency groupings, as they are spelled in a manifest. */
  const DependencyKinds: seq<string> := ["dependencies", "dev-dependencies", "build-dependencies"]

  /** The single binary target every rewritten manifest declares. */
  const TestBin: Table := map["name" := Str("test"), "path" := Str("test.rs")]

  datatype Manifest = Manifest(
    package: Table,
    dependencies: Option<Table>,
    devDependencies: Option<Table>,
    buildDependencies: Option<Table>,
    lib: Option<Table>,
    bin: Option<seq<Table>>,
    workspace: Option<Table>,
    target: Option<Table>)

  // ---------------------------------------------------------------------
  // Dependency specifications and the wildcard rewrite of one table
  // ---------------------------------------------------------------------

  /** A dependency is given either by a bare version string or by a table. */
  predicate IsDependencySpec(v: Value) {
    v.Str? || v.Tbl?
  }

  /** A dependency table the wildcard rewrite accepts without panicking. */
  predicate ValidDependencies(deps: Table) {
    forall name | name in deps :: IsDependencySpec(deps[name])
  }

  /** The name of an entry the wildcard rewrite panics on. */
  predicate Offending(deps: Table, name: string) {
    name in deps && !IsDependencySpec(deps[name])
  }

  /**
   * One dependency after the "latest" policy: a bare string becomes "*",
   * a table gets "*" for its `version` entry if it has one, and keeps every
   * other entry.
   */
  function WildcardSpec(v: Value): (w: Value)
    requires IsDependencySpec(v)
    ensures v.Str? ==> w == Str(Wildcard)
    ensures v.Tbl? ==> w.Tbl? && w.t.Keys == v.t.Keys
    ensures v.Tbl? && VersionKey in v.t ==> w.t[VersionKey] == Str(Wildcard)
    ensures v.Tbl? ==> forall k | k in v.t && k != VersionKey :: w.t[k] == v.t[k]
  {
    match v
    case Str(_) => Str(Wildcard)
    case Tbl(t) => Tbl(if VersionKey in t then t[VersionKey := Str(Wildcard)] else t)
  }

  /** A whole dependency table after the "latest" policy. */
  function Wildcarded(deps: Table): (r: Table)
    requires ValidDependencies(deps)
    ensures r.Keys == deps.Keys
    ensures ValidDependencies(r)
  {
    map name | name in deps :: WildcardSpec(deps[name])
  }

  lemma WildcardSpecIdempotent(v: Value)
    requires IsDependencySpec(v)
    ensures IsDependencySpec(WildcardSpec(v)) && WildcardSpec(WildcardSpec(v)) == WildcardSpec(v)
  {
  }

  /** Rewriting a dependency table a second time changes nothing. */
  lemma WildcardedIdempotent(deps: Table)
    requires ValidDependencies(deps)
    ensures Wildcarded(Wildcarded(deps)) == Wildcarded(deps)
  {
    var once := Wildcarded(deps);
    forall name | name in once
      ensures Wildcarded(once)[name] == once[name]
    {
      WildcardSpecIdempotent(deps[name]);
    }
  }

  // ---------------------------------------------------------------------
  // Target-specific dependency tables
  // ---------------------------------------------------------------------

  /** The kinds of a target entry that hold a table and so are rewritten. */
  predicate RewrittenKind(target: Table, kind: string) {
    kind in DependencyKinds && kind in target && target[kind].Tbl?
  }

  /** A `target` entry the rewrite accepts: every rewritten kind is valid. */
  predicate ValidTarget(v: Value) {
    v.Tbl? ==> forall kind | kind in v.t && RewrittenKind(v.t, kind) :: ValidDependencies(v.t[kind].t)
  }

  predicate ValidTargets(targets: Table) {
    forall name | name in targets :: ValidTarget(targets[name])
  }

  /**
   * One entry of `target` after the "latest" policy: only a table entry is
   * touched, and in it only the three dependency kinds that hold tables.
   */
  function WildcardTarget(v: Value): (w: Value)
    requires ValidTarget(v)
    ensures !v.Tbl? ==> w == v
    ensures v.Tbl? ==> w.Tbl? && w.t.Keys == v.t.Keys
    ensures v.Tbl? ==> forall k | k in v.t && !RewrittenKind(v.t, k) :: w.t[k] == v.t[k]
    ensures v.Tbl? ==> forall k | RewrittenKind(v.t, k) :: w.t[k] == Tbl(Wildcarded(v.t[k].t))
  {
    if v.Tbl? then
      Tbl(map k | k in v.t :: if RewrittenKind(v.t, k) then Tbl(Wildcarded(v.t[k].t)) else v.t[k])
    else
      v
  }

  /** The `target` table after the "latest" policy; no entry is added or removed. */
  function WildcardTargets(targets: Table): (r: Table)
    requires ValidTargets(targets)
    ensures r.Keys == targets.Keys
    ensures forall name | name in targets :: ValidTarget(r[name])
  {
    map name | name in targets :: WildcardTarget(targets[name])
  }

  lemma WildcardTargetIdempotent(v: Value)
    requires ValidTarget(v)
    ensures ValidTarget(WildcardTarget(v)) && WildcardTarget(WildcardTarget(v)) == WildcardTarget(v)
  {
    if v.Tbl? {
      var w := WildcardTarget(v);
      assert ValidTarget(w) by {
        forall kind | RewrittenKind(w.t, kind)
          ensures ValidDependencies(w.t[kind].t)
        {
          assert RewrittenKind(v.t, kind);
        }
      }
      var ww := WildcardTarget(w);
      forall k | k in w.t
        ensures ww.t[k] == w.t[k]
      {
        if RewrittenKind(v.t, k) {
          WildcardedIdempotent(v.t[k].t);
        }
      }
    }
  }

  // ---------------------------------------------------------------------
  // Whole manifests
  // ---------------------------------------------------------------------

  function WildcardedOpt(deps: Option<Table>): Option<Table>
    requires deps.Some? ==> ValidDependencies(deps.value)
  {
    if deps.Some? then Some(Wildcarded(deps.value)) else None
  }

  /** A manifest the "latest" policy rewrites without panicking. */
  predicate Rewritable(m: Manifest) {
    && (m.dependencies.Some? ==> ValidDependencies(m.dependencies.value))
    && (m.devDependencies.Some? ==> ValidDependencies(m.devDependencies.value))
    && (m.buildDependencies.Some? ==> ValidDependencies(m.buildDependencies.value))
    && (m.target.Some? ==> ValidTargets(m.target.value))
  }

  /** `name` is a dependency, in some grouping of `m`, that is neither a string nor a table. */
  predicate OffendingIn(m: Manifest, name: string) {
    || (m.dependencies.Some? && Offending(m.dependencies.value, name))
    || (m.devDependencies.Some? && Offending(m.devDependencies.value, name))
    || (m.buildDependencies.Some? && Offending(m.buildDependencies.value, name))
    || (m.target.Some? && OffendingInTargets(m.target.value, name))
  }

  predicate OffendingInTargets(targets: Table, name: string) {
    exists t, kind | t in targets && targets[t].Tbl? && kind in targets[t].t && RewrittenKind(targets[t].t, kind) ::
      Offending(targets[t].t[kind].t, name)
  }

  /** A manifest that cannot be rewritten names a dependency that is at fault. */
  lemma UnrewritableHasOffender(m: Manifest)
    requires !Rewritable(m)
    ensures exists name :: OffendingIn(m, name)
  {
    if m.dependencies.Some? && !ValidDependencies(m.dependencies.value) {
      var name :| name in m.dependencies.value && !IsDependencySpec(m.dependencies.value[name]);
      assert OffendingIn(m, name);
    } else if m.devDependencies.Some? && !ValidDependencies(m.devDependencies.value) {
      var name :| name in m.devDependencies.value && !IsDependencySpec(m.devDependencies.value[name]);
      assert OffendingIn(m, name);
    } else if m.buildDependencies.Some? && !ValidDependencies(m.buildDependencies.value) {
      var name :| name in m.buildDependencies.value && !IsDependencySpec(m.buildDependencies.value[name]);
      assert OffendingIn(m, name);
    } else {
      var targets := m.target.value;
      var t :| t in targets && !ValidTarget(targets[t]);
      var kind :| kind in targets[t].t && RewrittenKind(targets[t].t, kind) && !ValidDependencies(targets[t].t[kind].t);
      var deps := targets[t].t[kind].t;
      var name :| name in deps && !IsDependencySpec(deps[name]);
      assert targets[t].Tbl? && Offending(targets[t].t[kind].t, name);
      assert OffendingInTargets(targets, name);
      assert OffendingIn(m, name);
    }
  }

  /**
   * The "semver" policy: a single `test` binary, and a placeholder path for
   * the library if there is one; nothing else changes.
   */
  function SemverRewrite(m: Manifest): (r: Manifest)
    ensures r.bin == Some([TestBin])
    ensures r.lib.Some? <==> m.lib.Some?
    ensures r.lib.Some? ==> r.lib.value.Keys == m.lib.value.Keys + {PathKey}
    ensures r.lib.Some? ==> r.lib.value[PathKey] == Str(TestLibPath)
    ensures r.lib.Some? ==> forall k | k in m.lib.value && k != PathKey :: r.lib.value[k] == m.lib.value[k]
    ensures r.(bin := m.bin, lib := m.lib) == m
  {
    m.(bin := Some([TestBin]),
       lib := if m.lib.Some? then Some(m.lib.value[PathKey := Str(TestLibPath)]) else None)
  }

  /**
   * The dependency rewrite of the "latest" policy, on its own: each grouping
   * present is rewritten entry by entry, `target` entry by entry, and the
   * package, library, binaries and workspace are left alone.
   */
  function WildcardAll(m: Manifest): (r: Manifest)
    requires Rewritable(m)
    ensures Rewritable(r)
    ensures r.(dependencies := m.dependencies, devDependencies := m.devDependencies,
               buildDependencies := m.buildDependencies, target := m.target) == m
    ensures r.dependencies.Some? <==> m.dependencies.Some?
    ensures r.dependencies.Some? ==> r.dependencies.value.Keys == m.dependencies.value.Keys
    ensures r.dependencies.Some? ==> forall name | name in r.dependencies.value :: r.dependencies.value[name] == WildcardSpec(m.dependencies.value[name])
    ensures r.devDependencies.Some? <==> m.devDependencies.Some?
    ensures r.devDependencies.Some? ==> r.devDependencies.value.Keys == m.devDependencies.value.Keys
    ensures r.devDependencies.Some? ==> forall name | name in r.devDependencies.value :: r.devDependencies.value[name] == WildcardSpec(m.devDependencies.value[name])
    ensures r.buildDependencies.Some? <==> m.buildDependencies.Some?
    ensures r.buildDependencies.Some? ==> r.buildDependencies.value.Keys == m.buildDependencies.value.Keys
    ensures r.buildDependencies.Some? ==> forall name | name in r.buildDependencies.value :: r.buildDependencies.value[name] == WildcardSpec(m.buildDependencies.value[name])
    ensures r.target.Some? <==> m.target.Some?
    ensures r.target.Some? ==> r.target.value.Keys == m.target.value.Keys
    ensures r.target.Some? ==> forall name | name in r.target.value :: r.target.value[name] == WildcardTarget(m.target.value[name])
  {
    m.(dependencies := WildcardedOpt(m.dependencies),
       devDependencies := WildcardedOpt(m.devDependencies),
       buildDependencies := WildcardedOpt(m.buildDependencies),
       target := if m.target.Some? then Some(WildcardTargets(m.target.value)) else None)
  }

  /**
   * The "latest" policy: the "semver" rewrite plus every dependency version
   * made "*". The package, library and binaries are those of the "semver"
   * rewrite, each grouping keeps its key set, and no grouping appears or
   * disappears.
   */
  function LatestRewrite(m: Manifest): (r: Manifest)
    requires Rewritable(m)
    ensures Rewritable(r)
    ensures r.package == m.package && r.workspace == m.workspace
    ensures r.bin == SemverRewrite(m).bin && r.lib == SemverRewrite(m).lib
    ensures r.dependencies.Some? <==> m.dependencies.Some?
    ensures r.dependencies.Some? ==> r.dependencies.value.Keys == m.dependencies.value.Keys
    ensures r.dependencies.Some? ==> forall name | name in r.dependencies.value ::
      r.dependencies.value[name] == WildcardSpec(m.dependencies.value[name])
    ensures r.devDependencies.Some? <==> m.devDependencies.Some?
    ensures r.devDependencies.Some? ==> r.devDependencies.value.Keys == m.devDependencies.value.Keys
    ensures r.devDependencies.Some? ==> forall name | name in r.devDependencies.value ::
      r.devDependencies.value[name] == WildcardSpec(m.devDependencies.value[name])
    ensures r.buildDependencies.Some? <==> m.buildDependencies.Some?
    ensures r.buildDependencies.Some? ==> r.buildDependencies.value.Keys == m.buildDependencies.value.Keys
    ensures r.buildDependencies.Some? ==> forall name | name in r.buildDependencies.value ::
      r.buildDependencies.value[name] == WildcardSpec(m.buildDependencies.value[name])
    ensures r.target.Some? <==> m.target.Some?
    ensures r.target.Some? ==> r.target.value.Keys == m.target.value.Keys
    ensures r.target.Some? ==> forall name | name in r.target.value ::
      r.target.value[name] == WildcardTarget(m.target.value[name])
  {
    WildcardAll(SemverRewrite(m))
  }

  /** Both policies are idempotent: rewriting a rewritten manifest again changes nothing. */
  lemma SemverRewriteIdempotent(m: Manifest)
    ensures SemverRewrite(SemverRewrite(m)) == SemverRewrite(m)
  {
    if m.lib.Some? {
      var lib := SemverRewrite(m).lib.value;
      assert lib[PathKey := Str(TestLibPath)] == lib;
    }
  }

  lemma LatestRewriteIdempotent(m: Manifest)
    requires Rewritable(m)
    ensures LatestRewrite(LatestRewrite(m)) == LatestRewrite(m)
  {
    var once := LatestRewrite(m);
    SemverRewriteIdempotent(m);
    assert SemverRewrite(once) == once.(bin := SemverRewrite(m).bin, lib := SemverRewrite(m).lib);
    if m.dependencies.Some? { WildcardedIdempotent(m.dependencies.value); }
    if m.devDependencies.Some? { WildcardedIdempotent(m.devDependencies.value); }
    if m.buildDependencies.Some? { WildcardedIdempotent(m.buildDependencies.value); }
    if m.target.Some? {
      var targets := once.target.value;
      forall name | name in targets
        ensures WildcardTargets(targets)[name] == targets[name]
      {
        WildcardTargetIdempotent(m.target.value[name]);
      }
      assert WildcardTargets(targets) == targets;
    }
    assert WildcardAll(once) == once;
  }

  /** The "semver" rewrite leaves every dependency grouping exactly as it was. */
  lemma SemverKeepsDependencies(m: Manifest)
    ensures SemverRewrite(m).dependencies == m.dependencies
    ensures SemverRewrite(m).devDependencies == m.devDependencies
    ensures SemverRewrite(m).buildDependencies == m.buildDependencies
    ensures SemverRewrite(m).target == m.target
  {
  }

  /** The binary target the temporary project appends to each copied manifest. */
  function AppendTestBin(m: Manifest): (r: Manifest)
    ensures r.bin.Some? && |r.bin.value| > 0 && r.bin.value[|r.bin.value| - 1] == TestBin
    ensures m.bin.Some? ==> m.bin.value <= r.bin.value && |r.bin.value| == |m.bin.value| + 1
    ensures m.bin.None? ==> r.bin.value == [TestBin]
    ensures r.(bin := m.bin) == m
  {
    m.(bin := Some((if m.bin.Some? then m.bin.value else []) + [TestBin]))
  }

  /** The appended binary does not survive either policy: both overwrite `bin`. */
  lemma AppendedBinIsOverwritten(m: Manifest)
    ensures SemverRewrite(AppendTestBin(m)) == SemverRewrite(m)
    ensures Rewritable(m) ==> LatestRewrite(AppendTestBin(m)) == LatestRewrite(m)
  {
  }

  /** A table dependency with a version and features: only the version changes. */
  lemma TableSpecKeepsFeatures()
    ensures var spec := Tbl(map[VersionKey := Str("0.5"), "features" := Other("[\"x\"]")]);
      WildcardSpec(spec) == Tbl(map[VersionKey := Str(Wildcard), "features" := Other("[\"x\"]")])
  {
  }
}
