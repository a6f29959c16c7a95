/**
 * The rewriting steps of a temporary project, in the order the source takes
 * them: the dependency loop, the target loop, one manifest under each policy,
 * and the loop over the workspace members.
 */
module Rewriter {
  import opened Wrappers
  import opened Toml
  import opened Manifest
  import opened Paths

  /**
   * `replace_version_with_wildcard`: walk the dependency names and rewrite
   * each entry; an entry that is neither a string nor a table panics, and the
   * panic names that entry.
   */
  method ReplaceVersionWithWildcard(dependencies: Table) returns (r: Result<Table, string>)
    ensures r.Ok? <==> ValidDependencies(dependencies)
    ensures r.Ok? ==> r.value == Wildcarded(dependencies)
    ensures r.Err? ==> Offending(dependencies, r.error)
  {
    var deps := dependencies;
    var depNames := dependencies.Keys;
    while depNames != {}
      invariant depNames <= dependencies.Keys
      invariant deps.Keys == dependencies.Keys
      invariant forall name | name in dependencies && name !in depNames ::
        IsDependencySpec(dependencies[name]) && deps[name] == WildcardSpec(dependencies[name])
      invariant forall name | name in depNames :: deps[name] == dependencies[name]
      decreases depNames
    {
      var name :| name in depNames;
      var original := deps[name];
      match original {
        case Str(_) =>
          deps := deps[name := Str(Wildcard)];
        case Tbl(t) =>
          var replaced := t;
          if VersionKey in replaced {
            replaced := replaced[VersionKey := Str(Wildcard)];
          }
          deps := deps[name := Tbl(replaced)];
        case Other(_) =>
          return Err(name);
      }
      depNames := depNames - {name};
    }
    return Ok(deps);
  }

  /** One table-valued entry of `target`: rewrite each dependency kind that holds a table. */
  method ReplaceTargetDependencies(target: Table) returns (r: Result<Table, string>)
    ensures r.Ok? <==> ValidTarget(Tbl(target))
    ensures r.Ok? ==> Tbl(r.value) == WildcardTarget(Tbl(target))
    ensures r.Err? ==> exists kind | kind in target && RewrittenKind(target, kind) :: Offending(target[kind].t, r.error)
  {
    var t := target;
    for i := 0 to |DependencyKinds|
      invariant t.Keys == target.Keys
      invariant forall k | k in target && !(k in DependencyKinds[..i] && RewrittenKind(target, k)) :: t[k] == target[k]
      invariant forall k | k in DependencyKinds[..i] && RewrittenKind(target, k) ::
        ValidDependencies(target[k].t) && t[k] == Tbl(Wildcarded(target[k].t))
    {
      var kind := DependencyKinds[i];
      if kind in t && t[kind].Tbl? {
        var d := ReplaceVersionWithWildcard(t[kind].t);
        if d.Err? {
          return Err(d.error);
        }
        t := t[kind := Tbl(d.value)];
      }
    }
    assert DependencyKinds[..|DependencyKinds|] == DependencyKinds;
    return Ok(t);
  }

  /** The `target` table: only its table-valued entries are visited. */
  method ReplaceTargets(targets: Table) returns (r: Result<Table, string>)
    ensures r.Ok? <==> ValidTargets(targets)
    ensures r.Ok? ==> r.value == WildcardTargets(targets)
    ensures r.Err? ==> OffendingInTargets(targets, r.error)
  {
    var ts := targets;
    var names := targets.Keys;
    while names != {}
      invariant names <= targets.Keys
      invariant ts.Keys == targets.Keys
      invariant forall name | name in targets && name !in names ::
        ValidTarget(targets[name]) && ts[name] == WildcardTarget(targets[name])
      invariant forall name | name in names :: ts[name] == targets[name]
      decreases names
    {
      var name :| name in names;
      if ts[name].Tbl? {
        var rt := ReplaceTargetDependencies(ts[name].t);
        if rt.Err? {
          return Err(rt.error);
        }
        ts := ts[name := Tbl(rt.value)];
      }
      names := names - {name};
    }
    return Ok(ts);
  }

  /** The body of `write_manifest_semver` for one member. */
  method RewriteManifestSemver(manifest: Manifest) returns (m: Manifest)
    ensures m == SemverRewrite(manifest)
  {
    m := manifest;
    m := m.(bin := Some([TestBin]));
    if m.lib.Some? {
      m := m.(lib := Some(m.lib.value[PathKey := Str(TestLibPath)]));
    }
  }

  /** The body of `write_manifest_latest` for one member; a panic is returned as `Err`. */
  method RewriteManifestLatest(manifest: Manifest) returns (r: Result<Manifest, string>)
    ensures r.Ok? <==> Rewritable(manifest)
    ensures r.Ok? ==> r.value == LatestRewrite(manifest)
    ensures r.Err? ==> OffendingIn(manifest, r.error)
  {
    var m := RewriteManifestSemver(manifest);
    if m.dependencies.Some? {
      var d := ReplaceVersionWithWildcard(m.dependencies.value);
      if d.Err? {
        return Err(d.error);
      }
      m := m.(dependencies := Some(d.value));
    }
    if m.devDependencies.Some? {
      var d := ReplaceVersionWithWildcard(m.devDependencies.value);
      if d.Err? {
        return Err(d.error);
      }
      m := m.(devDependencies := Some(d.value));
    }
    if m.buildDependencies.Some? {
      var d := ReplaceVersionWithWildcard(m.buildDependencies.value);
      if d.Err? {
        return Err(d.error);
      }
      m := m.(buildDependencies := Some(d.value));
    }
    if m.target.Some? {
      var t := ReplaceTargets(m.target.value);
      if t.Err? {
        return Err(t.error);
      }
      m := m.(target := Some(t.value));
    }
    return Ok(m);
  }

  /**
   * A temporary copy of the workspace: the directory it lives in, the
   * directory of each member, and each member's manifest as currently on disk.
   */
  class TempProject {
    var root: string
    var rootManifest: string
    var memberDirs: seq<string>
    var manifests: seq<Manifest>

    /**
     * `from_workspace`: mirror every member under `tempDir` and copy its
     * manifest with a `test` binary appended. `tempDir` stands for the fresh
     * directory the operating system hands out.
     */
    constructor FromWorkspace(workspaceRoot: string, memberRoots: seq<string>, memberManifests: seq<Manifest>, tempDir: string)
      requires |memberRoots| == |memberManifests|
      ensures root == tempDir && rootManifest == tempDir + "/Cargo.toml"
      ensures |memberDirs| == |memberRoots|
      ensures forall i | 0 <= i < |memberRoots| :: memberDirs[i] == ReplaceFirst(memberRoots[i], workspaceRoot, tempDir)
      ensures |manifests| == |memberManifests|
      ensures forall i | 0 <= i < |memberManifests| :: manifests[i] == AppendTestBin(memberManifests[i])
    {
      var dirs: seq<string> := [];
      var copies: seq<Manifest> := [];
      for i := 0 to |memberRoots|
        invariant |dirs| == i && |copies| == i
        invariant forall j | 0 <= j < i :: dirs[j] == ReplaceFirst(memberRoots[j], workspaceRoot, tempDir)
        invariant forall j | 0 <= j < i :: copies[j] == AppendTestBin(memberManifests[j])
      {
        var destination := ReplaceFirst(memberRoots[i], workspaceRoot, tempDir);
        var copy := AppendTestBin(memberManifests[i]);
        dirs := dirs + [destination];
        copies := copies + [copy];
      }
      root := tempDir;
      rootManifest := tempDir + "/Cargo.toml";
      memberDirs := dirs;
      manifests := copies;
    }

    /** `write_manifest_semver`: every member's manifest under the "semver" policy. */
    method WriteManifestSemver()
      modifies this`manifests
      ensures |manifests| == |old(manifests)|
      ensures forall i | 0 <= i < |manifests| :: manifests[i] == SemverRewrite(old(manifests)[i])
    {
      for i := 0 to |manifests|
        invariant |manifests| == |old(manifests)|
        invariant forall j | 0 <= j < i :: manifests[j] == SemverRewrite(old(manifests)[j])
        invariant forall j | i <= j < |manifests| :: manifests[j] == old(manifests)[j]
      {
        var m := RewriteManifestSemver(manifests[i]);
        manifests := manifests[i := m];
      }
    }

    /**
     * `write_manifest_latest`: every member's manifest under the "latest"
     * policy, in member order. A panic stops the loop: the members before
     * the faulty one are already rewritten, it and those after are not.
     */
    method WriteManifestLatest() returns (panicked: Option<string>)
      modifies this`manifests
      ensures |manifests| == |old(manifests)|
      ensures panicked.None? <==> forall i | 0 <= i < |old(manifests)| :: Rewritable(old(manifests)[i])
      ensures panicked.None? ==> forall i | 0 <= i < |manifests| :: manifests[i] == LatestRewrite(old(manifests)[i])
      ensures panicked.Some? ==> exists j | 0 <= j < |manifests| ::
        && OffendingIn(old(manifests)[j], panicked.value)
        && (forall i | 0 <= i < j :: Rewritable(old(manifests)[i]) && manifests[i] == LatestRewrite(old(manifests)[i]))
        && manifests[j..] == old(manifests)[j..]
    {
      for i := 0 to |manifests|
        invariant |manifests| == |old(manifests)|
        invariant forall j | 0 <= j < i :: Rewritable(old(manifests)[j]) && manifests[j] == LatestRewrite(old(manifests)[j])
        invariant manifests[i..] == old(manifests)[i..]
      {
        assert manifests[i] == old(manifests)[i];
        var r := RewriteManifestLatest(manifests[i]);
        if r.Err? {
          assert OffendingIn(old(manifests)[i], r.error);
          return Some(r.error);
        }
        manifests := manifests[i := r.value];
        assert manifests[i + 1..] == old(manifests)[i + 1..];
      }
      return None;
    }
  }
}
