# cargo-outdated: manifest rewriting and three-way version comparison

This project models the core of `cargo outdated`, which lives in `src/cargo_ops/mod.rs`. It has two parts.

**Temporary projects and version policies.**
- The workspace is copied into a temporary directory. Each member lands at its own directory with the first occurrence of the workspace root replaced by the temporary directory (`Paths`, `Rewriter.TempProject.FromWorkspace`). A member whose directory does not contain the workspace root keeps its own directory (`Paths.MemberOutsideRootIsNotMoved`). The source would then copy that member's `Cargo.toml` onto itself. A copy onto the same file opens it with truncation, so the member's real `Cargo.toml` is emptied (src/cargo_ops/mod.rs:70-73) and then holds only the appended `[[bin]]` stanza (src/cargo_ops/mod.rs:74-84). A member-level `Cargo.lock` is emptied the same way (src/cargo_ops/mod.rs:85-88). The user's project, which the tool means never to modify, is overwritten in that case. The file writes themselves are not part of this model.
- Each copied manifest gets a `test` binary appended.
- Each member's manifest is then rewritten under one of two policies:
  - "semver": a single `test` binary, and `lib.path = "test_lib.rs"` when there is a `lib` table;
  - "latest": the "semver" rewrite, plus every dependency version made `"*"`. This covers the three dependency groupings and the same three groupings inside each table entry of `target`.
- A dependency that is neither a string nor a table makes the rewrite panic.
- TOML values are `Toml.Value`. The typed manifest record is `Manifest.Manifest`. The rewrites are specified as functions in `Manifest` and carried out step by step, as the source does, by the methods in `Rewriter`.

**The three-way walk.**
- The current resolution is walked depth-first from its root package (`Compare.CompareVersionsRecursive`).
- Each package is aligned by name with a package of the compatible resolution and one of the latest resolution (`Resolve.FindDepByName`).
- A line is printed whenever either branch lost the package (`"  RM  "`) or holds another version. A branch that holds the same version shows `"  --  "`.
- Lookups in a package set can fail. The walk then stops, and the lines already printed stay printed (`Compare.Report`).
- The walk is related to a reference definition, `Compare.Align`, which lists every visited package with the two packages it is aligned with. The walk fails exactly when some package of that list cannot be produced. Without failure it prints every line of the list. With one, it prints exactly the lines of the packages before the first one it cannot produce (`Compare.WalkFollowsAlignment`).
- Termination rests on the part of the current graph reachable from the root being acyclic. The walk requires a `rank` for its root, and every edge out of a ranked package must go to a ranked package of smaller rank (`Resolve.Ranked`). Packages the walk never reaches need no rank, so cycles among them are allowed (`Compare.UnreachableCycleIsAdmitted`).

Version equality follows the semver library the source uses: build metadata is ignored (`Resolve.SameVersion`).

## Model

| member | source | states |
|---|---|---|
| Manifest.WildcardSpec | src/cargo_ops/mod.rs:216-227 | a string spec becomes `"*"`; a table spec keeps its key set, gets `"*"` for `version` only if it has one, and keeps every other entry |
| Manifest.Wildcarded | src/cargo_ops/mod.rs:213-231 | the rewritten dependency table has exactly the original names and is again a valid table |
| Manifest.WildcardSpecIdempotent | src/cargo_ops/mod.rs:218-227 | rewriting one spec twice is the same as once |
| Manifest.WildcardedIdempotent | src/cargo_ops/mod.rs:213-231 | rewriting a dependency table twice is the same as once |
| Manifest.TableSpecKeepsFeatures | src/cargo_ops/mod.rs:221-226 | `{version = "0.5", features = [...]}` becomes `{version = "*", features = [...]}` |
| Manifest.UnrewritableHasOffender | src/cargo_ops/mod.rs:228 | a manifest the "latest" policy cannot rewrite holds a dependency that is neither a string nor a table |
| Manifest.WildcardTarget | src/cargo_ops/mod.rs:194-205 | a non-table `target` entry is untouched; in a table entry only the three dependency kinds holding tables are rewritten, every other key is kept |
| Manifest.WildcardTargets | src/cargo_ops/mod.rs:193-207 | no `target` entry is added or removed, and every entry stays rewritable |
| Manifest.WildcardTargetIdempotent | src/cargo_ops/mod.rs:194-205 | rewriting a `target` entry twice is the same as once |
| Manifest.SemverRewrite | src/cargo_ops/mod.rs:145-149 | `bin` is exactly `[{name = "test", path = "test.rs"}]`; `lib` exists afterwards iff it existed, keeps its other keys and has `path = "test_lib.rs"`; every other field is unchanged |
| Manifest.SemverKeepsDependencies | src/cargo_ops/mod.rs:130-154 | the "semver" policy leaves all dependency groupings and `target` unchanged |
| Manifest.SemverRewriteIdempotent | src/cargo_ops/mod.rs:145-149 | the "semver" policy applied twice is the same as once |
| Manifest.LatestRewrite | src/cargo_ops/mod.rs:171-207 | package and workspace are unchanged; bin and lib are those of the "semver" policy; each of the three groupings and `target` exists afterwards iff it existed and keeps its key set; every entry of each grouping is its rewritten spec, and every `target` entry its rewritten target entry |
| Manifest.WildcardAll | src/cargo_ops/mod.rs:178-207 | the dependency part of the "latest" policy: package, lib, bin and workspace are untouched; each grouping present is rewritten entry by entry and `target` entry by entry, keeping every key set |
| Manifest.LatestRewriteIdempotent | src/cargo_ops/mod.rs:171-207 | the "latest" policy applied twice is the same as once |
| Manifest.AppendTestBin | src/cargo_ops/mod.rs:77-84 | the copied manifest keeps its binaries and gains a last one, `{name = "test", path = "test.rs"}`; nothing else changes |
| Manifest.AppendedBinIsOverwritten | src/cargo_ops/mod.rs:145 | both policies give the same manifest whether or not the `test` binary was appended first |
| Paths.ReplaceFirst | src/cargo_ops/mod.rs:64-68 | the path is unchanged when the workspace root does not occur in it; otherwise its leftmost occurrence of the root is replaced by the temporary directory |
| Paths.FindFrom | src/cargo_ops/mod.rs:64-68 | the result is the leftmost occurrence of the pattern at or after `from`, and `None` iff there is none |
| Paths.MemberUnderRootIsMirrored | src/cargo_ops/mod.rs:62-68 | a member whose path starts with the workspace root lands at the temporary directory followed by the rest of its path |
| Paths.MemberOutsideRootIsNotMoved | src/cargo_ops/mod.rs:64-68 | a member whose path does not contain the workspace root keeps its own path |
| Paths.ReplaceFirstIsLeftmost | src/cargo_ops/mod.rs:64-68 | the replacement happens at an occurrence no later than any given one |
| Rewriter.ReplaceVersionWithWildcard | src/cargo_ops/mod.rs:213-231 | succeeds iff every entry is a string or a table, then returns the rewritten table; otherwise names an offending entry |
| Rewriter.ReplaceTargetDependencies | src/cargo_ops/mod.rs:195-204 | succeeds iff each table-valued dependency kind of the entry is valid, then returns the rewritten entry; otherwise names an offending dependency |
| Rewriter.ReplaceTargets | src/cargo_ops/mod.rs:193-207 | succeeds iff every `target` entry can be rewritten, then returns the rewritten `target`; otherwise names an offending dependency |
| Rewriter.RewriteManifestSemver | src/cargo_ops/mod.rs:145-149 | produces the "semver" rewrite of the manifest |
| Rewriter.RewriteManifestLatest | src/cargo_ops/mod.rs:171-207 | succeeds iff the manifest is rewritable, then produces the "latest" rewrite; a panic names an offending dependency of the manifest |
| Rewriter.TempProject.FromWorkspace | src/cargo_ops/mod.rs:61-91 | the root manifest is `<temp>/Cargo.toml`; member `i` lands at its path with the first occurrence of the root replaced by the temporary directory, and its manifest is the original with the `test` binary appended |
| Rewriter.TempProject.WriteManifestSemver | src/cargo_ops/mod.rs:137-151 | every member's manifest becomes its "semver" rewrite |
| Rewriter.TempProject.WriteManifestLatest | src/cargo_ops/mod.rs:163-209 | no panic iff every member is rewritable, and then every manifest becomes its "latest" rewrite; on a panic the members before the faulty one are rewritten and it and the later ones are untouched |
| Resolve.FirstNamed | src/cargo_ops/mod.rs:351-356 | `None` iff no dependency has the name; otherwise the dependency at the first index with that name |
| Resolve.FindDepByName | src/cargo_ops/mod.rs:346-357 | the scan returns the first dependency of `pkg`, in list order, with the given name, and `None` iff there is none |
| Resolve.SameVersion | src/cargo_ops/mod.rs:294 | two versions are the same exactly when they agree once build metadata is dropped, as the semver library's `!=` at lines 294 and 305 compares them |
| Resolve.FirstNamedFindsItself | src/cargo_ops/mod.rs:351-356 | when names are unique within each dependency list, looking a dependency up by its own name finds it |
| Compare.BranchColumn | src/cargo_ops/mod.rs:291-312 | a branch column is "removed" iff the branch has no package, "unchanged" iff its version equals the current one, and otherwise carries the branch's version |
| Compare.Cell | src/cargo_ops/mod.rs:300-320 | the printed cell is `"  RM  "` iff the branch was removed and `"  --  "` iff it is unchanged; a version is never printed as a marker |
| Compare.VersionText | src/cargo_ops/mod.rs:295 | a version's text starts with the decimal text of its major number and a dot, so with a digit, which neither marker does; without pre-release and build parts it has the length of three numbers and two dots |
| Compare.NatText | src/cargo_ops/mod.rs:295 | a number prints as its decimal text: digits only, no leading zero, and reading the digits back gives the number |
| Compare.PlainVersionText | src/cargo_ops/mod.rs:295 | a version without pre-release and build parts prints as the decimal texts of major, minor and patch separated by two dots |
| Compare.StepRecord | src/cargo_ops/mod.rs:314-321 | a line is printed for a package iff a branch was removed or holds another version; it carries the package's name and the two columns |
| Compare.NodeCheck | src/cargo_ops/mod.rs:291-313 | a package's lookups succeed iff the current, compatible and latest packages can all be produced; a failure names one of the step's packages that its package set cannot produce |
| Compare.Follow | src/cargo_ops/mod.rs:326-329 | a removed branch stays removed; otherwise the branch loses track iff the aligned package has no dependency of that name, and a found package is such a dependency |
| Compare.CompareVersionsRecursive | src/cargo_ops/mod.rs:280-344 | a failed lookup of the package itself prints nothing and is the error; otherwise the package's own line, if any, comes first; every error is an unavailable package |
| Compare.CompareDeps | src/cargo_ops/mod.rs:323-341 | past the last dependency nothing is printed; a dependency the package set cannot produce stops the loop with that package as the error and nothing printed; every error is an unavailable package |
| Compare.Align | src/cargo_ops/mod.rs:323-341 | the alignment starts with the root package and its two aligned packages |
| Compare.WalkFollowsAlignment | src/cargo_ops/mod.rs:280-344 | the walk fails iff some aligned package cannot be produced; without failure it prints every line of the alignment; with one, it prints exactly the lines of the steps before the first step it cannot produce, and the error names a package of that step that cannot be produced |
| Compare.DepsFollowAlignment | src/cargo_ops/mod.rs:323-341 | the same, for the loop over the dependencies of one package from the `i`-th on |
| Compare.AlignVisitsPreOrder | src/cargo_ops/mod.rs:323-341 | the packages of the alignment are the current graph in pre-order: a package before its dependencies, and those in the resolver's order |
| Compare.AlignDepsVisitsPreOrder | src/cargo_ops/mod.rs:323-341 | the same, for the dependencies of one package from the `i`-th on |
| Compare.RemovalIsInherited | src/cargo_ops/mod.rs:326-329 | once a branch has no package, no package below has one in that branch |
| Compare.DepsRemovalIsInherited | src/cargo_ops/mod.rs:326-329 | the same, for the dependencies of one package from the `i`-th on |
| Compare.RemovedBranchReportsRemoved | src/cargo_ops/mod.rs:300 | when a branch starts without a package, every printed line says "removed" in that column |
| Compare.EqualBranchesStayEqual | src/cargo_ops/mod.rs:326-329 | two branches started from the same package of the same graph are aligned with the same package everywhere |
| Compare.DepsEqualBranchesStayEqual | src/cargo_ops/mod.rs:326-329 | the same, for the dependencies of one package from the `i`-th on |
| Compare.IdenticalResolutionsAlign | src/cargo_ops/mod.rs:323-341 | comparing a graph with unique dependency names against itself aligns every package with itself |
| Compare.DepsIdenticalResolutionsAlign | src/cargo_ops/mod.rs:323-341 | the same, for the dependencies of one package from the `i`-th on |
| Compare.NoDriftOnIdenticalResolutions | src/cargo_ops/mod.rs:291-341 | comparing such a graph against itself prints nothing |
| Compare.UnreachableCycleIsAdmitted | src/cargo_ops/mod.rs:323-341 | two packages that depend on each other but are not reachable from `app` need no rank, and comparing `app` with itself prints nothing and succeeds |
| Compare.DuplicateNamesMisalign | src/cargo_ops/mod.rs:351-356 | with two dependencies named `foo` (1.0.0 and 2.0.0), comparing the graph against itself prints a line for the second `foo` showing 1.0.0 in both columns |
| Compare.CompareVersions | src/cargo_ops/mod.rs:250-278 | as written: resolution fails iff the current or the compatible workspace does not resolve; the root is missing iff both resolve and one of them has no root package; the latest workspace plays no part |
| Compare.LatestWorkspaceIsIgnored | src/cargo_ops/mod.rs:259-263 | as written, replacing the latest workspace by any other gives the same output |
| Compare.LatestColumnMirrorsCompatible | src/cargo_ops/mod.rs:259-263 | as written, every printed line has the same "latest" column as its "compatible" column |
| Compare.UpgradeBeyondRange | src/cargo_ops/mod.rs:259-263 | for `foo` 1.0.0 with 1.2.0 compatible and 2.0.0 latest, the source prints 1.2.0 twice and the intended wiring prints 1.2.0 and 2.0.0 |
| Compare.CompareVersionsIntended | src/cargo_ops/mod.rs:250-278 | with the latest workspace wired in: resolution fails iff any of the three workspaces does not resolve; the root is missing iff all resolve and one has no root package |
| Compare.IntendedLatestColumnFollowsLatest | src/cargo_ops/mod.rs:250-278 | with the latest workspace wired in, the walk follows the alignment against the compatible and latest resolutions: all its lines in order, or exactly those before the first package it cannot produce; each line shows the name and both columns of one aligned package |
| Compare.IntendedAgreesWhenLatestIsCompatible | src/cargo_ops/mod.rs:257-275 | when the latest workspace is the compatible one, the intended wiring prints what the source prints |

## Left out

- Filesystem work is not modelled: creating the temporary directory, `create_dir_all`, copying files, appending text, and copying `Cargo.lock`. The temporary directory's path is a parameter of `Rewriter.TempProject.FromWorkspace`. The appended `[[bin]]` text is modelled on the parsed record (`Manifest.AppendTestBin`).
- A workspace root that is not valid UTF-8 is an error in the source. Paths are strings here, so that error cannot arise.
- `cargo_update` runs `cargo update` as a subprocess. It is not part of this model.
- `Workspace::new` and `elaborate_workspace` call the cargo resolver. The resolver is not part of this model; its output is an input here: a `Resolve.Graph`, or `None` when resolution fails (`Compare.Workspace`). The package set is the graph's set of ids that can be produced.
- TOML parsing and serialisation are not modelled. This includes `write_manifest`, `opt_tables_last` and the ordering of table entries after plain entries. A TOML value that is neither a string nor a table is kept as its text (`Toml.Value.Other`).
- The `println!` formatting is not modelled beyond the two markers and the version text. A printed line is a `Compare.Record`.
- A panic is modelled as a returned error (`Err(name)` or `Some(name)`), not as the end of the process.
- Rewriter.ReplaceVersionWithWildcard: visits the names in an unspecified order, so a panic names some offending dependency. The source walks the sorted keys and names the first offending one in that order.
- Rewriter.ReplaceTargets: visits the `target` entries in an unspecified order, so a panic names an offending dependency of some faulty entry. The source walks the entries in sorted key order and panics in the first faulty one.
- Rewriter.RewriteManifestLatest: a panic may name an offending dependency from any faulty grouping. The source panics in the first faulty grouping, in the order `dependencies`, `dev-dependencies`, `build-dependencies`, `target`. The method itself visits them in that order.
- Rewriter.TempProject.WriteManifestLatest: a panic stops at the first member that cannot be rewritten, as in the source. Which offending dependency of that member the panic names is left open, as for `Rewriter.ReplaceVersionWithWildcard`.
- A manifest is modelled by the eight fields of the source's record. Other top-level keys are dropped when the record is serialised, and the model drops them too. A pass-through of unknown keys would be a different design.
- There are three dependency groupings, as in the code: `dependencies`, `dev-dependencies` and `build-dependencies`.
- Resolve.Ranked: the walk requires the part of the current graph reachable from the root to be ranked, and so free of cycles. Cycles the walk never reaches are allowed. The source loops without end only on a reachable cycle where every lookup succeeds, for example a dev-dependency cycle through the current package. It stops with an error on a reachable cycle where some lookup fails first. The model excludes both kinds of reachable cycle.
- `compare_versions` calls the resolver a second time on the compatible workspace for the "latest" graph. The resolver is treated as deterministic, so that call gives the compatible graph again.
- Command-line parsing, options, exit codes and the rest of `main.rs` are not part of this model.

## Findings

| source | as written | input that shows it | evidently intended | confidence | as-written member | corrected member |
|---|---|---|---|---|---|---|
| src/cargo_ops/mod.rs:259-263 | the "latest" graph and root are taken from the `compat` workspace; the `latest` parameter is never used | `foo` pinned at 1.0.0, compatible resolution 1.2.0, latest resolution 2.0.0: the line reads `foo 1.2.0 1.2.0`. At this revision `execute` (src/main.rs:231-263) never calls `compare_versions`, so the defect is in code that does not run yet | resolve and root the "latest" branch from `latest`, giving `foo 1.2.0 2.0.0` | not executed | Compare.CompareVersions, Compare.LatestWorkspaceIsIgnored, Compare.LatestColumnMirrorsCompatible, Compare.UpgradeBeyondRange | Compare.CompareVersionsIntended, Compare.IntendedLatestColumnFollowsLatest |
