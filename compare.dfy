/**
 * The three-way comparison: walk the current resolution depth-first and, at
 * each package, line it up by name with the compatible and the latest
 * resolutions; print a line for every package that was removed or moved in
 * either of them.
 */
module Compare {
  import opened Wrappers
  import opened Resolve

  const RemovedMarker: string := "  RM  "
  const UnchangedMarker: string := "  --  "

  /** What one column of a report line says about a package. */
  datatype Column = Removed | Unchanged | Changed(version: Version)

  /** One printed line: the current package's name and the two columns. */
  datatype Record = Record(name: string, compat: Column, latest: Column)

  datatype Failure =
    | ResolveFailed                  // the resolver gave no graph for a workspace
    | NoCurrentPackage               // a workspace has no root package
    | PackageUnavailable(id: PackageId)  // the package set could not produce a package

  /** The lines printed, and the error that ended the walk, if any. */
  datatype Report = Report(records: seq<Record>, failure: Option<Failure>)

  // ---------------------------------------------------------------------
  // One package
  // ---------------------------------------------------------------------

  /**
   * The column for one branch: removed when the branch has no package here,
   * unchanged when its version equals the current one, its version otherwise.
   */
  function BranchColumn(branchRoot: Option<PackageId>, currRoot: PackageId): (c: Column)
    ensures c.Removed? <==> branchRoot.None?
    ensures c.Unchanged? <==> branchRoot.Some? && SameVersion(branchRoot.value.version, currRoot.version)
    ensures c.Changed? ==> c.version == branchRoot.value.version && !SameVersion(c.version, currRoot.version)
  {
    match branchRoot
    case None => Removed
    case Some(b) => if SameVersion(b.version, currRoot.version) then Unchanged else Changed(b.version)
  }

  /**
   * The text printed for a column. A version's text starts with a digit, so
   * each marker is printed exactly for its own case and never for a version.
   */
  function Cell(c: Column): (s: string)
    ensures s == RemovedMarker <==> c.Removed?
    ensures s == UnchangedMarker <==> c.Unchanged?
  {
    match c
    case Removed => RemovedMarker
    case Unchanged => UnchangedMarker
    case Changed(v) =>
      var text := VersionText(v);
      assert text[0] != RemovedMarker[0] && text[0] != UnchangedMarker[0];
      text
  }

  function Digit(d: nat): char
    requires d < 10
  {
    ('0' as int + d) as char
  }

  predicate AllDigits(t: string) {
    forall k | 0 <= k < |t| :: '0' <= t[k] <= '9'
  }

  /** The number a string of decimal digits denotes, read left to right. */
  function DigitsValue(t: string): nat
    requires AllDigits(t)
  {
    if t == [] then 0 else DigitsValue(t[..|t| - 1]) * 10 + (t[|t| - 1] as int - '0' as int)
  }

  /** `t` is the decimal text of `n`: digits only, no leading zero. */
  predicate Decimal(t: string, n: nat) {
    && |t| > 0
    && AllDigits(t)
    && DigitsValue(t) == n
    && (|t| > 1 ==> t[0] != '0')
  }

  function NatText(n: nat): (s: string)
    ensures |s| > 0 && '0' <= s[0] <= '9'
    ensures Decimal(s, n)
  {
    if n < 10 then [Digit(n)]
    else
      var s := NatText(n / 10) + [Digit(n % 10)];
      assert s[..|s| - 1] == NatText(n / 10);
      s
  }

  function Join(parts: seq<string>): string {
    if |parts| == 0 then "" else if |parts| == 1 then parts[0] else parts[0] + "." + Join(parts[1..])
  }

  /**
   * `major.minor.patch`, then `-pre` and `+build` when present, as the
   * semver library displays a version.
   */
  function VersionText(v: Version): (s: string)
    ensures |s| > 0 && '0' <= s[0] <= '9'
    ensures NatText(v.major) + "." <= s
    ensures v.pre == [] && v.build == [] ==> |s| == |NatText(v.major)| + |NatText(v.minor)| + |NatText(v.patch)| + 2
  {
    var core := NatText(v.major) + "." + NatText(v.minor) + "." + NatText(v.patch);
    core
      + (if v.pre == [] then "" else "-" + Join(v.pre))
      + (if v.build == [] then "" else "+" + Join(v.build))
  }

  /** `s` is `major.minor.patch`, each number in its decimal text. */
  predicate CoreText(s: string, major: nat, minor: nat, patch: nat) {
    exists i, j | 0 < i < j < |s| ::
      && s[i] == '.' && s[j] == '.'
      && Decimal(s[..i], major) && Decimal(s[i + 1..j], minor) && Decimal(s[j + 1..], patch)
  }

  /** A version without pre-release or build parts prints as `major.minor.patch` in decimal. */
  lemma PlainVersionText(v: Version)
    requires v.pre == [] && v.build == []
    ensures CoreText(VersionText(v), v.major, v.minor, v.patch)
  {
    var a, b, c := NatText(v.major), NatText(v.minor), NatText(v.patch);
    assert VersionText(v) == a + "." + b + "." + c;
    DottedDecimals(a, b, c, v.major, v.minor, v.patch);
  }

  lemma DottedParts(a: string, b: string, c: string)
    ensures (a + "." + b + "." + c)[..|a|] == a
    ensures (a + "." + b + "." + c)[|a| + 1..|a| + 1 + |b|] == b
    ensures (a + "." + b + "." + c)[|a| + 2 + |b|..] == c
  {
  }

  /** Three decimal texts joined by dots form a version core. */
  lemma DottedDecimals(a: string, b: string, c: string, major: nat, minor: nat, patch: nat)
    requires Decimal(a, major) && Decimal(b, minor) && Decimal(c, patch)
    ensures CoreText(a + "." + b + "." + c, major, minor, patch)
  {
    DottedParts(a, b, c);
    var s, i, j := a + "." + b + "." + c, |a|, |a| + 1 + |b|;
    assert s[i] == '.' && s[j] == '.';
    assert Decimal(s[..i], major) && Decimal(s[i + 1..j], minor) && Decimal(s[j + 1..], patch);
  }

  /** One current package together with the packages it is aligned with. */
  datatype Step = Step(node: PackageId, compat: Option<PackageId>, latest: Option<PackageId>)

  /**
   * The line printed for one step, if any: a line appears exactly when a
   * branch is removed or has a different version.
   */
  function StepRecord(s: Step): (r: Option<Record>)
    ensures r.Some? <==>
      || s.compat.None? || s.latest.None?
      || !SameVersion(s.compat.value.version, s.node.version)
      || !SameVersion(s.latest.value.version, s.node.version)
    ensures r.Some? ==> r.value.name == s.node.name
    ensures r.Some? ==> r.value.compat == BranchColumn(s.compat, s.node) && r.value.latest == BranchColumn(s.latest, s.node)
  {
    var c := BranchColumn(s.compat, s.node);
    var l := BranchColumn(s.latest, s.node);
    if c != Unchanged || l != Unchanged then Some(Record(s.node.name, c, l)) else None
  }

  function Emit(s: Step): seq<Record> {
    if StepRecord(s).Some? then [StepRecord(s).value] else []
  }

  /** Every package the step looks up can be produced by its package set. */
  predicate Available(s: Step, curr: Graph, compat: Graph, latest: Graph) {
    && s.node in curr.packages
    && (s.compat.Some? ==> s.compat.value in compat.packages)
    && (s.latest.Some? ==> s.latest.value in latest.packages)
  }

  /** `f` names a package of step `s` that its package set cannot produce. */
  predicate NamesUnavailable(f: Failure, s: Step, curr: Graph, compat: Graph, latest: Graph) {
    && f.PackageUnavailable?
    && (|| (f.id == s.node && s.node !in curr.packages)
        || (s.compat.Some? && f.id == s.compat.value && f.id !in compat.packages)
        || (s.latest.Some? && f.id == s.latest.value && f.id !in latest.packages))
  }

  /**
   * The lookups of one package, in the order the source makes them: the
   * compatible package, then the current one, then the latest package,
   * then the current one for its name. The first that fails is the error.
   */
  function NodeCheck(currRoot: PackageId, curr: Graph, compatRoot: Option<PackageId>, compat: Graph,
                     latestRoot: Option<PackageId>, latest: Graph): (f: Option<Failure>)
    ensures f.None? <==> Available(Step(currRoot, compatRoot, latestRoot), curr, compat, latest)
    ensures f.Some? ==> NamesUnavailable(f.value, Step(currRoot, compatRoot, latestRoot), curr, compat, latest)
  {
    if compatRoot.Some? && compatRoot.value !in compat.packages then Some(PackageUnavailable(compatRoot.value))
    else if compatRoot.Some? && currRoot !in curr.packages then Some(PackageUnavailable(currRoot))
    else if latestRoot.Some? && latestRoot.value !in latest.packages then Some(PackageUnavailable(latestRoot.value))
    else if currRoot !in curr.packages then Some(PackageUnavailable(currRoot))
    else None
  }

  /**
   * `compat_root.and_then(|i| find_dep_by_name(name, i, resolve))`: the
   * dependency called `name` of the aligned package, and nothing once the
   * branch has lost track.
   */
  function Follow(name: string, branchRoot: Option<PackageId>, g: Graph): (r: Option<PackageId>)
    ensures branchRoot.None? ==> r.None?
    ensures branchRoot.Some? ==> (r.None? <==> forall j | 0 <= j < |Deps(g, branchRoot.value)| :: Deps(g, branchRoot.value)[j].name != name)
    ensures r.Some? ==> r.value in Deps(g, branchRoot.value) && r.value.name == name
  {
    if branchRoot.Some? then FirstNamed(Deps(g, branchRoot.value), name) else None
  }

  // ---------------------------------------------------------------------
  // The walk, as the source performs it
  // ---------------------------------------------------------------------

  /**
   * `compare_versions_recursive`: the line for `currRoot`, then each of its
   * dependencies in the resolver's order, each aligned by name. A failed
   * lookup stops everything; the lines already printed stay printed.
   * Termination rests on `rank` decreasing along the current graph's edges.
   */
  function CompareVersionsRecursive(currRoot: PackageId, curr: Graph,
                                    compatRoot: Option<PackageId>, compat: Graph,
                                    latestRoot: Option<PackageId>, latest: Graph,
                                    rank: map<PackageId, nat>): (r: Report)
    requires Ranked(curr, rank)
    requires currRoot in rank
    decreases RankOf(rank, currRoot), 1, 0
    ensures r.failure.Some? ==> r.failure.value.PackageUnavailable?
    ensures NodeCheck(currRoot, curr, compatRoot, compat, latestRoot, latest).Some? ==>
      r == Report([], NodeCheck(currRoot, curr, compatRoot, compat, latestRoot, latest))
    ensures NodeCheck(currRoot, curr, compatRoot, compat, latestRoot, latest).None? &&
            StepRecord(Step(currRoot, compatRoot, latestRoot)).Some? ==>
      |r.records| > 0 && r.records[0] == StepRecord(Step(currRoot, compatRoot, latestRoot)).value
  {
    var check := NodeCheck(currRoot, curr, compatRoot, compat, latestRoot, latest);
    if check.Some? then Report([], check)
    else
      var rest := CompareDeps(currRoot, curr, compatRoot, compat, latestRoot, latest, rank, 0);
      Report(Emit(Step(currRoot, compatRoot, latestRoot)) + rest.records, rest.failure)
  }

  /** The loop over the dependencies of `parent`, from the `i`-th on. */
  function CompareDeps(parent: PackageId, curr: Graph,
                       compatParent: Option<PackageId>, compat: Graph,
                       latestParent: Option<PackageId>, latest: Graph,
                       rank: map<PackageId, nat>, i: nat): (r: Report)
    requires Ranked(curr, rank)
    requires parent in rank
    decreases RankOf(rank, parent), 0, |Deps(curr, parent)| - i
    ensures r.failure.Some? ==> r.failure.value.PackageUnavailable?
    ensures i >= |Deps(curr, parent)| ==> r == Report([], None)
    ensures i < |Deps(curr, parent)| && Deps(curr, parent)[i] !in curr.packages ==>
      r == Report([], Some(PackageUnavailable(Deps(curr, parent)[i])))
  {
    if i >= |Deps(curr, parent)| then Report([], None)
    else
      var dep := Deps(curr, parent)[i];
      if dep !in curr.packages then Report([], Some(PackageUnavailable(dep)))
      else
        assert RankOf(rank, dep) < RankOf(rank, parent) by {
          assert parent in curr.deps && curr.deps[parent][i] == dep;
        }
        var sub := CompareVersionsRecursive(dep, curr, Follow(dep.name, compatParent, compat), compat,
                                            Follow(dep.name, latestParent, latest), latest, rank);
        if sub.failure.Some? then sub
        else
          var rest := CompareDeps(parent, curr, compatParent, compat, latestParent, latest, rank, i + 1);
          Report(sub.records + rest.records, rest.failure)
  }

  // ---------------------------------------------------------------------
  // Reference definitions: the alignment and the pre-order of the current graph
  // ---------------------------------------------------------------------

  /** The current graph's packages reachable from `root`, in pre-order. */
  function Visit(root: PackageId, curr: Graph, rank: map<PackageId, nat>): seq<PackageId>
    requires Ranked(curr, rank)
    requires root in rank
    decreases RankOf(rank, root), 1, 0
  {
    [root] + VisitDeps(root, curr, rank, 0)
  }

  function VisitDeps(parent: PackageId, curr: Graph, rank: map<PackageId, nat>, i: nat): seq<PackageId>
    requires Ranked(curr, rank)
    requires parent in rank
    decreases RankOf(rank, parent), 0, |Deps(curr, parent)| - i
  {
    if i >= |Deps(curr, parent)| then []
    else
      var dep := Deps(curr, parent)[i];
      assert RankOf(rank, dep) < RankOf(rank, parent) by {
        assert parent in curr.deps && curr.deps[parent][i] == dep;
      }
      Visit(dep, curr, rank) + VisitDeps(parent, curr, rank, i + 1)
  }

  /**
   * Every package of the walk, in the order visited, with the packages
   * it is aligned with; no lookups, no failures.
   */
  function Align(currRoot: PackageId, curr: Graph,
                 compatRoot: Option<PackageId>, compat: Graph,
                 latestRoot: Option<PackageId>, latest: Graph,
                 rank: map<PackageId, nat>): (steps: seq<Step>)
    requires Ranked(curr, rank)
    requires currRoot in rank
    decreases RankOf(rank, currRoot), 1, 0
    ensures |steps| > 0 && steps[0] == Step(currRoot, compatRoot, latestRoot)
  {
    [Step(currRoot, compatRoot, latestRoot)] + AlignDeps(currRoot, curr, compatRoot, compat, latestRoot, latest, rank, 0)
  }

  function AlignDeps(parent: PackageId, curr: Graph,
                     compatParent: Option<PackageId>, compat: Graph,
                     latestParent: Option<PackageId>, latest: Graph,
                     rank: map<PackageId, nat>, i: nat): seq<Step>
    requires Ranked(curr, rank)
    requires parent in rank
    decreases RankOf(rank, parent), 0, |Deps(curr, parent)| - i
  {
    if i >= |Deps(curr, parent)| then []
    else
      var dep := Deps(curr, parent)[i];
      assert RankOf(rank, dep) < RankOf(rank, parent) by {
        assert parent in curr.deps && curr.deps[parent][i] == dep;
      }
      Align(dep, curr, Follow(dep.name, compatParent, compat), compat, Follow(dep.name, latestParent, latest), latest, rank)
        + AlignDeps(parent, curr, compatParent, compat, latestParent, latest, rank, i + 1)
  }

  /** The lines the steps produce, in order. */
  function Emitted(steps: seq<Step>): seq<Record> {
    if steps == [] then [] else Emit(steps[0]) + Emitted(steps[1..])
  }

  predicate AllAvailable(steps: seq<Step>, curr: Graph, compat: Graph, latest: Graph) {
    forall k | 0 <= k < |steps| :: Available(steps[k], curr, compat, latest)
  }

  function Nodes(steps: seq<Step>): seq<PackageId> {
    if steps == [] then [] else [steps[0].node] + Nodes(steps[1..])
  }

  lemma {:induction false} EmittedAppend(a: seq<Step>, b: seq<Step>)
    ensures Emitted(a + b) == Emitted(a) + Emitted(b)
  {
    if a == [] {
      assert a + b == b;
    } else {
      assert (a + b)[0] == a[0] && (a + b)[1..] == a[1..] + b;
      EmittedAppend(a[1..], b);
    }
  }

  lemma {:induction false} NodesAppend(a: seq<Step>, b: seq<Step>)
    ensures Nodes(a + b) == Nodes(a) + Nodes(b)
  {
    if a == [] {
      assert a + b == b;
    } else {
      assert (a + b)[0] == a[0] && (a + b)[1..] == a[1..] + b;
      NodesAppend(a[1..], b);
    }
  }

  lemma AllAvailableAppend(a: seq<Step>, b: seq<Step>, curr: Graph, compat: Graph, latest: Graph)
    ensures AllAvailable(a + b, curr, compat, latest) <==> AllAvailable(a, curr, compat, latest) && AllAvailable(b, curr, compat, latest)
  {
    assert forall k | 0 <= k < |a| :: (a + b)[k] == a[k];
    assert forall k | 0 <= k < |b| :: (a + b)[|a| + k] == b[k];
  }

  /** Every emitted line comes from one of the steps. */
  lemma {:induction false} EmittedFromSteps(steps: seq<Step>, r: Record)
    requires r in Emitted(steps)
    ensures exists k | 0 <= k < |steps| :: StepRecord(steps[k]) == Some(r)
  {
    if r in Emit(steps[0]) {
      assert StepRecord(steps[0]) == Some(r);
    } else {
      EmittedFromSteps(steps[1..], r);
      var k :| 0 <= k < |steps[1..]| && StepRecord(steps[1..][k]) == Some(r);
      assert steps[k + 1] == steps[1..][k];
    }
  }

  /** Steps none of which produces a line produce no lines. */
  lemma {:induction false} SilentSteps(steps: seq<Step>)
    requires forall k | 0 <= k < |steps| :: StepRecord(steps[k]).None?
    ensures Emitted(steps) == []
  {
    if steps != [] {
      assert forall k | 0 <= k < |steps[1..]| :: steps[1..][k] == steps[k + 1];
      SilentSteps(steps[1..]);
    }
  }

  // ---------------------------------------------------------------------
  // The walk against the alignment
  // ---------------------------------------------------------------------

  /**
   * `records` and `failure` are what the walk prints and reports when it
   * stops at `steps[k]`: every step before that one can be produced, that
   * one cannot, the failure names one of its packages that cannot be
   * produced, and the lines are exactly those of the steps before it.
   */
  predicate StopsAt(records: seq<Record>, failure: Failure, steps: seq<Step>, k: int, curr: Graph, compat: Graph, latest: Graph) {
    && 0 <= k < |steps|
    && !Available(steps[k], curr, compat, latest)
    && NamesUnavailable(failure, steps[k], curr, compat, latest)
    && AllAvailable(steps[..k], curr, compat, latest)
    && records == Emitted(steps[..k])
  }

  /**
   * The walk fails exactly when some package of `steps` cannot be produced.
   * Without failure it has printed every line of `steps`; with one, it has
   * printed the lines of the steps before the first such package, and the
   * failure names an unavailable package of that step.
   */
  predicate Follows(w: Report, steps: seq<Step>, curr: Graph, compat: Graph, latest: Graph) {
    && (w.failure.None? <==> AllAvailable(steps, curr, compat, latest))
    && (w.failure.None? ==> w.records == Emitted(steps))
    && (w.failure.Some? ==> w.failure.value.PackageUnavailable?)
    && (w.failure.Some? ==> exists k | 0 <= k < |steps| :: StopsAt(w.records, w.failure.value, steps, k, curr, compat, latest))
  }

  /** Whatever the walk printed, failure or not, is a prefix of the lines of `steps`. */
  lemma FollowsPrintsPrefix(w: Report, steps: seq<Step>, curr: Graph, compat: Graph, latest: Graph)
    requires Follows(w, steps, curr, compat, latest)
    ensures w.records <= Emitted(steps)
  {
    if w.failure.Some? {
      var k :| 0 <= k < |steps| && StopsAt(w.records, w.failure.value, steps, k, curr, compat, latest);
      assert steps == steps[..k] + steps[k..];
      EmittedAppend(steps[..k], steps[k..]);
    }
  }

  /** Stopping inside `a` is stopping inside `a + b` at the same place. */
  lemma StopsAtPrefix(records: seq<Record>, failure: Failure, a: seq<Step>, b: seq<Step>, k: int, curr: Graph, compat: Graph, latest: Graph)
    requires StopsAt(records, failure, a, k, curr, compat, latest)
    ensures StopsAt(records, failure, a + b, k, curr, compat, latest)
  {
    assert (a + b)[..k] == a[..k];
    assert (a + b)[k] == a[k];
  }

  /** Stopping inside `b` after all of `a` has been printed is stopping inside `a + b`. */
  lemma StopsAtShift(records: seq<Record>, failure: Failure, a: seq<Step>, b: seq<Step>, k: int, curr: Graph, compat: Graph, latest: Graph)
    requires AllAvailable(a, curr, compat, latest)
    requires StopsAt(records, failure, b, k, curr, compat, latest)
    ensures StopsAt(Emitted(a) + records, failure, a + b, |a| + k, curr, compat, latest)
  {
    PrefixOfAppend(a, b, k);
    AllAvailableAppend(a, b[..k], curr, compat, latest);
    EmittedAppend(a, b[..k]);
  }

  lemma PrefixOfAppend<T>(a: seq<T>, b: seq<T>, k: int)
    requires 0 <= k < |b|
    ensures (a + b)[..|a| + k] == a + b[..k]
    ensures (a + b)[|a| + k] == b[k]
  {
  }

  /**
   * The walk prints a prefix of the lines of the alignment; it fails
   * exactly when some aligned package cannot be produced, and when it does
   * not fail it prints all of them.
   */
  lemma {:induction false} WalkFollowsAlignment(currRoot: PackageId, curr: Graph,
                                                compatRoot: Option<PackageId>, compat: Graph,
                                                latestRoot: Option<PackageId>, latest: Graph,
                                                rank: map<PackageId, nat>)
    requires Ranked(curr, rank)
    requires currRoot in rank
    decreases RankOf(rank, currRoot), 1, 0
    ensures Follows(CompareVersionsRecursive(currRoot, curr, compatRoot, compat, latestRoot, latest, rank),
                    Align(currRoot, curr, compatRoot, compat, latestRoot, latest, rank), curr, compat, latest)
  {
    var head := Step(currRoot, compatRoot, latestRoot);
    var tail := AlignDeps(currRoot, curr, compatRoot, compat, latestRoot, latest, rank, 0);
    var steps := Align(currRoot, curr, compatRoot, compat, latestRoot, latest, rank);
    var w := CompareVersionsRecursive(currRoot, curr, compatRoot, compat, latestRoot, latest, rank);
    assert steps == [head] + tail;
    EmittedAppend([head], tail);
    AllAvailableAppend([head], tail, curr, compat, latest);
    assert Emitted([head]) == Emit(head) by {
      assert [head][1..] == [];
    }
    if NodeCheck(currRoot, curr, compatRoot, compat, latestRoot, latest).None? {
      var rest := CompareDeps(currRoot, curr, compatRoot, compat, latestRoot, latest, rank, 0);
      assert w == Report(Emit(head) + rest.records, rest.failure);
      DepsFollowAlignment(currRoot, curr, compatRoot, compat, latestRoot, latest, rank, 0);
      if rest.failure.Some? {
        var k :| StopsAt(rest.records, rest.failure.value, tail, k, curr, compat, latest);
        assert AllAvailable([head], curr, compat, latest);
        StopsAtShift(rest.records, rest.failure.value, [head], tail, k, curr, compat, latest);
      }
    } else {
      assert !Available(steps[0], curr, compat, latest);
      assert steps[..0] == [];
      assert StopsAt(w.records, w.failure.value, steps, 0, curr, compat, latest);
    }
  }

  lemma {:induction false} DepsFollowAlignment(parent: PackageId, curr: Graph,
                                               compatParent: Option<PackageId>, compat: Graph,
                                               latestParent: Option<PackageId>, latest: Graph,
                                               rank: map<PackageId, nat>, i: nat)
    requires Ranked(curr, rank)
    requires parent in rank
    decreases RankOf(rank, parent), 0, |Deps(curr, parent)| - i
    ensures Follows(CompareDeps(parent, curr, compatParent, compat, latestParent, latest, rank, i),
                    AlignDeps(parent, curr, compatParent, compat, latestParent, latest, rank, i), curr, compat, latest)
  {
    if i < |Deps(curr, parent)| {
      var dep := Deps(curr, parent)[i];
      assert RankOf(rank, dep) < RankOf(rank, parent) by {
        assert parent in curr.deps && curr.deps[parent][i] == dep;
      }
      var nc, nl := Follow(dep.name, compatParent, compat), Follow(dep.name, latestParent, latest);
      var first := Align(dep, curr, nc, compat, nl, latest, rank);
      var rest := AlignDeps(parent, curr, compatParent, compat, latestParent, latest, rank, i + 1);
      var steps := AlignDeps(parent, curr, compatParent, compat, latestParent, latest, rank, i);
      var w := CompareDeps(parent, curr, compatParent, compat, latestParent, latest, rank, i);
      assert steps == first + rest;
      EmittedAppend(first, rest);
      AllAvailableAppend(first, rest, curr, compat, latest);
      if dep in curr.packages {
        var sub := CompareVersionsRecursive(dep, curr, nc, compat, nl, latest, rank);
        WalkFollowsAlignment(dep, curr, nc, compat, nl, latest, rank);
        assert Follows(sub, first, curr, compat, latest);
        if sub.failure.Some? {
          assert w == sub;
          var k :| StopsAt(sub.records, sub.failure.value, first, k, curr, compat, latest);
          StopsAtPrefix(sub.records, sub.failure.value, first, rest, k, curr, compat, latest);
        } else {
          var tail := CompareDeps(parent, curr, compatParent, compat, latestParent, latest, rank, i + 1);
          assert w == Report(sub.records + tail.records, tail.failure);
          DepsFollowAlignment(parent, curr, compatParent, compat, latestParent, latest, rank, i + 1);
          assert Follows(tail, rest, curr, compat, latest);
          if tail.failure.Some? {
            var k :| StopsAt(tail.records, tail.failure.value, rest, k, curr, compat, latest);
            StopsAtShift(tail.records, tail.failure.value, first, rest, k, curr, compat, latest);
          }
        }
      } else {
        assert w == Report([], Some(PackageUnavailable(dep)));
        assert !Available(first[0], curr, compat, latest);
        assert steps[..0] == [];
        assert StopsAt(w.records, w.failure.value, steps, 0, curr, compat, latest);
      }
    }
  }

  // ---------------------------------------------------------------------
  // Properties of the alignment
  // ---------------------------------------------------------------------

  predicate CompatGone(steps: seq<Step>) {
    forall k | 0 <= k < |steps| :: steps[k].compat.None?
  }

  predicate LatestGone(steps: seq<Step>) {
    forall k | 0 <= k < |steps| :: steps[k].latest.None?
  }

  predicate BranchesAgree(steps: seq<Step>) {
    forall k | 0 <= k < |steps| :: steps[k].compat == steps[k].latest
  }

  predicate SelfAligned(steps: seq<Step>) {
    forall k | 0 <= k < |steps| :: steps[k] == Step(steps[k].node, Some(steps[k].node), Some(steps[k].node))
  }

  /** The alignment visits the current graph in pre-order: a package before its dependencies, those in the resolver's order. */
  lemma {:induction false} AlignVisitsPreOrder(currRoot: PackageId, curr: Graph,
                                               compatRoot: Option<PackageId>, compat: Graph,
                                               latestRoot: Option<PackageId>, latest: Graph,
                                               rank: map<PackageId, nat>)
    requires Ranked(curr, rank)
    requires currRoot in rank
    decreases RankOf(rank, currRoot), 1, 0
    ensures Nodes(Align(currRoot, curr, compatRoot, compat, latestRoot, latest, rank)) == Visit(currRoot, curr, rank)
  {
    var head := Step(currRoot, compatRoot, latestRoot);
    var tail := AlignDeps(currRoot, curr, compatRoot, compat, latestRoot, latest, rank, 0);
    NodesAppend([head], tail);
    assert Nodes([head]) == [currRoot] by {
      assert [head][1..] == [];
    }
    AlignDepsVisitsPreOrder(currRoot, curr, compatRoot, compat, latestRoot, latest, rank, 0);
  }

  lemma {:induction false} AlignDepsVisitsPreOrder(parent: PackageId, curr: Graph,
                                                   compatParent: Option<PackageId>, compat: Graph,
                                                   latestParent: Option<PackageId>, latest: Graph,
                                                   rank: map<PackageId, nat>, i: nat)
    requires Ranked(curr, rank)
    requires parent in rank
    decreases RankOf(rank, parent), 0, |Deps(curr, parent)| - i
    ensures Nodes(AlignDeps(parent, curr, compatParent, compat, latestParent, latest, rank, i)) == VisitDeps(parent, curr, rank, i)
  {
    if i < |Deps(curr, parent)| {
      var dep := Deps(curr, parent)[i];
      assert RankOf(rank, dep) < RankOf(rank, parent) by {
        assert parent in curr.deps && curr.deps[parent][i] == dep;
      }
      var nc, nl := Follow(dep.name, compatParent, compat), Follow(dep.name, latestParent, latest);
      NodesAppend(Align(dep, curr, nc, compat, nl, latest, rank),
                  AlignDeps(parent, curr, compatParent, compat, latestParent, latest, rank, i + 1));
      AlignVisitsPreOrder(dep, curr, nc, compat, nl, latest, rank);
      AlignDepsVisitsPreOrder(parent, curr, compatParent, compat, latestParent, latest, rank, i + 1);
    }
  }

  /** Once a branch has no package, none of the packages below has one in that branch either. */
  lemma {:induction false} RemovalIsInherited(currRoot: PackageId, curr: Graph,
                                              compatRoot: Option<PackageId>, compat: Graph,
                                              latestRoot: Option<PackageId>, latest: Graph,
                                              rank: map<PackageId, nat>)
    requires Ranked(curr, rank)
    requires currRoot in rank
    decreases RankOf(rank, currRoot), 1, 0
    ensures compatRoot.None? ==> CompatGone(Align(currRoot, curr, compatRoot, compat, latestRoot, latest, rank))
    ensures latestRoot.None? ==> LatestGone(Align(currRoot, curr, compatRoot, compat, latestRoot, latest, rank))
  {
    var tail := AlignDeps(currRoot, curr, compatRoot, compat, latestRoot, latest, rank, 0);
    var steps := Align(currRoot, curr, compatRoot, compat, latestRoot, latest, rank);
    assert steps == [Step(currRoot, compatRoot, latestRoot)] + tail;
    DepsRemovalIsInherited(currRoot, curr, compatRoot, compat, latestRoot, latest, rank, 0);
    forall k | 1 <= k < |steps|
      ensures steps[k] == tail[k - 1]
    {
    }
  }

  lemma {:induction false} DepsRemovalIsInherited(parent: PackageId, curr: Graph,
                                                  compatParent: Option<PackageId>, compat: Graph,
                                                  latestParent: Option<PackageId>, latest: Graph,
                                                  rank: map<PackageId, nat>, i: nat)
    requires Ranked(curr, rank)
    requires parent in rank
    decreases RankOf(rank, parent), 0, |Deps(curr, parent)| - i
    ensures compatParent.None? ==> CompatGone(AlignDeps(parent, curr, compatParent, compat, latestParent, latest, rank, i))
    ensures latestParent.None? ==> LatestGone(AlignDeps(parent, curr, compatParent, compat, latestParent, latest, rank, i))
  {
    if i < |Deps(curr, parent)| {
      var dep := Deps(curr, parent)[i];
      assert RankOf(rank, dep) < RankOf(rank, parent) by {
        assert parent in curr.deps && curr.deps[parent][i] == dep;
      }
      var nc, nl := Follow(dep.name, compatParent, compat), Follow(dep.name, latestParent, latest);
      var first := Align(dep, curr, nc, compat, nl, latest, rank);
      var rest := AlignDeps(parent, curr, compatParent, compat, latestParent, latest, rank, i + 1);
      assert AlignDeps(parent, curr, compatParent, compat, latestParent, latest, rank, i) == first + rest;
      RemovalIsInherited(dep, curr, nc, compat, nl, latest, rank);
      DepsRemovalIsInherited(parent, curr, compatParent, compat, latestParent, latest, rank, i + 1);
      forall k | 0 <= k < |AlignDeps(parent, curr, compatParent, compat, latestParent, latest, rank, i)|
        ensures AlignDeps(parent, curr, compatParent, compat, latestParent, latest, rank, i)[k] == if k < |first| then first[k] else rest[k - |first|]
      {
      }
    }
  }

  /** When the two branches are the same graph from the same package, they stay in step everywhere. */
  lemma {:induction false} EqualBranchesStayEqual(currRoot: PackageId, curr: Graph,
                                                  branchRoot: Option<PackageId>, branch: Graph,
                                                  rank: map<PackageId, nat>)
    requires Ranked(curr, rank)
    requires currRoot in rank
    decreases RankOf(rank, currRoot), 1, 0
    ensures BranchesAgree(Align(currRoot, curr, branchRoot, branch, branchRoot, branch, rank))
  {
    var tail := AlignDeps(currRoot, curr, branchRoot, branch, branchRoot, branch, rank, 0);
    assert Align(currRoot, curr, branchRoot, branch, branchRoot, branch, rank) == [Step(currRoot, branchRoot, branchRoot)] + tail;
    DepsEqualBranchesStayEqual(currRoot, curr, branchRoot, branch, rank, 0);
    forall k | 1 <= k < |Align(currRoot, curr, branchRoot, branch, branchRoot, branch, rank)|
      ensures Align(currRoot, curr, branchRoot, branch, branchRoot, branch, rank)[k] == tail[k - 1]
    {
    }
  }

  lemma {:induction false} DepsEqualBranchesStayEqual(parent: PackageId, curr: Graph,
                                                      branchParent: Option<PackageId>, branch: Graph,
                                                      rank: map<PackageId, nat>, i: nat)
    requires Ranked(curr, rank)
    requires parent in rank
    decreases RankOf(rank, parent), 0, |Deps(curr, parent)| - i
    ensures BranchesAgree(AlignDeps(parent, curr, branchParent, branch, branchParent, branch, rank, i))
  {
    if i < |Deps(curr, parent)| {
      var dep := Deps(curr, parent)[i];
      assert RankOf(rank, dep) < RankOf(rank, parent) by {
        assert parent in curr.deps && curr.deps[parent][i] == dep;
      }
      var nb := Follow(dep.name, branchParent, branch);
      var first := Align(dep, curr, nb, branch, nb, branch, rank);
      var rest := AlignDeps(parent, curr, branchParent, branch, branchParent, branch, rank, i + 1);
      assert AlignDeps(parent, curr, branchParent, branch, branchParent, branch, rank, i) == first + rest;
      EqualBranchesStayEqual(dep, curr, nb, branch, rank);
      DepsEqualBranchesStayEqual(parent, curr, branchParent, branch, rank, i + 1);
      forall k | 0 <= k < |AlignDeps(parent, curr, branchParent, branch, branchParent, branch, rank, i)|
        ensures AlignDeps(parent, curr, branchParent, branch, branchParent, branch, rank, i)[k] == if k < |first| then first[k] else rest[k - |first|]
      {
      }
    }
  }

  /**
   * Comparing a resolution with itself, where no package has two
   * dependencies of the same name, aligns every package with itself.
   */
  lemma {:induction false} IdenticalResolutionsAlign(root: PackageId, g: Graph, rank: map<PackageId, nat>)
    requires Ranked(g, rank) && NamesUnique(g)
    requires root in rank
    decreases RankOf(rank, root), 1, 0
    ensures SelfAligned(Align(root, g, Some(root), g, Some(root), g, rank))
  {
    var tail := AlignDeps(root, g, Some(root), g, Some(root), g, rank, 0);
    assert Align(root, g, Some(root), g, Some(root), g, rank) == [Step(root, Some(root), Some(root))] + tail;
    DepsIdenticalResolutionsAlign(root, g, rank, 0);
    forall k | 1 <= k < |Align(root, g, Some(root), g, Some(root), g, rank)|
      ensures Align(root, g, Some(root), g, Some(root), g, rank)[k] == tail[k - 1]
    {
    }
  }

  lemma {:induction false} DepsIdenticalResolutionsAlign(parent: PackageId, g: Graph, rank: map<PackageId, nat>, i: nat)
    requires Ranked(g, rank) && NamesUnique(g)
    requires parent in rank
    decreases RankOf(rank, parent), 0, |Deps(g, parent)| - i
    ensures SelfAligned(AlignDeps(parent, g, Some(parent), g, Some(parent), g, rank, i))
  {
    if i < |Deps(g, parent)| {
      var dep := Deps(g, parent)[i];
      assert RankOf(rank, dep) < RankOf(rank, parent) by {
        assert parent in g.deps && g.deps[parent][i] == dep;
      }
      FirstNamedFindsItself(g, parent, i);
      assert Follow(dep.name, Some(parent), g) == Some(dep);
      var first := Align(dep, g, Some(dep), g, Some(dep), g, rank);
      var rest := AlignDeps(parent, g, Some(parent), g, Some(parent), g, rank, i + 1);
      assert AlignDeps(parent, g, Some(parent), g, Some(parent), g, rank, i) == first + rest;
      IdenticalResolutionsAlign(dep, g, rank);
      DepsIdenticalResolutionsAlign(parent, g, rank, i + 1);
      forall k | 0 <= k < |AlignDeps(parent, g, Some(parent), g, Some(parent), g, rank, i)|
        ensures AlignDeps(parent, g, Some(parent), g, Some(parent), g, rank, i)[k] == if k < |first| then first[k] else rest[k - |first|]
      {
      }
    }
  }

  // ---------------------------------------------------------------------
  // Properties of the walk
  // ---------------------------------------------------------------------

  /** A branch that has lost the package reports "removed" on every line below it. */
  lemma RemovedBranchReportsRemoved(currRoot: PackageId, curr: Graph,
                                    compatRoot: Option<PackageId>, compat: Graph,
                                    latestRoot: Option<PackageId>, latest: Graph,
                                    rank: map<PackageId, nat>)
    requires Ranked(curr, rank)
    requires currRoot in rank
    ensures var w := CompareVersionsRecursive(currRoot, curr, compatRoot, compat, latestRoot, latest, rank);
            && (compatRoot.None? ==> forall k | 0 <= k < |w.records| :: w.records[k].compat == Removed)
            && (latestRoot.None? ==> forall k | 0 <= k < |w.records| :: w.records[k].latest == Removed)
  {
    var w := CompareVersionsRecursive(currRoot, curr, compatRoot, compat, latestRoot, latest, rank);
    var steps := Align(currRoot, curr, compatRoot, compat, latestRoot, latest, rank);
    WalkFollowsAlignment(currRoot, curr, compatRoot, compat, latestRoot, latest, rank);
    FollowsPrintsPrefix(w, steps, curr, compat, latest);
    RemovalIsInherited(currRoot, curr, compatRoot, compat, latestRoot, latest, rank);
    forall k | 0 <= k < |w.records|
      ensures compatRoot.None? ==> w.records[k].compat == Removed
      ensures latestRoot.None? ==> w.records[k].latest == Removed
    {
      assert w.records[k] in Emitted(steps);
      EmittedFromSteps(steps, w.records[k]);
    }
  }

  /** Comparing a resolution with itself prints nothing. */
  lemma NoDriftOnIdenticalResolutions(root: PackageId, g: Graph, rank: map<PackageId, nat>)
    requires Ranked(g, rank) && NamesUnique(g)
    requires root in rank
    ensures CompareVersionsRecursive(root, g, Some(root), g, Some(root), g, rank).records == []
  {
    var w := CompareVersionsRecursive(root, g, Some(root), g, Some(root), g, rank);
    var steps := Align(root, g, Some(root), g, Some(root), g, rank);
    WalkFollowsAlignment(root, g, Some(root), g, Some(root), g, rank);
    FollowsPrintsPrefix(w, steps, g, g, g);
    IdenticalResolutionsAlign(root, g, rank);
    SilentSteps(steps);
  }

  /**
   * Without unique names the first match is taken: a package depending on
   * two versions of `foo`, compared with itself, reports the second `foo`
   * against the first.
   */
  lemma DuplicateNamesMisalign()
    ensures
      var app := PackageId("app", Version(0, 1, 0, [], []), "path");
      var foo1 := PackageId("foo", Version(1, 0, 0, [], []), "registry");
      var foo2 := PackageId("foo", Version(2, 0, 0, [], []), "registry");
      var g := Graph({app, foo1, foo2}, map[app := [foo1, foo2]]);
      var rank := map[app := 1, foo1 := 0, foo2 := 0];
      Ranked(g, rank) &&
      CompareVersionsRecursive(app, g, Some(app), g, Some(app), g, rank)
        == Report([Record("foo", Changed(foo1.version), Changed(foo1.version))], None)
  {
    var app := PackageId("app", Version(0, 1, 0, [], []), "path");
    var foo1 := PackageId("foo", Version(1, 0, 0, [], []), "registry");
    var foo2 := PackageId("foo", Version(2, 0, 0, [], []), "registry");
    var g := Graph({app, foo1, foo2}, map[app := [foo1, foo2]]);
    var rank := map[app := 1, foo1 := 0, foo2 := 0];
    assert Ranked(g, rank);
    assert Deps(g, foo1) == [] && Deps(g, foo2) == [];
    assert FirstNamed([foo1, foo2], "foo") == Some(foo1);
    assert CompareDeps(foo2, g, Some(foo1), g, Some(foo1), g, rank, 0) == Report([], None);
    assert StepRecord(Step(foo2, Some(foo1), Some(foo1))) == Some(Record("foo", Changed(foo1.version), Changed(foo1.version)));
    var w2 := CompareVersionsRecursive(foo2, g, Some(foo1), g, Some(foo1), g, rank);
    assert w2 == Report([Record("foo", Changed(foo1.version), Changed(foo1.version))], None);
    assert CompareDeps(app, g, Some(app), g, Some(app), g, rank, 2) == Report([], None);
    assert CompareDeps(app, g, Some(app), g, Some(app), g, rank, 1) == w2;
    assert CompareDeps(foo1, g, Some(foo1), g, Some(foo1), g, rank, 0) == Report([], None);
    assert StepRecord(Step(foo1, Some(foo1), Some(foo1))) == None;
    assert CompareVersionsRecursive(foo1, g, Some(foo1), g, Some(foo1), g, rank) == Report([], None);
    assert CompareDeps(app, g, Some(app), g, Some(app), g, rank, 0) == w2;
  }

  /**
   * A cycle the walk never reaches is harmless: two other members `b` and
   * `c` depending on each other, with `app` depending on neither, can be
   * ranked from `app`, and comparing `app` with itself prints nothing.
   */
  lemma UnreachableCycleIsAdmitted()
    ensures
      var app := PackageId("app", Version(0, 1, 0, [], []), "path");
      var b := PackageId("b", Version(0, 1, 0, [], []), "path");
      var c := PackageId("c", Version(0, 1, 0, [], []), "path");
      var g := Graph({app, b, c}, map[app := [], b := [c], c := [b]]);
      var rank := map[app := 0];
      && Ranked(g, rank) && app in rank
      && CompareVersionsRecursive(app, g, Some(app), g, Some(app), g, rank) == Report([], None)
  {
    var app := PackageId("app", Version(0, 1, 0, [], []), "path");
    var b := PackageId("b", Version(0, 1, 0, [], []), "path");
    var c := PackageId("c", Version(0, 1, 0, [], []), "path");
    var g := Graph({app, b, c}, map[app := [], b := [c], c := [b]]);
    var rank := map[app := 0];
    assert Ranked(g, rank);
    assert Deps(g, app) == [];
  }

  // ---------------------------------------------------------------------
  // compare_versions: resolving the three workspaces
  // ---------------------------------------------------------------------

  /**
   * A workspace as the comparison sees it: the graph the resolver produces
   * for it (`None` when resolution fails) and its root package (`None` for a
   * virtual manifest).
   */
  datatype Workspace = Workspace(resolution: Option<Graph>, current: Option<PackageId>)

  predicate RankedResolution(ws: Workspace, rank: map<PackageId, nat>) {
    ws.resolution.Some? ==> Ranked(ws.resolution.value, rank) && (ws.current.Some? ==> ws.current.value in rank)
  }

  /**
   * `compare_versions` as written: the "latest" graph and root are taken
   * from the compatible workspace, so `latest` is never looked at.
   */
  function CompareVersions(curr: Workspace, compat: Workspace, latest: Workspace, rank: map<PackageId, nat>): (r: Report)
    requires RankedResolution(curr, rank)
    ensures r.failure == Some(ResolveFailed) <==> curr.resolution.None? || compat.resolution.None?
    ensures r.failure == Some(NoCurrentPackage) <==>
      curr.resolution.Some? && compat.resolution.Some? && (curr.current.None? || compat.current.None?)
  {
    if curr.resolution.None? || compat.resolution.None? then Report([], Some(ResolveFailed))
    else if curr.current.None? || compat.current.None? then Report([], Some(NoCurrentPackage))
    else
      CompareVersionsRecursive(curr.current.value, curr.resolution.value,
                               Some(compat.current.value), compat.resolution.value,
                               Some(compat.current.value), compat.resolution.value, rank)
  }

  /** As written, every line shows the same thing in the "latest" column as in the "compatible" one. */
  lemma LatestColumnMirrorsCompatible(curr: Workspace, compat: Workspace, latest: Workspace, rank: map<PackageId, nat>)
    requires RankedResolution(curr, rank)
    ensures var w := CompareVersions(curr, compat, latest, rank);
            forall k | 0 <= k < |w.records| :: w.records[k].latest == w.records[k].compat
  {
    var w := CompareVersions(curr, compat, latest, rank);
    if curr.resolution.Some? && compat.resolution.Some? && curr.current.Some? && compat.current.Some? {
      var root, g := curr.current.value, curr.resolution.value;
      var branchRoot, branch := Some(compat.current.value), compat.resolution.value;
      var steps := Align(root, g, branchRoot, branch, branchRoot, branch, rank);
      WalkFollowsAlignment(root, g, branchRoot, branch, branchRoot, branch, rank);
      FollowsPrintsPrefix(w, steps, g, branch, branch);
      EqualBranchesStayEqual(root, g, branchRoot, branch, rank);
      forall k | 0 <= k < |w.records|
        ensures w.records[k].latest == w.records[k].compat
      {
        assert w.records[k] in Emitted(steps);
        EmittedFromSteps(steps, w.records[k]);
      }
    }
  }

  /** As written, the latest workspace is never looked at: any other gives the same output. */
  lemma LatestWorkspaceIsIgnored(curr: Workspace, compat: Workspace, latest: Workspace, other: Workspace, rank: map<PackageId, nat>)
    requires RankedResolution(curr, rank)
    ensures CompareVersions(curr, compat, latest, rank) == CompareVersions(curr, compat, other, rank)
  {
  }

  /** `compare_versions` with the latest workspace wired in, as its parameters promise. */
  function CompareVersionsIntended(curr: Workspace, compat: Workspace, latest: Workspace, rank: map<PackageId, nat>): (r: Report)
    requires RankedResolution(curr, rank)
    ensures r.failure == Some(ResolveFailed) <==>
      curr.resolution.None? || compat.resolution.None? || latest.resolution.None?
    ensures r.failure == Some(NoCurrentPackage) <==>
      && curr.resolution.Some? && compat.resolution.Some? && latest.resolution.Some?
      && (curr.current.None? || compat.current.None? || latest.current.None?)
  {
    if curr.resolution.None? || compat.resolution.None? || latest.resolution.None? then Report([], Some(ResolveFailed))
    else if curr.current.None? || compat.current.None? || latest.current.None? then Report([], Some(NoCurrentPackage))
    else
      CompareVersionsRecursive(curr.current.value, curr.resolution.value,
                               Some(compat.current.value), compat.resolution.value,
                               Some(latest.current.value), latest.resolution.value, rank)
  }

  /**
   * With the latest workspace wired in, the walk follows the alignment
   * against the compatible and the latest resolutions: it prints all of its
   * lines, in order, or those before the first package it cannot produce;
   * and the "latest" column of every line comes from the package aligned in
   * the latest resolution.
   */
  lemma IntendedLatestColumnFollowsLatest(curr: Workspace, compat: Workspace, latest: Workspace, rank: map<PackageId, nat>)
    requires RankedResolution(curr, rank)
    requires curr.resolution.Some? && compat.resolution.Some? && latest.resolution.Some?
    requires curr.current.Some? && compat.current.Some? && latest.current.Some?
    ensures Follows(CompareVersionsIntended(curr, compat, latest, rank),
                    Align(curr.current.value, curr.resolution.value,
                          Some(compat.current.value), compat.resolution.value,
                          Some(latest.current.value), latest.resolution.value, rank),
                    curr.resolution.value, compat.resolution.value, latest.resolution.value)
  {
    var root := curr.current.value;
    WalkFollowsAlignment(root, curr.resolution.value, Some(compat.current.value), compat.resolution.value,
                         Some(latest.current.value), latest.resolution.value, rank);
  }

  /** When the compatible and latest workspaces coincide, the intended wiring prints what the source prints. */
  lemma IntendedAgreesWhenLatestIsCompatible(curr: Workspace, compat: Workspace, rank: map<PackageId, nat>)
    requires RankedResolution(curr, rank)
    ensures CompareVersionsIntended(curr, compat, compat, rank) == CompareVersions(curr, compat, compat, rank)
  {
  }

  /**
   * A dependency pinned at 1.0.0, with 1.2.0 inside its range and 2.0.0
   * outside it: the intended wiring reports 1.2.0 and 2.0.0, the source
   * reports 1.2.0 twice.
   */
  lemma UpgradeBeyondRange()
    ensures
      var app := PackageId("app", Version(0, 1, 0, [], []), "path");
      var foo := PackageId("foo", Version(1, 0, 0, [], []), "registry");
      var fooCompat := PackageId("foo", Version(1, 2, 0, [], []), "registry");
      var fooLatest := PackageId("foo", Version(2, 0, 0, [], []), "registry");
      var curr := Workspace(Some(Graph({app, foo}, map[app := [foo]])), Some(app));
      var compat := Workspace(Some(Graph({app, fooCompat}, map[app := [fooCompat]])), Some(app));
      var latest := Workspace(Some(Graph({app, fooLatest}, map[app := [fooLatest]])), Some(app));
      var rank := map[app := 1, foo := 0];
      && RankedResolution(curr, rank)
      && CompareVersionsIntended(curr, compat, latest, rank)
           == Report([Record("foo", Changed(fooCompat.version), Changed(fooLatest.version))], None)
      && CompareVersions(curr, compat, latest, rank)
           == Report([Record("foo", Changed(fooCompat.version), Changed(fooCompat.version))], None)
  {
  }
}
