/**
 * Where a workspace member's files land in the temporary project: the
 * member's directory with the first occurrence of the workspace root
 * replaced by the temporary directory (`str::replacen` with a count of one).
 */
module Paths {
  import opened Wrappers

  /** `pat` occurs in `s` starting at index `j`. */
  predicate OccursAt(s: string, pat: string, j: int) {
    0 <= j && j + |pat| <= |s| && s[j..j + |pat|] == pat
  }

  /** The leftmost occurrence of `pat` in `s` at or after index `from`. */
  function FindFrom(s: string, pat: string, from: nat): (r: Option<nat>)
    decreases |s| - from
    ensures r.Some? ==> from <= r.value && OccursAt(s, pat, r.value)
    ensures r.Some? ==> forall j | from <= j < r.value :: !OccursAt(s, pat, j)
    ensures r.None? ==> forall j | from <= j :: !OccursAt(s, pat, j)
  {
    if from + |pat| > |s| then None
    else if s[from..from + |pat|] == pat then Some(from)
    else FindFrom(s, pat, from + 1)
  }

  /**
   * `r` is `s` when `pat` does not occur in it, and otherwise `s` with its
   * leftmost occurrence of `pat` replaced by `rep`.
   */
  ghost predicate ReplacedLeftmost(s: string, pat: string, rep: string, r: string) {
    && ((forall j | 0 <= j :: !OccursAt(s, pat, j)) ==> r == s)
    && ((exists j :: OccursAt(s, pat, j)) ==> exists i | OccursAt(s, pat, i) ::
          && (forall j | 0 <= j < i :: !OccursAt(s, pat, j))
          && r == s[..i] + rep + s[i + |pat|..])
  }

  /**
   * `s.replacen(pat, rep, 1)`: the first occurrence of `pat` replaced by
   * `rep`, or `s` itself when `pat` does not occur. An empty `pat` occurs at
   * index 0, so `rep` is then put in front of `s`.
   */
  function ReplaceFirst(s: string, pat: string, rep: string): (r: string)
    ensures ReplacedLeftmost(s, pat, rep, r)
  {
    match FindFrom(s, pat, 0)
    case None => s
    case Some(i) => s[..i] + rep + s[i + |pat|..]
  }

  /** A member under the workspace root is mirrored under the temporary directory. */
  lemma MemberUnderRootIsMirrored(source: string, root: string, temp: string)
    requires root <= source
    ensures ReplaceFirst(source, root, temp) == temp + source[|root|..]
  {
    assert source[0..|root|] == root;
    assert FindFrom(source, root, 0) == Some(0);
    assert source[..0] + temp + source[|root|..] == temp + source[|root|..];
  }

  /**
   * A member whose directory does not contain the workspace root is not
   * moved at all: its destination is its own directory.
   */
  lemma MemberOutsideRootIsNotMoved(source: string, root: string, temp: string)
    requires forall j | 0 <= j :: !OccursAt(source, root, j)
    ensures ReplaceFirst(source, root, temp) == source
  {
  }

  /**
   * The replacement happens at the leftmost occurrence: what precedes it is
   * kept, and contains no occurrence of the pattern.
   */
  lemma ReplaceFirstIsLeftmost(s: string, pat: string, rep: string, j: nat)
    requires OccursAt(s, pat, j)
    ensures exists i | 0 <= i <= j :: OccursAt(s, pat, i) && ReplaceFirst(s, pat, rep) == s[..i] + rep + s[i + |pat|..]
  {
  }
}
