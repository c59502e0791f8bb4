/** The Python string operations the Snips handler relies on: `startswith`,
    `find(sep, start)` and `split(sep)` with an explicit separator. `split`
    scans from the left with a moving start index, so two separators never
    overlap. */
module PyStrings {
  import opened Wrappers

  /** `sep` occurs in `s` starting at index `i`. */
  predicate OccursAt(s: string, sep: string, i: int)
  {
    0 <= i && i + |sep| <= |s| && forall k :: 0 <= k < |sep| ==> s[i + k] == sep[k]
  }

  /** `sep in s`. */
  predicate Contains(s: string, sep: string)
  {
    exists i :: 0 <= i <= |s| && OccursAt(s, sep, i)
  }

  /** `s.startswith(prefix)`. */
  predicate StartsWith(s: string, prefix: string)
  {
    |prefix| <= |s| && s[..|prefix|] == prefix
  }

  /** An occurrence inside a slice `s[lo..hi]` is an occurrence in `s`. */
  lemma OccursInSlice(s: string, lo: nat, hi: nat, sep: string, j: nat)
    requires lo <= hi <= |s| && OccursAt(s[lo..hi], sep, j)
    ensures OccursAt(s, sep, lo + j) && lo + j + |sep| <= hi
  {
  }

  /** An occurrence starts with the separator's first character. */
  lemma OccursAtFirstChar(s: string, sep: string, i: int)
    requires |sep| > 0 && OccursAt(s, sep, i)
    ensures s[i] == sep[0]
  {
  }

  /** `s.find(sep, start)`: the first index at or after `start` where `sep`
      occurs, if any (Python returns -1 for none). */
  function FindFrom(s: string, sep: string, start: nat): (r: Option<nat>)
    requires |sep| > 0
    ensures r.Some? ==> start <= r.value && OccursAt(s, sep, r.value)
    decreases |s| - start
  {
    if start + |sep| > |s| then None
    else if OccursAt(s, sep, start) then Some(start)
    else FindFrom(s, sep, start + 1)
  }

  /** `find` reports the first occurrence, and none only when there is none. */
  lemma {:induction false} FindFromIsFirst(s: string, sep: string, start: nat)
    requires |sep| > 0
    ensures FindFrom(s, sep, start).Some? ==>
              forall j :: start <= j < FindFrom(s, sep, start).value ==> !OccursAt(s, sep, j)
    ensures FindFrom(s, sep, start).None? ==> forall j :: start <= j ==> !OccursAt(s, sep, j)
    decreases |s| - start
  {
    if start + |sep| > |s| {
    } else if OccursAt(s, sep, start) {
    } else {
      FindFromIsFirst(s, sep, start + 1);
    }
  }

  /** Skipping indices where the separator does not occur leaves `find` unchanged. */
  lemma {:induction false} FindFromSkips(s: string, sep: string, start: nat, j: nat)
    requires |sep| > 0 && start <= j
    requires forall k :: start <= k < j ==> !OccursAt(s, sep, k)
    ensures FindFrom(s, sep, start) == FindFrom(s, sep, j)
    decreases j - start
  {
    if start < j && start + |sep| <= |s| {
      assert !OccursAt(s, sep, start);
      FindFromSkips(s, sep, start + 1, j);
    }
  }

  /** The parts of `s[start..]` split on `sep`. */
  function SplitFrom(s: string, sep: string, start: nat): (parts: seq<string>)
    requires |sep| > 0 && start <= |s|
    ensures |parts| >= 1
    decreases |s| - start
  {
    match FindFrom(s, sep, start)
    case None => [s[start..]]
    case Some(i) => [s[start..i]] + SplitFrom(s, sep, i + |sep|)
  }

  /** `s.split(sep)` for a non-empty separator (Python raises ValueError on an
      empty one). */
  function Split(s: string, sep: string): (parts: seq<string>)
    requires |sep| > 0
    ensures |parts| >= 1
  {
    SplitFrom(s, sep, 0)
  }

  /** A slice holds no separator when none starts in it at all. */
  lemma SliceIsFree(s: string, sep: string, lo: nat, hi: nat)
    requires lo <= hi <= |s|
    requires forall j :: lo <= j && j + |sep| <= hi ==> !OccursAt(s, sep, j)
    ensures !Contains(s[lo..hi], sep)
  {
    forall j | 0 <= j <= hi - lo && OccursAt(s[lo..hi], sep, j) ensures false {
      OccursInSlice(s, lo, hi, sep, j);
    }
  }

  /** A suffix holds no separator when none starts in it. */
  lemma SuffixIsFree(s: string, sep: string, lo: nat)
    requires lo <= |s|
    requires forall j :: lo <= j ==> !OccursAt(s, sep, j)
    ensures !Contains(s[lo..], sep)
  {
    var t := s[lo..];
    forall j | 0 <= j <= |t| && OccursAt(t, sep, j) ensures OccursAt(s, sep, lo + j) {
    }
  }

  /** No part of a split holds the separator. */
  lemma {:induction false} SplitPartsAreFree(s: string, sep: string, start: nat, k: nat)
    requires |sep| > 0 && start <= |s| && k < |SplitFrom(s, sep, start)|
    ensures !Contains(SplitFrom(s, sep, start)[k], sep)
    decreases |s| - start
  {
    FindFromIsFirst(s, sep, start);
    match FindFrom(s, sep, start)
    case None =>
      SliceIsFree(s, sep, start, |s|);
      assert s[start..] == s[start..|s|];
    case Some(i) =>
      if k == 0 {
        SliceIsFree(s, sep, start, i);
      } else {
        SplitPartsAreFree(s, sep, i + |sep|, k - 1);
      }
  }

  /** `sep.join(parts)`. */
  function Join(parts: seq<string>, sep: string): string
  {
    if |parts| == 0 then ""
    else if |parts| == 1 then parts[0]
    else parts[0] + sep + Join(parts[1..], sep)
  }

  /** Joining a list of two or more parts puts the separator after the first. */
  lemma JoinCons(a: string, tail: seq<string>, sep: string)
    requires |tail| >= 1
    ensures Join([a] + tail, sep) == a + sep + Join(tail, sep)
  {
  }

  /** A tail of a string is the text up to an occurrence, the separator and the rest. */
  lemma Splice(s: string, sep: string, start: nat, i: nat)
    requires start <= i && OccursAt(s, sep, i)
    ensures s[start..] == s[start..i] + sep + s[i + |sep|..]
  {
  }

  /** Joining the parts of a split with the same separator gives back the text. */
  lemma {:induction false} JoinSplitFrom(s: string, sep: string, start: nat)
    requires |sep| > 0 && start <= |s|
    ensures Join(SplitFrom(s, sep, start), sep) == s[start..]
    decreases |s| - start
  {
    match FindFrom(s, sep, start)
    case None =>
    case Some(i) =>
      JoinSplitFrom(s, sep, i + |sep|);
      JoinCons(s[start..i], SplitFrom(s, sep, i + |sep|), sep);
      Splice(s, sep, start, i);
  }

  /** `sep.join(s.split(sep)) == s`. */
  lemma JoinSplit(s: string, sep: string)
    requires |sep| > 0
    ensures Join(Split(s, sep), sep) == s
  {
    JoinSplitFrom(s, sep, 0);
  }

  /** `s.split(sep)[-1]`. */
  function LastPart(s: string, sep: string): string
    requires |sep| > 0
  {
    var parts := Split(s, sep);
    parts[|parts| - 1]
  }

  /** Where the last part of the split of `s[start..]` begins. */
  function LastStart(s: string, sep: string, start: nat): nat
    requires |sep| > 0 && start <= |s|
    decreases |s| - start
  {
    match FindFrom(s, sep, start)
    case None => start
    case Some(i) => LastStart(s, sep, i + |sep|)
  }

  /** The last part of the split of `s[start..]` begins at `LastStart`. */
  lemma {:induction false} LastOfSplitFrom(s: string, sep: string, start: nat)
    requires |sep| > 0 && start <= |s|
    ensures start <= LastStart(s, sep, start) <= |s|
    ensures var parts := SplitFrom(s, sep, start);
            parts[|parts| - 1] == s[LastStart(s, sep, start)..]
    decreases |s| - start
  {
    match FindFrom(s, sep, start)
    case None =>
    case Some(i) =>
      var next := i + |sep|;
      LastOfSplitFrom(s, sep, next);
      var tail := SplitFrom(s, sep, next);
      assert SplitFrom(s, sep, start) == [s[start..i]] + tail;
  }

  /** No separator starts at or after `LastStart`; it is `start` exactly when
      there is no separator at all, and otherwise right after one. */
  lemma {:induction false} LastStartFacts(s: string, sep: string, start: nat)
    requires |sep| > 0 && start <= |s|
    ensures forall j :: LastStart(s, sep, start) <= j ==> !OccursAt(s, sep, j)
    ensures FindFrom(s, sep, start).None? ==> LastStart(s, sep, start) == start
    ensures FindFrom(s, sep, start).Some? ==>
              && LastStart(s, sep, start) >= start + |sep|
              && OccursAt(s, sep, LastStart(s, sep, start) - |sep|)
    decreases |s| - start
  {
    match FindFrom(s, sep, start)
    case None =>
      FindFromIsFirst(s, sep, start);
    case Some(i) =>
      var next := i + |sep|;
      LastStartFacts(s, sep, next);
      LastOfSplitFrom(s, sep, next);
  }

  /** `r` is a separator-free suffix of `s` that is either all of `s` (when `s`
      holds no separator) or immediately preceded by a separator. */
  predicate IsLastSegment(s: string, sep: string, r: string)
  {
    && |r| <= |s|
    && s[|s| - |r|..] == r
    && !Contains(r, sep)
    && (Contains(s, sep) ==> OccursAt(s, sep, |s| - |r| - |sep|))
    && (!Contains(s, sep) ==> r == s)
  }

  /** `find` finds nothing exactly when the separator does not occur. */
  lemma FindNoneIffAbsent(s: string, sep: string)
    requires |sep| > 0
    ensures FindFrom(s, sep, 0).None? <==> !Contains(s, sep)
  {
    FindFromIsFirst(s, sep, 0);
    if FindFrom(s, sep, 0).Some? {
      assert OccursAt(s, sep, FindFrom(s, sep, 0).value);
    }
  }

  /** The last part is the free text after `LastStart`. */
  lemma LastPartIsTail(s: string, sep: string)
    requires |sep| > 0
    ensures LastStart(s, sep, 0) <= |s|
    ensures LastPart(s, sep) == s[LastStart(s, sep, 0)..]
    ensures !Contains(LastPart(s, sep), sep)
  {
    var n := LastStart(s, sep, 0);
    LastOfSplitFrom(s, sep, 0);
    LastStartFacts(s, sep, 0);
    SuffixIsFree(s, sep, n);
  }

  /** With exactly one separator, at `p`, the last part is the text after it. */
  lemma LastPartAfterOnly(s: string, sep: string, p: nat)
    requires |sep| > 0 && OccursAt(s, sep, p)
    requires forall j :: 0 <= j < p ==> !OccursAt(s, sep, j)
    requires forall j :: p + |sep| <= j ==> !OccursAt(s, sep, j)
    ensures LastPart(s, sep) == s[p + |sep|..]
  {
    FindFromSkips(s, sep, 0, p);
    FindFromSkips(s, sep, p + |sep|, |s|);
    assert LastStart(s, sep, 0) == p + |sep|;
    LastOfSplitFrom(s, sep, 0);
  }

  /** The last part of a split is such a segment. */
  lemma LastPartIsLastSegment(s: string, sep: string)
    requires |sep| > 0
    ensures IsLastSegment(s, sep, LastPart(s, sep))
  {
    LastPartIsTail(s, sep);
    FindNoneIffAbsent(s, sep);
    LastStartFacts(s, sep, 0);
  }
}
