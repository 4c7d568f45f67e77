/**
 * The Python `str` operations the chunkizer relies on, on `string`
 * (a sequence of characters):
 *  - `s.strip()`   -- Strip, with whitespace restricted to the ASCII
 *                     characters Python's `str.isspace` accepts
 *                     (StripKeepsMiddle, StripEmptyIff);
 *  - `s.split(sep)` -- Split, for a non-empty separator; the cuts fall at
 *                     leftmost occurrences (SplitLeftmost).
 * Join models `sep.join(parts)`, which the chunkizer never calls; it is
 * here only to state that Split loses nothing (SplitJoin).
 */
module Text {

  datatype Option<T> = None | Some(value: T)

  // ---------------------------------------------------------------------------
  // Whitespace and strip()
  // ---------------------------------------------------------------------------

  /** ASCII characters for which Python's `str.isspace()` holds. */
  predicate IsSpace(c: char) {
    c == ' ' || c == '\t' || c == '\n' || c == '\r' ||
    c == '\U{000B}' || c == '\U{000C}' ||
    ('\U{001C}' <= c <= '\U{001F}')
  }

  predicate AllSpace(s: string) {
    forall i :: 0 <= i < |s| ==> IsSpace(s[i])
  }

  /** Neither the first nor the last character is whitespace. */
  predicate NoEdgeSpace(s: string) {
    s == [] || (!IsSpace(s[0]) && !IsSpace(s[|s| - 1]))
  }

  /** The index of the first character at or after `i` that is not whitespace, or |s|. */
  function SkipSpace(s: string, i: nat): (k: nat)
    requires i <= |s|
    decreases |s| - i
    ensures i <= k <= |s|
    ensures k == |s| || !IsSpace(s[k])
  {
    if i < |s| && IsSpace(s[i]) then SkipSpace(s, i + 1) else i
  }

  /** The index just after the last character of s[lo..j] that is not whitespace, or `lo`. */
  function SkipSpaceBack(s: string, lo: nat, j: nat): (k: nat)
    requires lo <= j <= |s|
    decreases j
    ensures lo <= k <= j
    ensures k == lo || !IsSpace(s[k - 1])
  {
    if lo < j && IsSpace(s[j - 1]) then SkipSpaceBack(s, lo, j - 1) else j
  }

  /** `s.strip()`: the text between the leading and the trailing whitespace. */
  function Strip(s: string): (r: string)
    ensures NoEdgeSpace(r)
    ensures NoEdgeSpace(s) ==> r == s
  {
    var lo := SkipSpace(s, 0);
    var hi := SkipSpaceBack(s, lo, |s|);
    assert NoEdgeSpace(s) ==> lo == 0 && hi == |s|;
    s[lo..hi]
  }

  /** What SkipSpace skips is whitespace. */
  lemma {:induction false} SkipSpaceSkipsSpace(s: string, i: nat)
    requires i <= |s|
    decreases |s| - i
    ensures forall k :: i <= k < SkipSpace(s, i) ==> IsSpace(s[k])
  {
    if i < |s| && IsSpace(s[i]) {
      SkipSpaceSkipsSpace(s, i + 1);
    }
  }

  /** What SkipSpaceBack skips is whitespace. */
  lemma {:induction false} SkipSpaceBackSkipsSpace(s: string, lo: nat, j: nat)
    requires lo <= j <= |s|
    decreases j
    ensures forall k :: SkipSpaceBack(s, lo, j) <= k < j ==> IsSpace(s[k])
  {
    if lo < j && IsSpace(s[j - 1]) {
      SkipSpaceBackSkipsSpace(s, lo, j - 1);
    }
  }

  /**
   * Strip removes whitespace only, and only at the two ends: the result is
   * a slice of the input with nothing but whitespace on either side.
   */
  lemma {:induction false} StripKeepsMiddle(s: string)
    ensures exists i, j :: 0 <= i <= j <= |s| && Strip(s) == s[i..j] &&
                           AllSpace(s[..i]) && AllSpace(s[j..])
  {
    var i := SkipSpace(s, 0);
    var j := SkipSpaceBack(s, i, |s|);
    SkipSpaceSkipsSpace(s, 0);
    SkipSpaceBackSkipsSpace(s, i, |s|);
    assert forall k :: 0 <= k < i ==> s[..i][k] == s[k];
    assert forall k :: 0 <= k < |s| - j ==> s[j..][k] == s[j + k];
    assert Strip(s) == s[i..j];
  }

  /** Strip yields the empty string exactly for all-whitespace input. */
  lemma {:induction false} StripEmptyIff(s: string)
    ensures Strip(s) == "" <==> AllSpace(s)
  {
    var lo := SkipSpace(s, 0);
    var hi := SkipSpaceBack(s, lo, |s|);
    assert Strip(s) == s[lo..hi];
    if AllSpace(s) {
      assert lo == |s|;
    }
    if lo == hi {
      SkipSpaceSkipsSpace(s, 0);
      SkipSpaceBackSkipsSpace(s, lo, |s|);
    }
  }

  // ---------------------------------------------------------------------------
  // split() and join()
  // ---------------------------------------------------------------------------

  /** `sep` occurs in `s` starting at index `k`. */
  predicate OccursAt(s: string, sep: string, k: nat) {
    k + |sep| <= |s| && s[k..k + |sep|] == sep
  }

  ghost predicate Contains(s: string, sep: string) {
    exists k: nat :: OccursAt(s, sep, k)
  }

  /** `s.find(sep, from)`: the first occurrence of `sep` at or after `from`. */
  function Find(s: string, sep: string, from: nat): (r: Option<nat>)
    requires from <= |s|
    decreases |s| - from
    ensures r.Some? ==> from <= r.value && OccursAt(s, sep, r.value)
    ensures r.Some? ==> forall k: nat :: from <= k < r.value ==> !OccursAt(s, sep, k)
    ensures r.None? ==> forall k: nat :: from <= k ==> !OccursAt(s, sep, k)
  {
    if from + |sep| > |s| then None
    else if s[from..from + |sep|] == sep then Some(from)
    else Find(s, sep, from + 1)
  }

  /** `sep.join(parts)`. */
  function Join(parts: seq<string>, sep: string): string
    decreases |parts|
  {
    if |parts| == 0 then ""
    else if |parts| == 1 then parts[0]
    else parts[0] + sep + Join(parts[1..], sep)
  }

  /**
   * `s.split(sep)` for a non-empty separator: cut at every occurrence of
   * `sep`, scanning left to right without overlap. There is always at
   * least one segment.
   */
  function Split(s: string, sep: string): (r: seq<string>)
    requires sep != []
    decreases |s|
    ensures |r| >= 1
  {
    match Find(s, sep, 0)
    case None => [s]
    case Some(k) => [s[..k]] + Split(s[k + |sep|..], sep)
  }

  /** No segment contains the separator, and joining the segments with it gives the input back. */
  lemma {:induction false} SplitJoin(s: string, sep: string)
    requires sep != []
    decreases |s|
    ensures forall i :: 0 <= i < |Split(s, sep)| ==> !Contains(Split(s, sep)[i], sep)
    ensures Join(Split(s, sep), sep) == s
  {
    match Find(s, sep, 0)
    case None =>
    case Some(k) =>
      var rest := Split(s[k + |sep|..], sep);
      SplitJoin(s[k + |sep|..], sep);
      PrefixBeforeFirstOccurrence(s, sep, k);
      assert Split(s, sep) == [s[..k]] + rest;
      assert s == s[..k] + sep + s[k + |sep|..];
  }

  /**
   * The cuts fall at leftmost occurrences: no segment but the last, followed
   * by all but the last character of `sep`, contains `sep`. With SplitJoin
   * this fixes the segments of an overlapping separator, as Python does.
   */
  lemma {:induction false} SplitLeftmost(s: string, sep: string)
    requires sep != []
    decreases |s|
    ensures forall i :: 0 <= i < |Split(s, sep)| - 1 ==> !Contains(Split(s, sep)[i] + sep[..|sep| - 1], sep)
  {
    match Find(s, sep, 0)
    case None =>
    case Some(k) =>
      var rest := Split(s[k + |sep|..], sep);
      SplitLeftmost(s[k + |sep|..], sep);
      NoEarlierOccurrence(s, sep, k);
      assert Split(s, sep) == [s[..k]] + rest;
      forall i | 0 <= i < |Split(s, sep)| - 1
        ensures !Contains(Split(s, sep)[i] + sep[..|sep| - 1], sep)
      {
        if i > 0 {
          assert Split(s, sep)[i] == rest[i - 1];
        }
      }
  }

  /** Before the first occurrence at `k`, even the text running into `sep` holds no occurrence. */
  lemma {:induction false} NoEarlierOccurrence(s: string, sep: string, k: nat)
    requires sep != [] && OccursAt(s, sep, k)
    requires forall j: nat :: j < k ==> !OccursAt(s, sep, j)
    ensures !Contains(s[..k] + sep[..|sep| - 1], sep)
  {
    var t := s[..k] + sep[..|sep| - 1];
    assert t == s[..k + |sep| - 1] by {
      assert s[k..k + |sep|] == sep;
      forall m | 0 <= m < |t|
        ensures t[m] == s[m]
      {
        if m >= k {
          assert t[m] == sep[m - k] == s[k..k + |sep|][m - k];
        }
      }
    }
    forall j: nat | OccursAt(t, sep, j)
      ensures false
    {
      assert t[j..j + |sep|] == s[j..j + |sep|];
      assert OccursAt(s, sep, j);
    }
  }

  /** The text before the first occurrence of `sep` does not contain it. */
  lemma {:induction false} PrefixBeforeFirstOccurrence(s: string, sep: string, k: nat)
    requires sep != [] && k <= |s|
    requires forall j: nat :: j < k ==> !OccursAt(s, sep, j)
    ensures !Contains(s[..k], sep)
  {
    forall j: nat | OccursAt(s[..k], sep, j)
      ensures false
    {
      assert s[..k][j..j + |sep|] == s[j..j + |sep|];
      assert OccursAt(s, sep, j);
    }
  }

  /**
   * When no character of `a` can start the separator, the first cut of
   * `a + sep + rest` falls right after `a`.
   */
  lemma {:induction false} SplitAfterLeading(a: string, sep: string, rest: string)
    requires sep != []
    requires forall i :: 0 <= i < |a| ==> a[i] != sep[0]
    ensures Split(a + sep + rest, sep) == [a] + Split(rest, sep)
  {
    var s := a + sep + rest;
    assert OccursAt(s, sep, |a|) by {
      assert s[|a|..|a| + |sep|] == sep;
    }
    forall k: nat | k < |a|
      ensures !OccursAt(s, sep, k)
    {
      assert s[k] == a[k];
    }
    var f := Find(s, sep, 0);
    assert f == Some(|a|);
    assert s[..|a|] == a;
    assert s[|a| + |sep|..] == rest;
  }
}
