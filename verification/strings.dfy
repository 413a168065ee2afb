/**
 * Literal substring search and replacement, as done by Rust's `str::matches`,
 * `str::replacen(pat, to, 1)` and friends: occurrences are found leftmost
 * first and never overlap.
 */
module Strings {
  import opened Wrappers

  /** `t` occurs in `s` starting at position `k`. */
  predicate OccursAt(s: string, t: string, k: int) {
    0 <= k && k + |t| <= |s| && s[k..k + |t|] == t
  }

  /** `t` occurs somewhere in `s` (`s.matches(t).count() > 0`). */
  predicate Contains(s: string, t: string) {
    exists k | 0 <= k <= |s| - |t| :: OccursAt(s, t, k)
  }

  /** No position of `s` before `k` starts an occurrence of `t`. */
  predicate NoneBefore(s: string, t: string, k: int) {
    forall j :: 0 <= j < k ==> !OccursAt(s, t, j)
  }

  lemma OccursAtTail(s: string, t: string, j: int)
    requires 1 <= j && 1 <= |s|
    ensures OccursAt(s, t, j) <==> OccursAt(s[1..], t, j - 1)
  {
    if j + |t| <= |s| {
      assert s[1..][j - 1..j - 1 + |t|] == s[j..j + |t|];
    }
  }

  /** Position of the leftmost occurrence of `t` in `s` at or after `i`. */
  function IndexFrom(s: string, t: string, i: nat): (r: Option<nat>)
    ensures r.Some? ==> i <= r.value && OccursAt(s, t, r.value) && forall j :: i <= j < r.value ==> !OccursAt(s, t, j)
    ensures r.None? ==> forall j :: i <= j ==> !OccursAt(s, t, j)
    decreases |s| - i
  {
    if i + |t| > |s| then None
    else if OccursAt(s, t, i) then Some(i)
    else IndexFrom(s, t, i + 1)
  }

  /** Position of the leftmost occurrence of `t` in `s` (`s.find(t)`). */
  function IndexOf(s: string, t: string): (r: Option<nat>)
    ensures r.Some? ==> OccursAt(s, t, r.value) && NoneBefore(s, t, r.value)
    ensures r.None? <==> !Contains(s, t)
  {
    IndexFrom(s, t, 0)
  }

  /** The leftmost occurrence is the unique one with no occurrence before it. */
  lemma IndexOfIs(s: string, t: string, k: nat)
    requires OccursAt(s, t, k) && NoneBefore(s, t, k)
    ensures IndexOf(s, t) == Some(k)
  {
    assert Contains(s, t);
  }

  /** `s.replacen(t, rep, 1)`: the leftmost occurrence of `t` becomes `rep`. */
  function ReplaceFirst(s: string, t: string, rep: string): string
    decreases |s|
  {
    if |s| < |t| then s
    else if s[..|t|] == t then rep + s[|t|..]
    else [s[0]] + ReplaceFirst(s[1..], t, rep)
  }

  /** Replacing in a text that does not start with `t` keeps its first character. */
  lemma ReplaceFirstStep(s: string, t: string, rep: string)
    requires |s| > 0 && !OccursAt(s, t, 0)
    ensures ReplaceFirst(s, t, rep) == [s[0]] + ReplaceFirst(s[1..], t, rep)
  {
    if |s| >= |t| {
      assert s[..|t|] == s[0..|t|];
    }
  }

  /** When `s` does not start with `t`, its leftmost occurrence is one past that of `s[1..]`. */
  lemma IndexOfTail(s: string, t: string)
    requires |s| > 0 && !OccursAt(s, t, 0)
    ensures IndexOf(s[1..], t).None? ==> IndexOf(s, t).None?
    ensures IndexOf(s[1..], t).Some? ==> IndexOf(s, t) == Some(IndexOf(s[1..], t).value + 1)
  {
    match IndexOf(s[1..], t)
    case None =>
      forall j | 1 <= j <= |s| - |t| ensures !OccursAt(s, t, j) {
        OccursAtTail(s, t, j);
      }
      assert !Contains(s, t);
    case Some(k) =>
      OccursAtTail(s, t, k + 1);
      forall j | 1 <= j < k + 1 ensures !OccursAt(s, t, j) {
        OccursAtTail(s, t, j);
      }
      IndexOfIs(s, t, k + 1);
  }

  /** Dropping the first character of a text free of `t` keeps it free, and keeps its last character. */
  lemma TailFree(p: string, t: string)
    requires |p| > 0 && !Contains(p, t)
    ensures !Contains(p[1..], t)
    ensures |p| > 1 ==> p[1..][|p[1..]| - 1] == p[|p| - 1]
  {
    forall k | 0 <= k <= |p| - 1 - |t| ensures !OccursAt(p[1..], t, k) {
      OccursAtTail(p, t, k + 1);
    }
  }

  /** Putting a character back in front of a text cut at `k - 1` and `k - 1 + n`. */
  lemma SpliceCons(s: string, rep: string, k: nat, n: nat)
    requires 0 < k && k + n <= |s|
    ensures [s[0]] + (s[1..][..k - 1] + rep + s[1..][k - 1 + n..]) == s[..k] + rep + s[k + n..]
  {
    assert s[..k] == [s[0]] + s[1..][..k - 1];
    assert s[k + n..] == s[1..][k - 1 + n..];
  }

  /** Without an occurrence there is nothing to replace. */
  lemma {:induction false} ReplaceFirstAbsent(s: string, t: string, rep: string)
    requires !Contains(s, t)
    ensures ReplaceFirst(s, t, rep) == s
    decreases |s|
  {
    if |s| >= |t| {
      assert !OccursAt(s, t, 0);
      ReplaceFirstStep(s, t, rep);
      TailFree(s, t);
      ReplaceFirstAbsent(s[1..], t, rep);
      assert [s[0]] + s[1..] == s;
    }
  }

  /** The leftmost occurrence, at `k`, is the one replaced. */
  lemma {:induction false} ReplaceFirstAt(s: string, t: string, rep: string, k: nat)
    requires IndexOf(s, t) == Some(k)
    ensures ReplaceFirst(s, t, rep) == s[..k] + rep + s[k + |t|..]
    decreases k
  {
    if k == 0 {
      assert s[..|t|] == s[0..|t|];
      assert s[..0] + rep == rep;
    } else {
      assert !OccursAt(s, t, 0);
      ReplaceFirstStep(s, t, rep);
      IndexOfTail(s, t);
      ReplaceFirstAt(s[1..], t, rep, k - 1);
      SpliceCons(s, rep, k, |t|);
    }
  }

  /** The replaced text is the text cut around the leftmost occurrence, with `rep` spliced in. */
  lemma ReplaceFirstSplices(s: string, t: string, rep: string)
    ensures IndexOf(s, t).None? ==> ReplaceFirst(s, t, rep) == s
    ensures IndexOf(s, t).Some? ==> var k := IndexOf(s, t).value;
      ReplaceFirst(s, t, rep) == s[..k] + rep + s[k + |t|..]
  {
    match IndexOf(s, t)
    case None => ReplaceFirstAbsent(s, t, rep);
    case Some(k) => ReplaceFirstAt(s, t, rep, k);
  }

  /** Number of leftmost, non-overlapping occurrences of a non-empty `t` in `s`. */
  function Count(s: string, t: string): nat
    requires |t| > 0
    decreases |s|
  {
    match IndexOf(s, t)
    case None => 0
    case Some(k) => 1 + Count(s[k + |t|..], t)
  }

  lemma Regroup(a: string, b: string, c: string, d: string)
    ensures a + (b + c + d) == a + b + c + d
  {
  }

  /** Replacing in a text behind a prefix that cannot take part in an occurrence leaves the prefix alone. */
  lemma {:induction false} ReplaceFirstAfter(p: string, r: string, t: string, rep: string)
    requires |t| > 0 && !Contains(p, t) && (|p| == 0 || p[|p| - 1] !in t)
    ensures ReplaceFirst(p + r, t, rep) == p + ReplaceFirst(r, t, rep)
    decreases |p|
  {
    if |p| == 0 {
      assert p + r == r;
    } else {
      StartsInPrefix(p, r, t, 0);
      ReplaceFirstStep(p + r, t, rep);
      TailFree(p, t);
      assert (p + r)[1..] == p[1..] + r;
      ReplaceFirstAfter(p[1..], r, t, rep);
      assert p + ReplaceFirst(r, t, rep) == [p[0]] + (p[1..] + ReplaceFirst(r, t, rep));
    }
  }

  /** The same, with the leftmost occurrence of the rest spelled out. */
  lemma ReplaceFirstAfterAt(p: string, r: string, t: string, rep: string, k: nat)
    requires |t| > 0 && !Contains(p, t) && (|p| == 0 || p[|p| - 1] !in t)
    requires IndexOf(r, t) == Some(k)
    ensures ReplaceFirst(p + r, t, rep) == p + r[..k] + rep + r[k + |t|..]
  {
    ReplaceFirstAfter(p, r, t, rep);
    ReplaceFirstSplices(r, t, rep);
    Regroup(p, r[..k], rep, r[k + |t|..]);
  }

  /** Counting past the leftmost occurrence. */
  lemma CountAfterFirst(s: string, t: string, k: nat)
    requires |t| > 0 && IndexOf(s, t) == Some(k)
    ensures Count(s, t) == 1 + Count(s[k + |t|..], t)
  {
  }

  /**
   * Two texts glued together: nothing straddles the seam when one of the two
   * characters beside the seam never appears in `t`.
   */
  predicate Seam(a: string, b: string, t: string) {
    |a| == 0 || |b| == 0 || a[|a| - 1] !in t || b[0] !in t
  }

  lemma {:induction false} ConcatFree(a: string, b: string, t: string)
    requires |t| > 0 && !Contains(a, t) && !Contains(b, t) && Seam(a, b, t)
    ensures !Contains(a + b, t)
  {
    var s := a + b;
    forall k | 0 <= k <= |s| - |t| ensures !OccursAt(s, t, k) {
      if k + |t| <= |a| {
        assert a[k..k + |t|] == s[k..k + |t|];
        assert !OccursAt(a, t, k);
      } else if k >= |a| {
        assert b[k - |a|..k - |a| + |t|] == s[k..k + |t|];
        assert !OccursAt(b, t, k - |a|);
      } else {
        assert s[k..k + |t|][|a| - 1 - k] == a[|a| - 1];
        assert s[k..k + |t|][|a| - k] == b[0];
      }
    }
  }

  /** Occurrences of `t` in `p + r` that start inside `p` lie inside `p` or straddle the seam. */
  lemma StartsInPrefix(p: string, r: string, t: string, j: int)
    requires |t| > 0 && !Contains(p, t) && (|p| == 0 || p[|p| - 1] !in t)
    requires 0 <= j < |p|
    ensures !OccursAt(p + r, t, j)
  {
    var s := p + r;
    if j + |t| <= |p| {
      assert p[j..j + |t|] == s[j..j + |t|];
      assert !OccursAt(p, t, j);
    } else if j + |t| <= |s| {
      assert s[j..j + |t|][|p| - 1 - j] == p[|p| - 1];
    }
  }

  /** Occurrences of `t` in `p + r` that start after `p` are occurrences in `r`. */
  lemma StartsInRest(p: string, r: string, t: string, j: int)
    requires |p| <= j
    ensures OccursAt(p + r, t, j) <==> OccursAt(r, t, j - |p|)
  {
    if j + |t| <= |p| + |r| {
      assert (p + r)[j..j + |t|] == r[j - |p|..j - |p| + |t|];
    }
  }

  /** Positions in `p + r` before `|p| + k` start no occurrence when none in `r` does before `k`. */
  lemma NoneBeforeAfter(p: string, r: string, t: string, k: nat)
    requires |t| > 0 && !Contains(p, t) && (|p| == 0 || p[|p| - 1] !in t)
    requires NoneBefore(r, t, k)
    ensures NoneBefore(p + r, t, |p| + k)
  {
    forall j | 0 <= j < |p| + k ensures !OccursAt(p + r, t, j) {
      if j < |p| {
        StartsInPrefix(p, r, t, j);
      } else {
        StartsInRest(p, r, t, j);
      }
    }
  }

  /**
   * After a prefix free of `t` whose last character never appears in `t`,
   * the leftmost occurrence is the leftmost occurrence of the rest.
   */
  lemma IndexOfAfter(p: string, r: string, t: string)
    requires |t| > 0 && !Contains(p, t) && (|p| == 0 || p[|p| - 1] !in t)
    ensures IndexOf(r, t).None? ==> IndexOf(p + r, t).None?
    ensures IndexOf(r, t).Some? ==> IndexOf(p + r, t) == Some(|p| + IndexOf(r, t).value)
  {
    match IndexOf(r, t)
    case None =>
      NoneBeforeAfter(p, r, t, |r|);
      assert !Contains(p + r, t);
    case Some(k) =>
      IndexOfAfterAt(p, r, t, k);
  }

  /** The same, with the leftmost occurrence of the rest spelled out. */
  lemma IndexOfAfterAt(p: string, r: string, t: string, k: nat)
    requires |t| > 0 && !Contains(p, t) && (|p| == 0 || p[|p| - 1] !in t)
    requires IndexOf(r, t) == Some(k)
    ensures IndexOf(p + r, t) == Some(|p| + k)
  {
    StartsInRest(p, r, t, |p| + k);
    NoneBeforeAfter(p, r, t, k);
    IndexOfIs(p + r, t, |p| + k);
  }

  /** A text wrapped between a head lacking `t`'s first character and a closing character outside `t`. */
  lemma WrappedFree(head: string, mid: string, close: char, t: string)
    requires |t| > 0 && t[0] !in head && close !in t
    ensures Contains(head + mid + [close], t) <==> Contains(mid, t)
  {
    var s := head + mid + [close];
    if Contains(mid, t) {
      var k :| 0 <= k <= |mid| - |t| && OccursAt(mid, t, k);
      WrappedInMid(head, mid, close, t, s, |head| + k);
    }
    forall k | 0 <= k <= |s| - |t| && OccursAt(s, t, k) ensures Contains(mid, t) {
      if k < |head| {
        WrappedInHead(head, mid, close, t, s, k);
      } else if k + |t| <= |head| + |mid| {
        WrappedInMid(head, mid, close, t, s, k);
      } else {
        WrappedAtClose(head, mid, close, t, s, k);
      }
    }
  }

  /** No occurrence starts inside the head. */
  lemma WrappedInHead(head: string, mid: string, close: char, t: string, s: string, k: int)
    requires |t| > 0 && t[0] !in head && s == head + mid + [close] && 0 <= k < |head|
    ensures !OccursAt(s, t, k)
  {
    if k + |t| <= |s| {
      assert s[k..k + |t|][0] == head[k];
    }
  }

  /** An occurrence that ends before the closing character is an occurrence in the middle part. */
  lemma WrappedInMid(head: string, mid: string, close: char, t: string, s: string, k: int)
    requires s == head + mid + [close] && |head| <= k && k + |t| <= |head| + |mid|
    ensures OccursAt(s, t, k) <==> OccursAt(mid, t, k - |head|)
  {
    assert mid[k - |head|..k - |head| + |t|] == s[k..k + |t|];
  }

  /** No occurrence covers the closing character. */
  lemma WrappedAtClose(head: string, mid: string, close: char, t: string, s: string, k: int)
    requires close !in t && s == head + mid + [close] && 0 <= k <= |head| + |mid| < k + |t|
    ensures !OccursAt(s, t, k)
  {
    if k + |t| <= |s| {
      assert s[k..k + |t|][|head| + |mid| - k] == close;
    }
  }

  /** A prefix that ends before the leftmost occurrence holds no occurrence. */
  lemma PrefixBeforeFree(s: string, t: string, k: nat)
    requires |t| > 0 && k <= |s| && NoneBefore(s, t, k)
    ensures !Contains(s[..k], t)
  {
    forall j | 0 <= j <= k - |t| ensures !OccursAt(s[..k], t, j) {
      assert s[..k][j..j + |t|] == s[j..j + |t|];
      assert !OccursAt(s, t, j);
    }
  }

  /** A text made of characters that never appear in a non-empty `t` holds no occurrence. */
  lemma ForeignFree(s: string, t: string)
    requires |t| > 0 && forall i :: 0 <= i < |s| ==> s[i] !in t
    ensures !Contains(s, t)
  {
    forall k | 0 <= k <= |s| - |t| ensures !OccursAt(s, t, k) {
      assert s[k..k + |t|][0] == s[k];
    }
  }

  /** An occurrence inside the middle part is an occurrence of the whole, shifted. */
  lemma OccursInside(a: string, m: string, b: string, t: string, j: int)
    requires OccursAt(m, t, j)
    ensures OccursAt(a + m + b, t, |a| + j)
  {
    var s := a + m + b;
    forall i | 0 <= i < |t| ensures s[|a| + j + i] == t[i] {
      assert m[j..j + |t|][i] == m[j + i];
    }
    assert s[|a| + j..|a| + j + |t|] == t;
  }
}
