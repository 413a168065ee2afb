/**
 * Replacing every occurrence of a literal text, one occurrence at a time:
 * the k-th replaced occurrence gets the replacement `reps(index + k)`.
 * Nothing here depends on what the replacements look like, only on the
 * fact that an occurrence can neither lie inside one nor straddle its ends.
 */
module Rewrite {
  import opened Wrappers
  import opened Strings

  /** A replacement that holds no occurrence of `t` and whose two end characters never appear in `t`. */
  predicate Sealed(rep: string, t: string) {
    |rep| > 0 && rep[0] !in t && rep[|rep| - 1] !in t && !Contains(rep, t)
  }

  /**
   * The tokenized reading: the text is cut at the leftmost,
   * non-overlapping occurrences of `t`, and the k-th one becomes
   * `reps(index + k)`.
   */
  function Spliced(h: string, t: string, reps: nat -> string, index: nat): string
    requires |t| > 0
    decreases |h|
  {
    match IndexOf(h, t)
    case None => h
    case Some(k) => h[..k] + reps(index) + Spliced(h[k + |t|..], t, reps, index + 1)
  }

  /** The spliced text, cut at the leftmost occurrence. */
  lemma SplicedFirst(h: string, t: string, reps: nat -> string, index: nat, k: nat)
    requires |t| > 0 && IndexOf(h, t) == Some(k)
    ensures Spliced(h, t, reps, index) == h[..k] + reps(index) + Spliced(h[k + |t|..], t, reps, index + 1)
  {
  }

  /** With sealed replacements, no occurrence is left behind. */
  lemma {:induction false} SplicedClears(h: string, t: string, reps: nat -> string, index: nat)
    requires |t| > 0 && forall i :: Sealed(reps(i), t)
    ensures !Contains(Spliced(h, t, reps, index), t)
    decreases |h|
  {
    match IndexOf(h, t)
    case None =>
    case Some(k) =>
      var rest := Spliced(h[k + |t|..], t, reps, index + 1);
      SplicedFirst(h, t, reps, index, k);
      SplicedClears(h[k + |t|..], t, reps, index + 1);
      assert Sealed(reps(index), t);
      PrefixBeforeFree(h, t, k);
      ConcatFree(h[..k], reps(index), t);
      ConcatFree(h[..k] + reps(index), rest, t);
  }

  /** Where the loop ended: the final text and the next counter value. */
  datatype Run = Run(text: string, next: nat)

  /**
   * The replacement loop on the text alone: while `t` occurs, replace its
   * leftmost occurrence by the group for the current counter and move the
   * counter on. `None` means the fuel ran out first.
   */
  function TextLoop(h: string, t: string, reps: nat -> string, index: nat, fuel: nat): (r: Option<Run>)
    ensures r.Some? ==> index <= r.value.next && !Contains(r.value.text, t)
    decreases fuel
  {
    if !Contains(h, t) then Some(Run(h, index))
    else if fuel == 0 then None
    else TextLoop(ReplaceFirst(h, t, reps(index)), t, reps, index + 1, fuel - 1)
  }

  /** The processed prefix grows by the text before the occurrence and a sealed group, and stays free of `t`. */
  lemma PrefixGrowsFree(p: string, h: string, k: nat, t: string, rep: string)
    requires |t| > 0 && Sealed(rep, t)
    requires !Contains(p, t) && (|p| == 0 || p[|p| - 1] !in t)
    requires IndexOf(h, t) == Some(k)
    ensures var p' := p + h[..k] + rep;
      !Contains(p', t) && p'[|p'| - 1] !in t
  {
    PrefixBeforeFree(h, t, k);
    ConcatFree(p, h[..k], t);
    ConcatFree(p + h[..k], rep, t);
  }

  /** One turn of the loop while `t` still occurs; `next` and `left` are the counter and the fuel after it. */
  lemma TextLoopTurn(h: string, h': string, t: string, reps: nat -> string, index: nat, fuel: nat, next: nat, left: nat)
    requires Contains(h, t) && fuel == left + 1 && next == index + 1
    requires ReplaceFirst(h, t, reps(index)) == h'
    ensures TextLoop(h, t, reps, index, fuel) == TextLoop(h', t, reps, next, left)
  {
  }

  /** The spliced text behind a prefix, cut at the leftmost occurrence; `next` is the counter after it. */
  lemma SplicedAfterPrefix(p: string, h: string, t: string, reps: nat -> string, index: nat, k: nat, next: nat)
    requires |t| > 0 && IndexOf(h, t) == Some(k) && next == index + 1
    ensures p + Spliced(h, t, reps, index) == p + h[..k] + reps(index) + Spliced(h[k + |t|..], t, reps, next)
  {
    SplicedFirst(h, t, reps, index, k);
    Regroup(p, h[..k], reps(index), Spliced(h[k + |t|..], t, reps, next));
  }

  /**
   * The loop resumed after an already-processed prefix ends with the
   * spliced rest, one pass (and one counter value) per occurrence.
   */
  lemma {:induction false} TextLoopAfterPrefix(p: string, h: string, t: string, reps: nat -> string, index: nat, fuel: nat)
    requires |t| > 0 && forall i :: Sealed(reps(i), t)
    requires !Contains(p, t) && (|p| == 0 || p[|p| - 1] !in t)
    requires fuel >= Count(h, t)
    ensures TextLoop(p + h, t, reps, index, fuel).Some?
    ensures TextLoop(p + h, t, reps, index, fuel).value.text == p + Spliced(h, t, reps, index)
    ensures TextLoop(p + h, t, reps, index, fuel).value.next == index + Count(h, t)
    decreases |h|, 1
  {
    match IndexOf(h, t)
    case None =>
      ConcatFree(p, h, t);
    case Some(k) =>
      TextLoopAfterPrefixAt(p, h, t, reps, index, fuel, k);
  }

  /** The same, when the leftmost occurrence in the rest is at `k`. */
  lemma {:induction false} TextLoopAfterPrefixAt(p: string, h: string, t: string, reps: nat -> string, index: nat, fuel: nat, k: nat)
    requires |t| > 0 && forall i :: Sealed(reps(i), t)
    requires !Contains(p, t) && (|p| == 0 || p[|p| - 1] !in t)
    requires fuel >= Count(h, t)
    requires IndexOf(h, t) == Some(k)
    ensures TextLoop(p + h, t, reps, index, fuel).Some?
    ensures TextLoop(p + h, t, reps, index, fuel).value.text == p + Spliced(h, t, reps, index)
    ensures TextLoop(p + h, t, reps, index, fuel).value.next == index + Count(h, t)
    decreases |h|, 0
  {
    var rep := reps(index);
    var p' := p + h[..k] + rep;
    var rest := h[k + |t|..];
    var next, left := index + 1, fuel - 1;
    assert Sealed(rep, t);
    CountAfterFirst(h, t, k);
    IndexOfAfter(p, h, t);
    ReplaceFirstAfterAt(p, h, t, rep, k);
    PrefixGrowsFree(p, h, k, t, rep);
    TextLoopTurn(p + h, p' + rest, t, reps, index, fuel, next, left);
    TextLoopAfterPrefix(p', rest, t, reps, next, left);
    SplicedAfterPrefix(p, h, t, reps, index, k, next);
  }

  /** From the start, with sealed groups and enough fuel, the loop ends with the spliced text, one pass per occurrence. */
  lemma TextLoopRuns(h: string, t: string, reps: nat -> string, index: nat, fuel: nat)
    requires |t| > 0 && forall i :: Sealed(reps(i), t)
    requires fuel >= Count(h, t)
    ensures TextLoop(h, t, reps, index, fuel).Some?
    ensures TextLoop(h, t, reps, index, fuel).value.text == Spliced(h, t, reps, index)
    ensures TextLoop(h, t, reps, index, fuel).value.next == index + Count(h, t)
  {
    var e: string := [];
    assert e + h == h;
    assert e + Spliced(h, t, reps, index) == Spliced(h, t, reps, index);
    assert !Contains(e, t);
    TextLoopAfterPrefix(e, h, t, reps, index, fuel);
  }
}
