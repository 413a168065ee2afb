/**
 * Whole-run facts about `Grok::compile`: what a text with a single
 * placeholder compiles to, and why a registry whose every fragment holds a
 * placeholder can never produce a pattern.
 */
module CompileFacts {
  import opened Wrappers
  import opened Strings
  import opened Scanner
  import opened Extractor
  import opened Rewrite
  import opened Compiler

  /** A text without `%` holds no occurrence of a placeholder text. */
  lemma NoPercentNoOccurrence(c: string, ph: Placeholder)
    requires WellFormed(ph) && '%' !in c
    ensures !Contains(c, Text(ph))
  {
    var t := Text(ph);
    TextOnePercent(ph);
    forall k | 0 <= k <= |c| - |t| ensures !OccursAt(c, t, k) {
      assert c[k..k + |t|][0] == c[k];
    }
  }

  /** A lone placeholder between two texts without `%` is the one the scanner finds, and the leftmost occurrence of its text. */
  lemma LoneFound(p: string, c: string, ph: Placeholder)
    requires WellFormed(ph) && '%' !in p && '%' !in c
    ensures Find(p + Text(ph) + c) == Some(Found(|p|, ph, |p| + |Text(ph)|))
    ensures IndexOf(p + Text(ph) + c, Text(ph)) == Some(|p|)
  {
    var t := Text(ph);
    var s := p + t + c;
    assert s[|p|..|p| + |t|] == t;
    assert PlaceholderAt(s, |p|, ph, |p| + |t|);
    forall j, ph', e' | 0 <= j < |p| ensures !PlaceholderAt(s, j, ph', e') {
      assert s[j] == p[j];
      if PlaceholderAt(s, j, ph', e') {
        PlaceholderStartsAtPercent(s, j, ph', e');
      }
    }
    FindIs(s, |p|, ph, |p| + |t|);
    FirstReplacedIsScanned(s);
  }

  /** Replacing every copy of a lone placeholder's text replaces just that one. */
  lemma LoneReplaced(p: string, c: string, ph: Placeholder, reps: nat -> string, index: nat)
    requires WellFormed(ph) && '%' !in p && '%' !in c
    ensures Count(p + Text(ph) + c, Text(ph)) == 1
    ensures Spliced(p + Text(ph) + c, Text(ph), reps, index) == p + reps(index) + c
  {
    var t := Text(ph);
    var s := p + t + c;
    LoneFound(p, c, ph);
    NoPercentNoOccurrence(c, ph);
    assert s[..|p|] == p;
    assert s[|p| + |t|..] == c;
    SplicedFirst(s, t, reps, index, |p|);
  }

  /** The state after resolving a lone placeholder between texts without `%`: its fragment, wrapped in a group. */
  lemma LoneResolvedState(st: State, p: string, c: string, ph: Placeholder, fragment: string, aliasOnly: bool) returns (head: string)
    requires WellFormed(ph) && '%' !in p && '%' !in c && st.haystack == p + Text(ph) + c
    ensures '%' !in head
    ensures ReplaceAll(st, Text(ph), Groups(ph, fragment, aliasOnly), Entry(ph, aliasOnly)).haystack == (p + head) + fragment + ([')'] + c)
  {
    ReplaceAllText(st, Text(ph), Groups(ph, fragment, aliasOnly), Entry(ph, aliasOnly));
    head := LoneResolved(p, c, ph, fragment, aliasOnly, st.index);
  }

  /** The text after replacing every copy is the spliced text. */
  lemma ReplaceAllText(st: State, t: string, reps: nat -> string, entry: Option<AliasEntry>)
    requires |t| > 0
    ensures ReplaceAll(st, t, reps, entry).haystack == Spliced(st.haystack, t, reps, st.index)
  {
  }

  /** Resolving a lone placeholder between texts without `%` leaves its fragment, wrapped in a group head without `%` and a `)`. */
  lemma LoneResolved(p: string, c: string, ph: Placeholder, fragment: string, aliasOnly: bool, index: nat) returns (head: string)
    requires WellFormed(ph) && '%' !in p && '%' !in c
    ensures '%' !in head
    ensures Spliced(p + Text(ph) + c, Text(ph), Groups(ph, fragment, aliasOnly), index) == (p + head) + fragment + ([')'] + c)
  {
    var reps := Groups(ph, fragment, aliasOnly);
    LoneReplaced(p, c, ph, reps, index);
    head := GroupHead(ph, fragment, aliasOnly, index);
    Wrapped(p, c, reps(index), head, fragment);
  }

  /** A group between two texts, regrouped around its fragment. */
  lemma Wrapped(p: string, c: string, rep: string, head: string, fragment: string)
    requires rep == head + fragment + [')']
    ensures p + rep + c == (p + head) + fragment + ([')'] + c)
  {
    Regroup(p, head, fragment, [')']);
  }

  /** The part of a group before its fragment: it holds no `%`. */
  lemma GroupHead(ph: Placeholder, fragment: string, aliasOnly: bool, index: nat) returns (head: string)
    ensures '%' !in head && Replacement(ph, fragment, aliasOnly, index) == head + fragment + [')']
  {
    ReplacementShape(ph, fragment, aliasOnly, index);
    head :| '%' !in head && |head| > 0 && head[0] == '(' && Replacement(ph, fragment, aliasOnly, index) == head + fragment + [')'];
  }

  /** The alias map a single resolved placeholder leaves: one entry for group 0 when it captures. */
  function SingleAliases(ph: Placeholder, aliasOnly: bool): AliasMap {
    if Capturing(ph, aliasOnly) then map[GroupName(0) := EntryFor(ph)] else map[]
  }

  /** Replacing the one copy of a lone placeholder text yields its group, counter 1, and at most one alias. */
  lemma SingleReplaced(ph: Placeholder, fragment: string, aliasOnly: bool)
    requires WellFormed(ph)
    ensures ReplaceAll(Start(Text(ph)), Text(ph), Groups(ph, fragment, aliasOnly), Entry(ph, aliasOnly))
         == State(Replacement(ph, fragment, aliasOnly, 0), 1, SingleAliases(ph, aliasOnly))
  {
    var t := Text(ph);
    var e: string := [];
    var reps := Groups(ph, fragment, aliasOnly);
    assert e + t + e == t;
    LoneReplaced(e, e, ph, reps, 0);
    assert e + reps(0) + e == reps(0);
    assert NewEntries(Entry(ph, aliasOnly), 1, 1) == map[];
  }

  /** A text without `%` is finished: expanding it returns it as it is. */
  lemma NoPercentExpanded(g: Grok, st: State, aliasOnly: bool, left: nat)
    requires '%' !in st.haystack
    ensures Expand(g, st, aliasOnly, left) == Returns(Ok(st))
  {
    NoPercentNoPlaceholder(st.haystack);
  }

  /** The group of a fragment without `%` holds no `%` either. */
  lemma ReplacementNoPercent(ph: Placeholder, fragment: string, aliasOnly: bool, index: nat)
    requires '%' !in fragment
    ensures '%' !in Replacement(ph, fragment, aliasOnly, index)
  {
    var rep := Replacement(ph, fragment, aliasOnly, index);
    ReplacementShape(ph, fragment, aliasOnly, index);
    var head :| '%' !in head && |head| > 0 && head[0] == '(' && rep == head + fragment + [')'];
  }

  /** Expanding a lone placeholder whose fragment holds no `%` takes one turn and leaves its group. */
  lemma SingleExpands(g: Grok, ph: Placeholder, fragment: string, aliasOnly: bool)
    requires WellFormed(ph) && Lookup(g, ph.pattern) == Some(fragment) && '%' !in fragment
    ensures Expand(g, Start(Text(ph)), aliasOnly, MaxRecursion)
         == Returns(Ok(State(Replacement(ph, fragment, aliasOnly, 0), 1, SingleAliases(ph, aliasOnly))))
  {
    var t := Text(ph);
    var e: string := [];
    var mid := State(Replacement(ph, fragment, aliasOnly, 0), 1, SingleAliases(ph, aliasOnly));
    assert e + t + e == t;
    LoneFound(e, e, ph);
    NoPercentNoOccurrence(fragment, ph);
    ExpandTurn(g, Start(t), aliasOnly, MaxRecursion, Find(t).value, fragment);
    SingleReplaced(ph, fragment, aliasOnly);
    ReplacementNoPercent(ph, fragment, aliasOnly, 0);
    NoPercentExpanded(g, mid, aliasOnly, MaxRecursion - 1);
  }

  /** A text that is a single placeholder whose fragment holds no `%` compiles to one group. */
  lemma CompileSingle(g: Grok, ph: Placeholder, fragment: string, aliasOnly: bool, accepts: string -> bool)
    requires WellFormed(ph) && Lookup(g, ph.pattern) == Some(fragment) && '%' !in fragment
    requires accepts(Replacement(ph, fragment, aliasOnly, 0))
    ensures Compile(g, Text(ph), aliasOnly, accepts)
         == Returns(Ok(Pattern(Replacement(ph, fragment, aliasOnly, 0),
                               if Capturing(ph, aliasOnly) then map[GroupName(0) := EntryFor(ph)] else map[])))
  {
    SingleExpands(g, ph, fragment, aliasOnly);
  }

  /** A registry whose every fragment holds a placeholder. */
  ghost predicate NeverGround(g: Grok) {
    forall n :: n in g.patterns ==> HasPlaceholder(g.patterns[n])
  }

  /**
   * With such a registry, a text that holds a placeholder never compiles:
   * every resolution brings a placeholder back, so the run ends in an
   * error or never ends.
   */
  lemma {:induction false} ExpandNeverClears(g: Grok, st: State, aliasOnly: bool, left: nat)
    requires NeverGround(g) && HasPlaceholder(st.haystack)
    ensures !(Expand(g, st, aliasOnly, left).Returns? && Expand(g, st, aliasOnly, left).result.Ok?)
    decreases left, 1
  {
    var f := Find(st.haystack).value;
    if left > 0 && Lookup(g, f.ph.pattern).Some? && !Contains(Lookup(g, f.ph.pattern).value, Text(f.ph)) {
      ExpandNeverClearsTurn(g, st, aliasOnly, left, f, Lookup(g, f.ph.pattern).value);
    }
  }

  /** The same, for a turn that resolves the leftmost placeholder. */
  lemma {:induction false} ExpandNeverClearsTurn(g: Grok, st: State, aliasOnly: bool, left: nat, f: Found, fragment: string)
    requires NeverGround(g) && Find(st.haystack) == Some(f)
    requires Lookup(g, f.ph.pattern) == Some(fragment) && left > 0 && !Contains(fragment, Text(f.ph))
    ensures !(Expand(g, st, aliasOnly, left).Returns? && Expand(g, st, aliasOnly, left).result.Ok?)
    decreases left, 0
  {
    var mid := ReplaceAll(st, Text(f.ph), Groups(f.ph, fragment, aliasOnly), Entry(f.ph, aliasOnly));
    ExpandTurn(g, st, aliasOnly, left, f, fragment);
    assert Expand(g, st, aliasOnly, left) == Expand(g, mid, aliasOnly, left - 1);
    ReplaceAllKeepsPlaceholder(st, f, fragment, aliasOnly);
    ExpandNeverClears(g, mid, aliasOnly, left - 1);
  }

  /** Replacing a placeholder by a group around a fragment that holds a placeholder leaves a placeholder. */
  lemma ReplaceAllKeepsPlaceholder(st: State, f: Found, fragment: string, aliasOnly: bool)
    requires Find(st.haystack) == Some(f) && HasPlaceholder(fragment)
    ensures HasPlaceholder(ReplaceAll(st, Text(f.ph), Groups(f.ph, fragment, aliasOnly), Entry(f.ph, aliasOnly)).haystack)
  {
    var h := st.haystack;
    var t := Text(f.ph);
    var reps := Groups(f.ph, fragment, aliasOnly);
    var rep := reps(st.index);
    FirstReplacedIsScanned(h);
    SplicedFirst(h, t, reps, st.index, f.start);
    ReplacementShape(f.ph, fragment, aliasOnly, st.index);
    var head :| '%' !in head && |head| > 0 && head[0] == '(' && rep == head + fragment + [')'];
    PlaceholderInside(head, fragment, [')']);
    PlaceholderInside(h[..f.start], rep, Spliced(h[f.start + |t|..], t, reps, st.index + 1));
  }

  /** `compile` with such a registry never returns a pattern for a text that holds a placeholder. */
  lemma CompileNeverClears(g: Grok, s: string, aliasOnly: bool, accepts: string -> bool)
    requires NeverGround(g) && HasPlaceholder(s)
    ensures !(Compile(g, s, aliasOnly, accepts).Returns? && Compile(g, s, aliasOnly, accepts).result.Ok?)
  {
    ExpandNeverClears(g, Start(s), aliasOnly, MaxRecursion);
  }
}
