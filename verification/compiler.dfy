/**
 * The registry (`Grok`) and the expander (`Grok::compile`).
 *
 * `compile` repeatedly takes the leftmost placeholder of the working text,
 * looks its fragment up, and replaces every literal occurrence of that exact
 * placeholder text, one at a time, by a group wrapping the raw fragment; a
 * budget of 1024 bounds the number of such resolutions. The inner
 * replacement loop is not covered by the budget: when the fragment contains
 * the very placeholder text being replaced, it never ends. The model makes
 * that explicit with `Outcome.Diverges`.
 */
module Compiler {
  import opened Wrappers
  import opened Strings
  import opened Decimal
  import opened Scanner
  import opened Extractor
  import opened Rewrite

  /** `MAX_RECURSION`: how many placeholders one compile may resolve. */
  const MaxRecursion: nat := 1024

  /** The caller's registry: fragment name to raw fragment text. */
  datatype Grok = Grok(patterns: map<string, string>)

  /** `Grok::default()`: an empty registry. */
  const EmptyGrok := Grok(map[])

  function Lookup(g: Grok, name: string): Option<string> {
    if name in g.patterns then Some(g.patterns[name]) else None
  }

  /** `add_pattern`: registers `fragment` under `name`, replacing any earlier entry. */
  function AddPattern(g: Grok, name: string, fragment: string): (g': Grok)
    ensures Lookup(g', name) == Some(fragment)
    ensures forall n :: n != name ==> Lookup(g', n) == Lookup(g, n)
  {
    Grok(g.patterns[name := fragment])
  }

  /** Registering a name twice keeps only the second fragment. */
  lemma AddPatternLastWins(g: Grok, name: string, f1: string, f2: string)
    ensures AddPattern(AddPattern(g, name, f1), name, f2) == AddPattern(g, name, f2)
  {
  }

  /** Registrations under different names do not interfere. */
  lemma AddPatternCommutes(g: Grok, n1: string, f1: string, n2: string, f2: string)
    requires n1 != n2
    ensures AddPattern(AddPattern(g, n1, f1), n2, f2) == AddPattern(AddPattern(g, n2, f2), n1, f1)
  {
  }

  /** Why a compile returned an error. */
  datatype CompileError =
    | UnknownPattern(name: string)   // the leftmost placeholder names no registered fragment
    | RecursionLimit                 // a placeholder was left after `MaxRecursion` resolutions
    | RegexError                     // the regex engine refused the expanded text

  /** A call that returns a result, or one that never returns. */
  datatype Outcome<T> = Returns(result: Result<T, CompileError>) | Diverges

  /** The generated capture-group name `name<i>`. */
  function GroupName(i: nat): string {
    "name" + Show(i)
  }

  /** Different counters give different group names. */
  lemma GroupNameInjective(i: nat, j: nat)
    requires GroupName(i) == GroupName(j)
    ensures i == j
  {
    assert GroupName(i)[4..] == Show(i);
    assert GroupName(j)[4..] == Show(j);
    ShowInjective(i, j);
  }

  /** An occurrence of `ph` becomes a named group unless it has no alias and only aliased fields are wanted. */
  predicate Capturing(ph: Placeholder, aliasOnly: bool) {
    !(ph.alias.None? && aliasOnly)
  }

  /** The alias entry of a captured occurrence: external name is the alias, else the fragment name. */
  function EntryFor(ph: Placeholder): AliasEntry {
    AliasEntry(if ph.alias.Some? then ph.alias.value else ph.pattern, ph.typ)
  }

  /** The group that replaces one occurrence: the raw fragment, wrapped. */
  function Replacement(ph: Placeholder, fragment: string, aliasOnly: bool, index: nat): string {
    if Capturing(ph, aliasOnly) then "(?<" + GroupName(index) + ">" + fragment + ")"
    else "(?:" + fragment + ")"
  }

  lemma ReplacementShape(ph: Placeholder, fragment: string, aliasOnly: bool, index: nat)
    ensures var rep := Replacement(ph, fragment, aliasOnly, index);
      exists head :: '%' !in head && |head| > 0 && head[0] == '(' && rep == head + fragment + [')']
  {
    if Capturing(ph, aliasOnly) {
      var head := "(?<" + GroupName(index) + ">";
      var digits := Show(index);
      assert head == "(?<name" + digits + ">";
      forall k | 0 <= k < |head| ensures head[k] != '%' {
        if 7 <= k < 7 + |digits| {
          assert head[k] == digits[k - 7];
        }
      }
      assert Replacement(ph, fragment, aliasOnly, index) == head + fragment + [')'];
    } else {
      assert Replacement(ph, fragment, aliasOnly, index) == "(?:" + fragment + [')'];
    }
  }

  /** A text that starts with `%` and holds no parenthesis, as every placeholder text does. */
  predicate Delimited(t: string) {
    |t| > 0 && t[0] == '%' && '(' !in t && ')' !in t
  }

  lemma ParensOutsideText(ph: Placeholder)
    requires WellFormed(ph)
    ensures Delimited(Text(ph))
  {
    TextAlphabet(ph);
    var t := Text(ph);
    forall k | 0 <= k < |t| ensures t[k] != '(' && t[k] != ')' {
      assert InTextAlphabet(t[k]);
    }
  }

  /** A replacement contains the placeholder text exactly when its fragment does. */
  lemma ReplacementContains(ph: Placeholder, fragment: string, aliasOnly: bool, index: nat, t: string)
    requires Delimited(t)
    ensures var rep := Replacement(ph, fragment, aliasOnly, index);
      |rep| > 0 && rep[0] == '(' && rep[|rep| - 1] == ')' && (Contains(rep, t) <==> Contains(fragment, t))
  {
    ReplacementShape(ph, fragment, aliasOnly, index);
    var head :| '%' !in head && |head| > 0 && head[0] == '(' && Replacement(ph, fragment, aliasOnly, index) == head + fragment + [')'];
    WrappedFree(head, fragment, ')', t);
  }

  /** The group text for each counter value, for one placeholder and its fragment. */
  function Groups(ph: Placeholder, fragment: string, aliasOnly: bool): nat -> string {
    (i: nat) => Replacement(ph, fragment, aliasOnly, i)
  }

  /** What a replaced occurrence records in the alias map, if anything. */
  function Entry(ph: Placeholder, aliasOnly: bool): Option<AliasEntry> {
    if Capturing(ph, aliasOnly) then Some(EntryFor(ph)) else None
  }

  /** With a well-formed placeholder text and a fragment that does not mention it, every group is sealed. */
  lemma GroupsSealed(ph: Placeholder, fragment: string, aliasOnly: bool, t: string)
    requires Delimited(t) && !Contains(fragment, t)
    ensures forall i :: Sealed(Groups(ph, fragment, aliasOnly)(i), t)
  {
    forall i: nat ensures Sealed(Groups(ph, fragment, aliasOnly)(i), t) {
      ReplacementContains(ph, fragment, aliasOnly, i, t);
    }
  }

  /** With a fragment that mentions the placeholder text, every group does. */
  lemma GroupsRepeat(ph: Placeholder, fragment: string, aliasOnly: bool, t: string)
    requires Delimited(t) && Contains(fragment, t)
    ensures forall i :: Contains(Groups(ph, fragment, aliasOnly)(i), t)
  {
    forall i: nat ensures Contains(Groups(ph, fragment, aliasOnly)(i), t) {
      ReplacementContains(ph, fragment, aliasOnly, i, t);
    }
  }

  /** The compiler's working state: text, group counter, alias map. */
  datatype State = State(haystack: string, index: nat, aliases: AliasMap)

  /** The alias map after the occurrence numbered `index` is replaced. */
  function Record(aliases: AliasMap, entry: Option<AliasEntry>, index: nat): AliasMap {
    if entry.Some? then aliases[GroupName(index) := entry.value] else aliases
  }

  /**
   * One pass of the inner loop: the leftmost occurrence of `t` becomes the
   * group for the current counter, which moves on even when the group does
   * not capture.
   */
  function Step(st: State, t: string, reps: nat -> string, entry: Option<AliasEntry>): State {
    State(ReplaceFirst(st.haystack, t, reps(st.index)), st.index + 1, Record(st.aliases, entry, st.index))
  }

  /**
   * The inner loop as written: while the placeholder text `t` (`to_match`)
   * still occurs, replace its leftmost occurrence. `None` means the fuel ran
   * out first.
   */
  function InnerLoop(st: State, t: string, reps: nat -> string, entry: Option<AliasEntry>, fuel: nat): Option<State>
    decreases fuel
  {
    if !Contains(st.haystack, t) then Some(st)
    else if fuel == 0 then None
    else InnerLoop(Step(st, t, reps, entry), t, reps, entry, fuel - 1)
  }

  /** Entries recorded for the counters `lo` .. `hi - 1`. */
  function NewEntries(entry: Option<AliasEntry>, lo: nat, hi: nat): AliasMap
    decreases hi - lo
  {
    if lo >= hi || entry.None? then map[] else NewEntries(entry, lo + 1, hi)[GroupName(lo) := entry.value]
  }

  /** The recorded keys are exactly the group names of the counters in range, all mapped to the entry. */
  lemma {:induction false} NewEntriesKeys(entry: Option<AliasEntry>, lo: nat, hi: nat, n: string)
    ensures n in NewEntries(entry, lo, hi) <==> entry.Some? && exists k: nat :: lo <= k < hi && n == GroupName(k)
    ensures n in NewEntries(entry, lo, hi) ==> NewEntries(entry, lo, hi)[n] == entry.value
    decreases hi - lo
  {
    if lo < hi && entry.Some? {
      NewEntriesKeys(entry, lo + 1, hi, n);
      if n !in NewEntries(entry, lo, hi) {
        forall k: nat | lo <= k < hi ensures n != GroupName(k) {
          if k == lo {
            assert GroupName(lo) in NewEntries(entry, lo, hi);
          }
        }
      } else if n != GroupName(lo) {
        var k: nat :| lo + 1 <= k < hi && n == GroupName(k);
      }
    }
  }

  /** Recording one occurrence and then the following ones records them all. */
  lemma RecordThenNew(aliases: AliasMap, entry: Option<AliasEntry>, lo: nat, hi: nat)
    requires lo < hi
    ensures Record(aliases, entry, lo) + NewEntries(entry, lo + 1, hi) == aliases + NewEntries(entry, lo, hi)
  {
    if entry.Some? {
      var rest := NewEntries(entry, lo + 1, hi);
      NewEntriesKeys(entry, lo + 1, hi, GroupName(lo));
      assert aliases[GroupName(lo) := entry.value] + rest == (aliases + rest)[GroupName(lo) := entry.value];
    }
  }

  /**
   * The tokenized reading of the inner loop: the text is spliced, the
   * counter moves on by the number of occurrences, and each captured
   * occurrence records its group name.
   */
  function ReplaceAll(st: State, t: string, reps: nat -> string, entry: Option<AliasEntry>): State
    requires |t| > 0
  {
    var n := Count(st.haystack, t);
    State(Spliced(st.haystack, t, reps, st.index), st.index + n, st.aliases + NewEntries(entry, st.index, st.index + n))
  }

  /** If the text and the next group both hold `t`, the text after one pass still does. */
  lemma StepKeepsOccurrence(st: State, t: string, reps: nat -> string, entry: Option<AliasEntry>)
    requires Contains(st.haystack, t) && Contains(reps(st.index), t)
    ensures Contains(Step(st, t, reps, entry).haystack, t)
  {
    var h := st.haystack;
    var rep := reps(st.index);
    var k := IndexOf(h, t).value;
    var j :| 0 <= j <= |rep| - |t| && OccursAt(rep, t, j);
    ReplaceFirstSplices(h, t, rep);
    OccursInside(h[..k], rep, h[k + |t|..], t, j);
  }

  /** While every pass keeps an occurrence of `t`, the loop uses up any fuel it is given. */
  lemma {:induction false} LoopWhileKept(st: State, t: string, reps: nat -> string, entry: Option<AliasEntry>, fuel: nat)
    requires Contains(st.haystack, t)
    requires forall s: State :: Contains(s.haystack, t) ==> Contains(Step(s, t, reps, entry).haystack, t)
    ensures InnerLoop(st, t, reps, entry, fuel) == None
    decreases fuel
  {
    if fuel > 0 {
      LoopWhileKept(Step(st, t, reps, entry), t, reps, entry, fuel - 1);
    }
  }

  /**
   * The inner loop as written never ends when every group contains the
   * placeholder text being replaced: no amount of fuel is enough.
   */
  lemma InnerLoopDiverges(st: State, t: string, reps: nat -> string, entry: Option<AliasEntry>, fuel: nat)
    requires Contains(st.haystack, t) && forall i :: Contains(reps(i), t)
    ensures InnerLoop(st, t, reps, entry, fuel) == None
  {
    forall s: State | Contains(s.haystack, t) ensures Contains(Step(s, t, reps, entry).haystack, t) {
      StepKeepsOccurrence(s, t, reps, entry);
    }
    LoopWhileKept(st, t, reps, entry, fuel);
  }

  /**
   * The inner loop is the text-only loop plus bookkeeping: it ends exactly
   * when the text-only loop does, with the same text and counter, and with
   * one alias entry per pass.
   */
  lemma {:induction false} InnerLoopIsTextLoop(st: State, t: string, reps: nat -> string, entry: Option<AliasEntry>, fuel: nat)
    ensures InnerLoop(st, t, reps, entry, fuel).None? <==> TextLoop(st.haystack, t, reps, st.index, fuel).None?
    ensures TextLoop(st.haystack, t, reps, st.index, fuel).Some? ==>
      var run := TextLoop(st.haystack, t, reps, st.index, fuel).value;
      InnerLoop(st, t, reps, entry, fuel) == Some(State(run.text, run.next, st.aliases + NewEntries(entry, st.index, run.next)))
    decreases fuel
  {
    if !Contains(st.haystack, t) {
      assert st.aliases + NewEntries(entry, st.index, st.index) == st.aliases;
    } else if fuel > 0 {
      var next := Step(st, t, reps, entry);
      var rest: nat := fuel - 1;
      InnerLoopIsTextLoop(next, t, reps, entry, rest);
      InnerLoopTurn(st, t, reps, entry, fuel, next, rest);
      TextLoopTurn(st.haystack, next.haystack, t, reps, st.index, fuel, next.index, rest);
      match TextLoop(st.haystack, t, reps, st.index, fuel)
      case None =>
      case Some(run) =>
        RecordThenNew(st.aliases, entry, st.index, run.next);
    }
  }

  /** One pass of the inner loop while `t` still occurs; `next` and `rest` are the state and the fuel after it. */
  lemma InnerLoopTurn(st: State, t: string, reps: nat -> string, entry: Option<AliasEntry>, fuel: nat, next: State, rest: nat)
    requires Contains(st.haystack, t) && next == Step(st, t, reps, entry) && rest == fuel - 1
    ensures InnerLoop(st, t, reps, entry, fuel) == InnerLoop(next, t, reps, entry, rest)
    ensures next.haystack == ReplaceFirst(st.haystack, t, reps(st.index)) && next.index == st.index + 1
    ensures next.aliases == Record(st.aliases, entry, st.index)
  {
  }

  /**
   * When no group contains the placeholder text, the inner loop as written
   * ends after one pass per occurrence, with the tokenized result.
   */
  lemma InnerLoopAgrees(st: State, t: string, reps: nat -> string, entry: Option<AliasEntry>, fuel: nat)
    requires |t| > 0 && forall i :: Sealed(reps(i), t)
    requires fuel >= Count(st.haystack, t)
    ensures InnerLoop(st, t, reps, entry, fuel) == Some(ReplaceAll(st, t, reps, entry))
  {
    TextLoopRuns(st.haystack, t, reps, st.index, fuel);
    InnerLoopIsTextLoop(st, t, reps, entry, fuel);
    var run := TextLoop(st.haystack, t, reps, st.index, fuel).value;
    ReplaceAllIs(st, t, reps, entry, run.text, run.next);
  }

  /** The tokenized result, given its text and its final counter. */
  lemma {:induction false} ReplaceAllIs(st: State, t: string, reps: nat -> string, entry: Option<AliasEntry>, text: string, next: nat)
    requires |t| > 0
    requires text == Spliced(st.haystack, t, reps, st.index) && next == st.index + Count(st.haystack, t)
    ensures ReplaceAll(st, t, reps, entry) == State(text, next, st.aliases + NewEntries(entry, st.index, next))
  {
  }

  /** The first occurrence the inner loop replaces is the placeholder the scanner found. */
  lemma FirstReplacedIsScanned(h: string)
    requires Find(h).Some?
    ensures IndexOf(h, Text(Find(h).value.ph)) == Some(Find(h).value.start)
  {
    var f := Find(h).value;
    var t := Text(f.ph);
    forall j | 0 <= j < f.start ensures !OccursAt(h, t, j) {
      PlaceholderIsOccurrence(h, j, f.ph, j + |t|);
    }
    IndexOfIs(h, t, f.start);
  }

  /** The inner loop never ends exactly when the fragment mentions the placeholder text it replaces. */
  lemma InnerLoopNoneIff(h: string, f: Found, st: State, fragment: string, aliasOnly: bool, fuel: nat)
    requires Find(h) == Some(f) && st.haystack == h
    ensures var t := Text(f.ph);
      Contains(fragment, t) ==> InnerLoop(st, t, Groups(f.ph, fragment, aliasOnly), Entry(f.ph, aliasOnly), fuel).None?
    ensures var t := Text(f.ph);
      !Contains(fragment, t) && fuel >= Count(h, t) ==>
        InnerLoop(st, t, Groups(f.ph, fragment, aliasOnly), Entry(f.ph, aliasOnly), fuel)
          == Some(ReplaceAll(st, t, Groups(f.ph, fragment, aliasOnly), Entry(f.ph, aliasOnly)))
  {
    var t := Text(f.ph);
    var reps := Groups(f.ph, fragment, aliasOnly);
    ParensOutsideText(f.ph);
    FirstReplacedIsScanned(h);
    if Contains(fragment, t) {
      GroupsRepeat(f.ph, fragment, aliasOnly, t);
      InnerLoopDiverges(st, t, reps, Entry(f.ph, aliasOnly), fuel);
    } else if fuel >= Count(h, t) {
      GroupsSealed(f.ph, fragment, aliasOnly, t);
      InnerLoopAgrees(st, t, reps, Entry(f.ph, aliasOnly), fuel);
    }
  }

  /** More fuel does not change a loop run that already ended. */
  lemma {:induction false} InnerLoopMoreFuel(st: State, t: string, reps: nat -> string, entry: Option<AliasEntry>, fuel: nat, more: nat)
    requires InnerLoop(st, t, reps, entry, fuel).Some? && fuel <= more
    ensures InnerLoop(st, t, reps, entry, more) == InnerLoop(st, t, reps, entry, fuel)
    decreases fuel
  {
    if Contains(st.haystack, t) {
      InnerLoopMoreFuel(Step(st, t, reps, entry), t, reps, entry, fuel - 1, more - 1);
    }
  }

  /** An inner loop run that ended did so because the fragment does not mention the placeholder text, and with the tokenized result. */
  lemma InnerLoopEnded(h: string, f: Found, st: State, fragment: string, aliasOnly: bool, fuel: nat)
    requires Find(h) == Some(f) && st.haystack == h
    requires InnerLoop(st, Text(f.ph), Groups(f.ph, fragment, aliasOnly), Entry(f.ph, aliasOnly), fuel).Some?
    ensures !Contains(fragment, Text(f.ph))
    ensures InnerLoop(st, Text(f.ph), Groups(f.ph, fragment, aliasOnly), Entry(f.ph, aliasOnly), fuel)
         == Some(ReplaceAll(st, Text(f.ph), Groups(f.ph, fragment, aliasOnly), Entry(f.ph, aliasOnly)))
  {
    var t := Text(f.ph);
    var big := fuel + Count(h, t);
    InnerLoopNoneIff(h, f, st, fragment, aliasOnly, fuel);
    InnerLoopNoneIff(h, f, st, fragment, aliasOnly, big);
    InnerLoopMoreFuel(st, t, Groups(f.ph, fragment, aliasOnly), Entry(f.ph, aliasOnly), fuel, big);
  }

  /**
   * The outer loop (`while let Some(caps) = ...`) with `left` resolutions
   * of the budget remaining, in its tokenized reading: the leftmost
   * placeholder is resolved and all copies of its text are replaced at once.
   */
  function Expand(g: Grok, st: State, aliasOnly: bool, left: nat): (r: Outcome<State>)
    ensures r.Returns? && r.result.Ok? ==> !HasPlaceholder(r.result.value.haystack)
    ensures r.Returns? && r.result.Ok? ==> st.index <= r.result.value.index
    ensures r.Returns? && r.result.Err? && r.result.error.UnknownPattern? ==> Lookup(g, r.result.error.name).None?
    ensures r.Returns? && r.result.Err? ==> !r.result.error.RegexError?
    decreases left
  {
    match Find(st.haystack)
    case None => Returns(Ok(st))
    case Some(f) =>
      if left == 0 then Returns(Err(RecursionLimit))
      else
        match Lookup(g, f.ph.pattern)
        case None => Returns(Err(UnknownPattern(f.ph.pattern)))
        case Some(fragment) =>
          var t := Text(f.ph);
          if Contains(fragment, t) then Diverges
          else Expand(g, ReplaceAll(st, t, Groups(f.ph, fragment, aliasOnly), Entry(f.ph, aliasOnly)), aliasOnly, left - 1)
  }

  /**
   * The outer loop as written, with the inner loop run on `fuel` passes at
   * most. `None` means some inner loop did not end within its fuel.
   */
  function ExpandRun(g: Grok, st: State, aliasOnly: bool, left: nat, fuel: nat): Option<Result<State, CompileError>>
    decreases left
  {
    match Find(st.haystack)
    case None => Some(Ok(st))
    case Some(f) =>
      if left == 0 then Some(Err(RecursionLimit))
      else
        match Lookup(g, f.ph.pattern)
        case None => Some(Err(UnknownPattern(f.ph.pattern)))
        case Some(fragment) =>
          match InnerLoop(st, Text(f.ph), Groups(f.ph, fragment, aliasOnly), Entry(f.ph, aliasOnly), fuel)
          case None => None
          case Some(st') => ExpandRun(g, st', aliasOnly, left - 1, fuel)
  }

  /** One turn of the tokenized outer loop, once the leftmost placeholder and its fragment are known. */
  lemma ExpandTurn(g: Grok, st: State, aliasOnly: bool, left: nat, f: Found, fragment: string)
    requires Find(st.haystack) == Some(f) && Lookup(g, f.ph.pattern) == Some(fragment) && left > 0
    ensures Contains(fragment, Text(f.ph)) ==> Expand(g, st, aliasOnly, left) == Diverges
    ensures !Contains(fragment, Text(f.ph)) ==>
      Expand(g, st, aliasOnly, left)
        == Expand(g, ReplaceAll(st, Text(f.ph), Groups(f.ph, fragment, aliasOnly), Entry(f.ph, aliasOnly)), aliasOnly, left - 1)
  {
  }

  /** One turn of the outer loop as written, once the leftmost placeholder and its fragment are known. */
  lemma ExpandRunTurn(g: Grok, st: State, aliasOnly: bool, left: nat, fuel: nat, f: Found, fragment: string)
    requires Find(st.haystack) == Some(f) && Lookup(g, f.ph.pattern) == Some(fragment) && left > 0
    ensures var inner := InnerLoop(st, Text(f.ph), Groups(f.ph, fragment, aliasOnly), Entry(f.ph, aliasOnly), fuel);
      ExpandRun(g, st, aliasOnly, left, fuel) == if inner.None? then None else ExpandRun(g, inner.value, aliasOnly, left - 1, fuel)
  {
  }

  /** Whenever the loop as written ends, it ends as the tokenized reading says. */
  lemma {:induction false} ExpandRunSound(g: Grok, st: State, aliasOnly: bool, left: nat, fuel: nat)
    requires ExpandRun(g, st, aliasOnly, left, fuel).Some?
    ensures Expand(g, st, aliasOnly, left) == Returns(ExpandRun(g, st, aliasOnly, left, fuel).value)
    decreases left, 1
  {
    match Find(st.haystack)
    case None =>
    case Some(f) =>
      if left > 0 && Lookup(g, f.ph.pattern).Some? {
        ExpandRunSoundTurn(g, st, aliasOnly, left, fuel, f, Lookup(g, f.ph.pattern).value);
      }
  }

  /** The same, for a turn that resolves the leftmost placeholder. */
  lemma {:induction false} ExpandRunSoundTurn(g: Grok, st: State, aliasOnly: bool, left: nat, fuel: nat, f: Found, fragment: string)
    requires Find(st.haystack) == Some(f) && Lookup(g, f.ph.pattern) == Some(fragment) && left > 0
    requires ExpandRun(g, st, aliasOnly, left, fuel).Some?
    ensures Expand(g, st, aliasOnly, left) == Returns(ExpandRun(g, st, aliasOnly, left, fuel).value)
    decreases left, 0
  {
    var t := Text(f.ph);
    var reps := Groups(f.ph, fragment, aliasOnly);
    var entry := Entry(f.ph, aliasOnly);
    ExpandTurn(g, st, aliasOnly, left, f, fragment);
    ExpandRunTurn(g, st, aliasOnly, left, fuel, f, fragment);
    InnerLoopEnded(st.haystack, f, st, fragment, aliasOnly, fuel);
    var st' := ReplaceAll(st, t, reps, entry);
    assert InnerLoop(st, t, reps, entry, fuel) == Some(st');
    assert ExpandRun(g, st, aliasOnly, left, fuel) == ExpandRun(g, st', aliasOnly, left - 1, fuel);
    ExpandRunSound(g, st', aliasOnly, left - 1, fuel);
    assert Expand(g, st, aliasOnly, left) == Expand(g, st', aliasOnly, left - 1);
  }

  /** When the tokenized reading diverges, the loop as written runs out of any fuel. */
  lemma {:induction false} ExpandRunDiverges(g: Grok, st: State, aliasOnly: bool, left: nat, fuel: nat)
    requires Expand(g, st, aliasOnly, left).Diverges?
    ensures ExpandRun(g, st, aliasOnly, left, fuel).None?
  {
    if ExpandRun(g, st, aliasOnly, left, fuel).Some? {
      ExpandRunSound(g, st, aliasOnly, left, fuel);
    }
  }

  /** More fuel does not change an outer run that already ended. */
  lemma {:induction false} ExpandRunMoreFuel(g: Grok, st: State, aliasOnly: bool, left: nat, fuel: nat, more: nat)
    requires ExpandRun(g, st, aliasOnly, left, fuel).Some? && fuel <= more
    ensures ExpandRun(g, st, aliasOnly, left, more) == ExpandRun(g, st, aliasOnly, left, fuel)
    decreases left
  {
    match Find(st.haystack)
    case None =>
    case Some(f) =>
      if left > 0 && Lookup(g, f.ph.pattern).Some? {
        var fragment := Lookup(g, f.ph.pattern).value;
        var reps := Groups(f.ph, fragment, aliasOnly);
        var entry := Entry(f.ph, aliasOnly);
        InnerLoopMoreFuel(st, Text(f.ph), reps, entry, fuel, more);
        var st' := InnerLoop(st, Text(f.ph), reps, entry, fuel).value;
        ExpandRunMoreFuel(g, st', aliasOnly, left - 1, fuel, more);
      }
  }

  /** When the tokenized reading returns, enough fuel lets the loop as written return the same. */
  lemma {:induction false} ExpandRunEnough(g: Grok, st: State, aliasOnly: bool, left: nat)
    requires Expand(g, st, aliasOnly, left).Returns?
    ensures exists fuel: nat :: ExpandRun(g, st, aliasOnly, left, fuel) == Some(Expand(g, st, aliasOnly, left).result)
    decreases left, 1
  {
    match Find(st.haystack)
    case None =>
      assert ExpandRun(g, st, aliasOnly, left, 0) == Some(Expand(g, st, aliasOnly, left).result);
    case Some(f) =>
      if left == 0 || Lookup(g, f.ph.pattern).None? {
        assert ExpandRun(g, st, aliasOnly, left, 0) == Some(Expand(g, st, aliasOnly, left).result);
      } else {
        ExpandRunEnoughTurn(g, st, aliasOnly, left, f, Lookup(g, f.ph.pattern).value);
      }
  }

  /** The same, for a turn that resolves the leftmost placeholder. */
  lemma {:induction false} ExpandRunEnoughTurn(g: Grok, st: State, aliasOnly: bool, left: nat, f: Found, fragment: string)
    requires Find(st.haystack) == Some(f) && Lookup(g, f.ph.pattern) == Some(fragment) && left > 0
    requires Expand(g, st, aliasOnly, left).Returns?
    ensures exists fuel: nat :: ExpandRun(g, st, aliasOnly, left, fuel) == Some(Expand(g, st, aliasOnly, left).result)
    decreases left, 0
  {
    var st' := ReplaceAll(st, Text(f.ph), Groups(f.ph, fragment, aliasOnly), Entry(f.ph, aliasOnly));
    ExpandTurn(g, st, aliasOnly, left, f, fragment);
    assert Expand(g, st, aliasOnly, left) == Expand(g, st', aliasOnly, left - 1);
    ExpandRunEnough(g, st', aliasOnly, left - 1);
    var rest: nat :| ExpandRun(g, st', aliasOnly, left - 1, rest) == Some(Expand(g, st', aliasOnly, left - 1).result);
    var fuel := rest + Count(st.haystack, Text(f.ph));
    ExpandRunWithMore(g, st, aliasOnly, left, f, fragment, rest, fuel);
    assert ExpandRun(g, st, aliasOnly, left, fuel) == Some(Expand(g, st, aliasOnly, left).result);
  }

  /** Fuel that suffices for the rest of the run, plus one pass per occurrence, suffices for this turn too. */
  lemma ExpandRunWithMore(g: Grok, st: State, aliasOnly: bool, left: nat, f: Found, fragment: string, rest: nat, fuel: nat)
    requires Find(st.haystack) == Some(f) && Lookup(g, f.ph.pattern) == Some(fragment) && left > 0
    requires !Contains(fragment, Text(f.ph)) && fuel == rest + Count(st.haystack, Text(f.ph))
    requires ExpandRun(g, ReplaceAll(st, Text(f.ph), Groups(f.ph, fragment, aliasOnly), Entry(f.ph, aliasOnly)), aliasOnly, left - 1, rest).Some?
    ensures ExpandRun(g, st, aliasOnly, left, fuel)
         == ExpandRun(g, ReplaceAll(st, Text(f.ph), Groups(f.ph, fragment, aliasOnly), Entry(f.ph, aliasOnly)), aliasOnly, left - 1, rest)
  {
    var t := Text(f.ph);
    var reps := Groups(f.ph, fragment, aliasOnly);
    var entry := Entry(f.ph, aliasOnly);
    var st' := ReplaceAll(st, t, reps, entry);
    InnerLoopNoneIff(st.haystack, f, st, fragment, aliasOnly, fuel);
    assert InnerLoop(st, t, reps, entry, fuel) == Some(st');
    ExpandRunMoreFuel(g, st', aliasOnly, left - 1, rest, fuel);
    assert ExpandRun(g, st', aliasOnly, left - 1, fuel) == ExpandRun(g, st', aliasOnly, left - 1, rest);
    ExpandRunTurn(g, st, aliasOnly, left, fuel, f, fragment);
  }

  /** Every entry of the alias map is a group name handed out before the current counter. */
  ghost predicate Named(st: State) {
    forall n :: n in st.aliases ==> exists k: nat :: k < st.index && n == GroupName(k)
  }

  /**
   * Replacing all occurrences keeps the alias map's entries, adds only the
   * entry of the placeholder for each new group, and hands out only fresh
   * group names.
   */
  lemma ReplaceAllNamed(st: State, t: string, reps: nat -> string, entry: Option<AliasEntry>)
    requires |t| > 0 && Named(st)
    ensures Named(ReplaceAll(st, t, reps, entry))
    ensures forall n :: n in st.aliases ==> n in ReplaceAll(st, t, reps, entry).aliases && ReplaceAll(st, t, reps, entry).aliases[n] == st.aliases[n]
    ensures forall n :: n in ReplaceAll(st, t, reps, entry).aliases && n !in st.aliases ==>
      entry.Some? && ReplaceAll(st, t, reps, entry).aliases[n] == entry.value
  {
    var r := ReplaceAll(st, t, reps, entry);
    var hi := r.index;
    var added := NewEntries(entry, st.index, hi);
    assert r.aliases == st.aliases + added;
    forall n | n in st.aliases ensures n !in added {
      NewEntriesKeys(entry, st.index, hi, n);
      if n in added {
        var k: nat :| st.index <= k < hi && n == GroupName(k);
        var j: nat :| j < st.index && n == GroupName(j);
        GroupNameInjective(j, k);
      }
    }
    forall n | n in r.aliases ensures exists k: nat :: k < r.index && n == GroupName(k) {
      NewEntriesKeys(entry, st.index, hi, n);
    }
    forall n | n in r.aliases && n !in st.aliases ensures entry.Some? && r.aliases[n] == entry.value {
      NewEntriesKeys(entry, st.index, hi, n);
    }
  }

  /** The tokenized outer loop keeps the alias map named and never rebinds an earlier group. */
  lemma {:induction false} ExpandNamed(g: Grok, st: State, aliasOnly: bool, left: nat)
    requires Named(st)
    ensures Expand(g, st, aliasOnly, left).Returns? && Expand(g, st, aliasOnly, left).result.Ok? ==>
      var st' := Expand(g, st, aliasOnly, left).result.value;
      Named(st') && forall n :: n in st.aliases ==> n in st'.aliases && st'.aliases[n] == st.aliases[n]
    decreases left, 1
  {
    match Find(st.haystack)
    case None =>
    case Some(f) =>
      if left > 0 && Lookup(g, f.ph.pattern).Some? && !Contains(Lookup(g, f.ph.pattern).value, Text(f.ph)) {
        ExpandNamedTurn(g, st, aliasOnly, left, f, Lookup(g, f.ph.pattern).value);
      }
  }

  /** The same, for a turn that resolves the leftmost placeholder. */
  lemma {:induction false} ExpandNamedTurn(g: Grok, st: State, aliasOnly: bool, left: nat, f: Found, fragment: string)
    requires Find(st.haystack) == Some(f) && Lookup(g, f.ph.pattern) == Some(fragment) && left > 0
    requires !Contains(fragment, Text(f.ph)) && Named(st)
    ensures Expand(g, st, aliasOnly, left).Returns? && Expand(g, st, aliasOnly, left).result.Ok? ==>
      var st' := Expand(g, st, aliasOnly, left).result.value;
      Named(st') && forall n :: n in st.aliases ==> n in st'.aliases && st'.aliases[n] == st.aliases[n]
    decreases left, 0
  {
    var mid := ReplaceAll(st, Text(f.ph), Groups(f.ph, fragment, aliasOnly), Entry(f.ph, aliasOnly));
    ExpandTurn(g, st, aliasOnly, left, f, fragment);
    ReplaceAllNamed(st, Text(f.ph), Groups(f.ph, fragment, aliasOnly), Entry(f.ph, aliasOnly));
    ExpandNamed(g, mid, aliasOnly, left - 1);
  }

  /** A larger budget changes nothing unless the smaller one ran out. */
  lemma {:induction false} ExpandMoreBudget(g: Grok, st: State, aliasOnly: bool, left: nat, more: nat)
    requires left <= more && Expand(g, st, aliasOnly, left) != Returns(Err(RecursionLimit))
    ensures Expand(g, st, aliasOnly, more) == Expand(g, st, aliasOnly, left)
    decreases left, 1
  {
    match Find(st.haystack)
    case None =>
    case Some(f) =>
      if left > 0 && Lookup(g, f.ph.pattern).Some? {
        var fragment := Lookup(g, f.ph.pattern).value;
        if Contains(fragment, Text(f.ph)) {
          ExpandTurn(g, st, aliasOnly, left, f, fragment);
          ExpandTurn(g, st, aliasOnly, more, f, fragment);
        } else {
          ExpandMoreBudgetTurn(g, st, aliasOnly, left, more, f, fragment);
        }
      }
  }

  /** The same, for a turn that resolves the leftmost placeholder. */
  lemma {:induction false} ExpandMoreBudgetTurn(g: Grok, st: State, aliasOnly: bool, left: nat, more: nat, f: Found, fragment: string)
    requires Find(st.haystack) == Some(f) && Lookup(g, f.ph.pattern) == Some(fragment) && !Contains(fragment, Text(f.ph))
    requires 0 < left <= more && Expand(g, st, aliasOnly, left) != Returns(Err(RecursionLimit))
    ensures Expand(g, st, aliasOnly, more) == Expand(g, st, aliasOnly, left)
    decreases left, 0
  {
    var mid := ReplaceAll(st, Text(f.ph), Groups(f.ph, fragment, aliasOnly), Entry(f.ph, aliasOnly));
    var rest: nat, restMore: nat := left - 1, more - 1;
    ExpandTurn(g, st, aliasOnly, left, f, fragment);
    ExpandTurn(g, st, aliasOnly, more, f, fragment);
    assert Expand(g, mid, aliasOnly, rest) == Expand(g, st, aliasOnly, left);
    ExpandMoreBudget(g, mid, aliasOnly, rest, restMore);
    assert Expand(g, st, aliasOnly, more) == Expand(g, mid, aliasOnly, restMore);
  }

  /** The state `compile` starts from: the caller's text, counter 0, an empty alias map. */
  function Start(s: string): State {
    State(s, 0, map[])
  }

  /**
   * `Grok::compile`: expand within the budget, then hand the text to the
   * regex engine (`accepts` says whether it compiles).
   */
  function Compile(g: Grok, s: string, aliasOnly: bool, accepts: string -> bool): (r: Outcome<Pattern>)
    ensures r.Returns? && r.result.Ok? ==> accepts(r.result.value.regex) && !HasPlaceholder(r.result.value.regex)
    ensures r.Returns? && r.result.Err? && r.result.error.UnknownPattern? ==> Lookup(g, r.result.error.name).None?
  {
    match Expand(g, Start(s), aliasOnly, MaxRecursion)
    case Diverges => Diverges
    case Returns(Err(e)) => Returns(Err(e))
    case Returns(Ok(st)) =>
      if accepts(st.haystack) then Returns(Ok(Pattern(st.haystack, st.aliases))) else Returns(Err(RegexError))
  }

  /** Every alias-map key of a compiled pattern is a generated group name `name<k>`. */
  lemma CompileGroupNames(g: Grok, s: string, aliasOnly: bool, accepts: string -> bool)
    requires Compile(g, s, aliasOnly, accepts).Returns? && Compile(g, s, aliasOnly, accepts).result.Ok?
    ensures forall n :: n in Compile(g, s, aliasOnly, accepts).result.value.aliases ==> exists k: nat :: n == GroupName(k)
  {
    ExpandNamed(g, Start(s), aliasOnly, MaxRecursion);
  }

  /** A text without placeholders goes to the regex engine unchanged, with an empty alias map. */
  lemma CompilePlain(g: Grok, s: string, aliasOnly: bool, accepts: string -> bool)
    requires !HasPlaceholder(s)
    ensures accepts(s) ==> Compile(g, s, aliasOnly, accepts) == Returns(Ok(Pattern(s, map[])))
    ensures !accepts(s) ==> Compile(g, s, aliasOnly, accepts) == Returns(Err(RegexError))
  {
  }

  /** A leftmost placeholder naming no registered fragment is an error. */
  lemma CompileUnknown(g: Grok, s: string, aliasOnly: bool, accepts: string -> bool)
    requires Find(s).Some? && Lookup(g, Find(s).value.ph.pattern).None?
    ensures Compile(g, s, aliasOnly, accepts) == Returns(Err(UnknownPattern(Find(s).value.ph.pattern)))
  {
  }

  /** A leftmost placeholder whose fragment mentions its own text hangs the compiler. */
  lemma CompileSelfReference(g: Grok, s: string, aliasOnly: bool, accepts: string -> bool)
    requires Find(s).Some? && Lookup(g, Find(s).value.ph.pattern).Some?
    requires Contains(Lookup(g, Find(s).value.ph.pattern).value, Text(Find(s).value.ph))
    ensures Compile(g, s, aliasOnly, accepts) == Diverges
  {
    ExpandTurn(g, Start(s), aliasOnly, MaxRecursion, Find(s).value, Lookup(g, Find(s).value.ph.pattern).value);
  }

  /** `compile` as written, with every inner loop run on `fuel` passes at most. */
  function CompileRun(g: Grok, s: string, aliasOnly: bool, accepts: string -> bool, fuel: nat): Option<Result<Pattern, CompileError>> {
    match ExpandRun(g, Start(s), aliasOnly, MaxRecursion, fuel)
    case None => None
    case Some(Err(e)) => Some(Err(e))
    case Some(Ok(st)) =>
      if accepts(st.haystack) then Some(Ok(Pattern(st.haystack, st.aliases))) else Some(Err(RegexError))
  }

  /**
   * `compile` as written returns exactly what the model returns, and hangs
   * exactly when the model says it diverges.
   */
  lemma CompileRunAgrees(g: Grok, s: string, aliasOnly: bool, accepts: string -> bool)
    ensures forall fuel: nat :: CompileRun(g, s, aliasOnly, accepts, fuel).Some? ==>
      Compile(g, s, aliasOnly, accepts) == Returns(CompileRun(g, s, aliasOnly, accepts, fuel).value)
    ensures Compile(g, s, aliasOnly, accepts).Diverges? ==> forall fuel: nat :: CompileRun(g, s, aliasOnly, accepts, fuel).None?
    ensures Compile(g, s, aliasOnly, accepts).Returns? ==>
      exists fuel: nat :: CompileRun(g, s, aliasOnly, accepts, fuel) == Some(Compile(g, s, aliasOnly, accepts).result)
  {
    forall fuel: nat | CompileRun(g, s, aliasOnly, accepts, fuel).Some?
      ensures Compile(g, s, aliasOnly, accepts) == Returns(CompileRun(g, s, aliasOnly, accepts, fuel).value)
    {
      CompileRunSound(g, s, aliasOnly, accepts, fuel);
    }
    if Compile(g, s, aliasOnly, accepts).Returns? {
      CompileRunComplete(g, s, aliasOnly, accepts);
    }
  }

  /** A run of `compile` as written that ends returns what the model returns. */
  lemma CompileRunSound(g: Grok, s: string, aliasOnly: bool, accepts: string -> bool, fuel: nat)
    requires CompileRun(g, s, aliasOnly, accepts, fuel).Some?
    ensures Compile(g, s, aliasOnly, accepts) == Returns(CompileRun(g, s, aliasOnly, accepts, fuel).value)
  {
    ExpandRunSound(g, Start(s), aliasOnly, MaxRecursion, fuel);
  }

  /** When the model returns, some fuel lets `compile` as written return the same. */
  lemma CompileRunComplete(g: Grok, s: string, aliasOnly: bool, accepts: string -> bool)
    requires Compile(g, s, aliasOnly, accepts).Returns?
    ensures exists fuel: nat :: CompileRun(g, s, aliasOnly, accepts, fuel) == Some(Compile(g, s, aliasOnly, accepts).result)
  {
    var st := Start(s);
    ExpandRunEnough(g, st, aliasOnly, MaxRecursion);
    var fuel: nat :| ExpandRun(g, st, aliasOnly, MaxRecursion, fuel) == Some(Expand(g, st, aliasOnly, MaxRecursion).result);
    assert CompileRun(g, s, aliasOnly, accepts, fuel) == Some(Compile(g, s, aliasOnly, accepts).result);
  }
}
