/**
 * Concrete registries and texts, and what `compile` and the coercions do
 * with them: a fragment that resolves in one turn, two fragments that name
 * each other, a fragment that names itself, a type tag outside the grammar,
 * and the edges of 64-bit integer parsing.
 */
module Scenarios {
  import opened Wrappers
  import opened Strings
  import opened Decimal
  import opened Scanner
  import opened Extractor
  import opened Rewrite
  import opened Compiler
  import opened CompileFacts

  /** A placeholder with neither alias nor type tag. */
  function Bare(n: string): Placeholder {
    Placeholder(n, None, None)
  }

  /** One fragment, `A` = `a+`. */
  const WordGrok := AddPattern(EmptyGrok, "A", "a+")

  /** The generated name of the first group. */
  lemma FirstGroupName()
    ensures GroupName(0) == "name0"
  {
    assert Show(0) == [DigitChar(0)];
  }

  /** The first capturing group around `a+`. */
  lemma FirstWordGroup(ph: Placeholder, aliasOnly: bool)
    requires Capturing(ph, aliasOnly)
    ensures Replacement(ph, "a+", aliasOnly, 0) == "(?<name0>a+)"
  {
    FirstGroupName();
  }

  /** An aliased placeholder becomes the group `name0` and records its alias. */
  lemma WordAliased(s: string, accepts: string -> bool)
    requires s == "%{A:x}" && accepts("(?<name0>a+)")
    ensures Compile(WordGrok, s, false, accepts)
         == Returns(Ok(Pattern("(?<name0>a+)", map["name0" := AliasEntry("x", None)])))
  {
    var ph := Placeholder("A", Some("x"), None);
    TextAlias("A", "x");
    assert Text(ph) == s;
    FirstWordGroup(ph, false);
    FirstGroupName();
    CompileSingle(WordGrok, ph, "a+", false, accepts);
  }

  /** A typed placeholder records its type tag with the alias. */
  lemma WordTyped(s: string, accepts: string -> bool)
    requires s == "%{A:n:int}" && accepts("(?<name0>a+)")
    ensures Compile(WordGrok, s, true, accepts)
         == Returns(Ok(Pattern("(?<name0>a+)", map["name0" := AliasEntry("n", Some("int"))])))
  {
    var ph := Placeholder("A", Some("n"), Some("int"));
    TextTyped("A", "n", "int");
    assert Text(ph) == s;
    FirstWordGroup(ph, true);
    FirstGroupName();
    CompileSingle(WordGrok, ph, "a+", true, accepts);
  }

  /** With only aliased fields wanted, a bare placeholder becomes a non-capturing group and records nothing. */
  lemma WordAliasOnly(s: string, accepts: string -> bool)
    requires s == "%{A}" && accepts("(?:a+)")
    ensures Compile(WordGrok, s, true, accepts) == Returns(Ok(Pattern("(?:a+)", map[])))
  {
    var ph := Bare("A");
    TextBare("A");
    assert Text(ph) == s;
    assert Replacement(ph, "a+", true, 0) == "(?:a+)";
    CompileSingle(WordGrok, ph, "a+", true, accepts);
  }

  /** Without that flag, a bare placeholder captures under its fragment name. */
  lemma WordBare(s: string, accepts: string -> bool)
    requires s == "%{A}" && accepts("(?<name0>a+)")
    ensures Compile(WordGrok, s, false, accepts)
         == Returns(Ok(Pattern("(?<name0>a+)", map["name0" := AliasEntry("A", None)])))
  {
    var ph := Bare("A");
    TextBare("A");
    assert Text(ph) == s;
    FirstWordGroup(ph, false);
    FirstGroupName();
    CompileSingle(WordGrok, ph, "a+", false, accepts);
  }

  /** A name the registry does not hold is reported by name. */
  lemma WordUnknown(accepts: string -> bool)
    ensures Compile(WordGrok, "x%{B}y", false, accepts) == Returns(Err(UnknownPattern("B")))
  {
    TextBare("B");
    assert "x%{B}y" == "x" + Text(Bare("B")) + "y";
    LoneFound("x", "y", Bare("B"));
    CompileUnknown(WordGrok, "x%{B}y", false, accepts);
  }

  /**
   * `bool` is not a type tag of the grammar: the text holds no placeholder
   * and reaches the regex engine untouched, which decides the outcome (the
   * `regex` crate refuses the bare `{`, giving the regex error).
   */
  lemma UnknownTypeIsLiteral(s: string, accepts: string -> bool)
    requires s == "%{A:x:bool}"
    ensures Compile(WordGrok, s, false, accepts)
         == if accepts(s) then Returns(Ok(Pattern(s, map[]))) else Returns(Err(RegexError))
  {
    assert RunEnd(s, 2, false) == 3 by { RunEndIs(s, 2, 3, false); }
    assert RunEnd(s, 4, true) == 5 by { RunEndIs(s, 4, 5, true); }
    assert TypeAt(s, 6) == None by { assert s[6] == 'b'; assert |s| == 11; }
    assert AfterAlias(s, 0, 3, 5) == None;
    assert ParseAt(s, 0) == AfterPattern(s, 0, 3) == AfterAlias(s, 0, 3, 5);
    forall i, ph, e | PlaceholderAt(s, i, ph, e) ensures false {
      PlaceholderStartsAtPercent(s, i, ph, e);
      ParseAtCorrect(s, 0, ph, e);
    }
    CompilePlain(WordGrok, s, false, accepts);
  }

  /** Two fragments that name each other. */
  const CycleGrok := AddPattern(AddPattern(EmptyGrok, "A", "%{B}"), "B", "%{A}")

  /** A registry where `A` resolves to `%{B}` and `B` to `%{A}`, whatever else it holds. */
  predicate Cyclic(g: Grok) {
    Lookup(g, "A") == Some("%{B}") && Lookup(g, "B") == Some("%{A}")
  }

  predicate CycleName(n: string) {
    n == "A" || n == "B"
  }

  function Partner(n: string): string {
    if n == "A" then "B" else "A"
  }

  /** Each name of the cycle resolves to the other's placeholder, which does not mention its own. */
  lemma CycleLookup(g: Grok, n: string)
    requires Cyclic(g) && CycleName(n)
    ensures WellFormed(Bare(n)) && CycleName(Partner(n))
    ensures Lookup(g, n) == Some(Text(Bare(Partner(n))))
    ensures !Contains(Text(Bare(Partner(n))), Text(Bare(n)))
  {
    TextBare("A");
    TextBare("B");
    assert Text(Bare("A")) == "%{A}";
    assert Text(Bare("B")) == "%{B}";
    var t := Text(Bare(n));
    var fragment := Text(Bare(Partner(n)));
    forall k | 0 <= k <= |fragment| - |t| ensures !OccursAt(fragment, t, k) {
      assert fragment[k..k + |t|][2] != t[2];
    }
  }

  /**
   * A lone placeholder of the cycle, between texts without `%`, uses up the
   * whole budget: each turn brings back the other placeholder.
   */
  lemma {:induction false} CycleExhausts(g: Grok, st: State, n: string, p: string, c: string, aliasOnly: bool, left: nat)
    requires Cyclic(g) && CycleName(n) && '%' !in p && '%' !in c && st.haystack == p + Text(Bare(n)) + c
    ensures Expand(g, st, aliasOnly, left) == Returns(Err(RecursionLimit))
    decreases left
  {
    if left == 0 {
      CycleSpent(g, st, n, p, c, aliasOnly);
    } else {
      var head := CycleNextShape(st, n, p, c, aliasOnly);
      var next := CycleNext(st, n, aliasOnly);
      var rest: nat := left - 1;
      CycleExhausts(g, next, Partner(n), p + head, [')'] + c, aliasOnly, rest);
      CycleTurn(g, st, n, p, c, aliasOnly, left, next, rest);
    }
  }

  /** With no budget left, the cycle's placeholder is the recursion-limit error. */
  lemma CycleSpent(g: Grok, st: State, n: string, p: string, c: string, aliasOnly: bool)
    requires CycleName(n) && '%' !in p && '%' !in c && st.haystack == p + Text(Bare(n)) + c
    ensures Expand(g, st, aliasOnly, 0) == Returns(Err(RecursionLimit))
  {
    TextBare(n);
    LoneFound(p, c, Bare(n));
  }

  /** The state after resolving the cycle's placeholder `n` everywhere. */
  function CycleNext(st: State, n: string, aliasOnly: bool): State
    requires CycleName(n)
  {
    TextBare(n);
    ReplaceAll(st, Text(Bare(n)), Groups(Bare(n), Text(Bare(Partner(n))), aliasOnly), Entry(Bare(n), aliasOnly))
  }

  /** That state holds the other placeholder, wrapped in a group head without `%` and a `)`. */
  lemma CycleNextShape(st: State, n: string, p: string, c: string, aliasOnly: bool) returns (head: string)
    requires CycleName(n) && '%' !in p && '%' !in c && st.haystack == p + Text(Bare(n)) + c
    ensures CycleName(Partner(n)) && '%' !in p + head
    ensures CycleNext(st, n, aliasOnly).haystack == (p + head) + Text(Bare(Partner(n))) + ([')'] + c)
  {
    TextBare(n);
    head := LoneResolvedState(st, p, c, Bare(n), Text(Bare(Partner(n))), aliasOnly);
  }

  /** One turn of the cycle: the run from `st` ends as the run from the next state does. */
  lemma CycleTurn(g: Grok, st: State, n: string, p: string, c: string, aliasOnly: bool, left: nat, next: State, rest: nat)
    requires Cyclic(g) && CycleName(n) && '%' !in p && '%' !in c && st.haystack == p + Text(Bare(n)) + c && left > 0
    requires next == CycleNext(st, n, aliasOnly) && rest == left - 1
    requires Expand(g, next, aliasOnly, rest) == Returns(Err(RecursionLimit))
    ensures Expand(g, st, aliasOnly, left) == Returns(Err(RecursionLimit))
  {
    CycleLookup(g, n);
    LoneFound(p, c, Bare(n));
    var f := Find(st.haystack).value;
    assert f.ph == Bare(n);
    ExpandTurn(g, st, aliasOnly, left, f, Text(Bare(Partner(n))));
    assert Expand(g, st, aliasOnly, left) == Expand(g, next, aliasOnly, rest);
  }

  /** `%{A}` with the cycle registry ends in the recursion-limit error. */
  lemma CycleFails(s: string, aliasOnly: bool, accepts: string -> bool)
    requires s == "%{A}"
    ensures Compile(CycleGrok, s, aliasOnly, accepts) == Returns(Err(RecursionLimit))
  {
    var e: string := [];
    TextBare("A");
    assert e + Text(Bare("A")) + e == s;
    assert Cyclic(CycleGrok);
    CycleExhausts(CycleGrok, Start(s), "A", e, e, aliasOnly, MaxRecursion);
  }

  /** A fragment that names itself. */
  const SelfGrok := AddPattern(EmptyGrok, "A", "x%{A}")

  /** `%{A}` with a self-naming fragment hangs the compiler: the loop as written never ends, for any number of passes. */
  lemma SelfReferenceHangs(s: string, aliasOnly: bool, accepts: string -> bool)
    requires s == "%{A}"
    ensures Compile(SelfGrok, s, aliasOnly, accepts) == Diverges
    ensures forall fuel: nat :: CompileRun(SelfGrok, s, aliasOnly, accepts, fuel).None?
  {
    var e: string := [];
    var ph := Bare("A");
    TextBare("A");
    assert e + Text(ph) + e == s;
    LoneFound(e, e, ph);
    SelfFragment(Lookup(SelfGrok, "A").value, ph);
    CompileSelfReference(SelfGrok, s, aliasOnly, accepts);
    CompileRunAgrees(SelfGrok, s, aliasOnly, accepts);
  }

  /** The fragment `x%{A}` holds the placeholder text `%{A}`. */
  lemma SelfFragment(fragment: string, ph: Placeholder)
    requires fragment == "x%{A}" && ph == Bare("A")
    ensures Contains(fragment, Text(ph))
  {
    TextBare("A");
    assert OccursAt(fragment, Text(ph), 1);
  }

  /** `str::parse::<i64>` takes a leading `+` and leading zeros. */
  lemma ParseI64Plus(s: string)
    requires s == "+007"
    ensures ParseI64(s) == Some(7)
  {
    var d := s[1..];
    assert d == "007" && AllDigits(d);
    assert ValueOf(d[..2][..1][..0]) == 0;
    assert ValueOf(d[..2][..1]) == 0;
    assert ValueOf(d[..2]) == 0;
    assert ValueOf(d) == 7;
  }

  /** A minus sign with a zero is zero. */
  lemma ParseI64MinusZero(s: string)
    requires s == "-0"
    ensures ParseI64(s) == Some(0)
  {
    var d := s[1..];
    assert d == "0" && AllDigits(d) && d[..0] == "";
    assert ValueOf(d) == 0;
  }

  /** Empty text, a bare sign, two signs and a digit separator are all refused. */
  lemma ParseI64Refused(s: string)
    requires s in {"", "-", "+-1", "1_000"}
    ensures ParseI64(s) == None
  {
    if s == "+-1" {
      assert !IsDigit(s[1..][0]);
    } else if s == "1_000" {
      assert !IsDigit(s[1]);
    }
  }
}
