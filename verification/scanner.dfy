/**
 * The placeholder scanner: a hand-written recogniser for the `%{...}`
 * regular expression the compiler searches for (`GROK_PATTERN`).
 *
 * A placeholder is `%{P}`, `%{P:A}` or `%{P:A:T}` where `P` is one or more
 * ASCII word characters (`[0-9A-Za-z_]`), `A` is one or more word characters
 * or `@`, `.`, `-`, and `T` is exactly `int` or `float`.
 */
module Scanner {
  import opened Wrappers
  import opened Strings

  /** The parts of one placeholder: fragment name, optional alias, optional type tag. */
  datatype Placeholder = Placeholder(pattern: string, alias: Option<string>, typ: Option<string>)

  /** `[[:word:]]`, which is ASCII-only in the regex engine. */
  predicate IsWordChar(c: char) {
    ('a' <= c <= 'z') || ('A' <= c <= 'Z') || ('0' <= c <= '9') || c == '_'
  }

  /** `[[[:word:]]@.-]` */
  predicate IsAliasChar(c: char) {
    IsWordChar(c) || c == '@' || c == '.' || c == '-'
  }

  /** The character class of a run: word characters, or alias characters when `alias` holds. */
  predicate InClass(c: char, alias: bool) {
    if alias then IsAliasChar(c) else IsWordChar(c)
  }

  predicate AllInClass(s: string, alias: bool) {
    forall k :: 0 <= k < |s| ==> InClass(s[k], alias)
  }

  predicate IsTypeName(t: string) {
    t == "int" || t == "float"
  }

  /** The placeholder grammar: which parts may appear, and what they are made of. */
  predicate WellFormed(ph: Placeholder) {
    && |ph.pattern| > 0 && AllInClass(ph.pattern, false)
    && (ph.alias.Some? ==> |ph.alias.value| > 0 && AllInClass(ph.alias.value, true))
    && (ph.typ.Some? ==> ph.alias.Some? && IsTypeName(ph.typ.value))
  }

  /** The text between the braces (the `name` group of the scanner). */
  function Body(ph: Placeholder): string {
    ph.pattern +
      match ph.alias
      case None => ""
      case Some(a) => ":" + a + (match ph.typ case None => "" case Some(t) => ":" + t)
  }

  /** The exact placeholder text, `%{` + body + `}` (the compiler's `to_match`). */
  function Text(ph: Placeholder): string {
    "%{" + Body(ph) + "}"
  }

  /** A placeholder `ph` occupies `s[i..e]`. */
  predicate PlaceholderAt(s: string, i: int, ph: Placeholder, e: int) {
    WellFormed(ph) && 0 <= i <= e <= |s| && s[i..e] == Text(ph)
  }

  ghost predicate HasPlaceholder(s: string) {
    exists i, ph, e :: PlaceholderAt(s, i, ph, e)
  }

  /** End of the longest run of class characters starting at `i` (a greedy `+`/`*`). */
  function RunEnd(s: string, i: nat, alias: bool): (r: nat)
    requires i <= |s|
    ensures i <= r <= |s|
    ensures forall k :: i <= k < r ==> InClass(s[k], alias)
    ensures r == |s| || !InClass(s[r], alias)
    decreases |s| - i
  {
    if i == |s| || !InClass(s[i], alias) then i else RunEnd(s, i + 1, alias)
  }

  /** The run end is determined by its first non-class character. */
  lemma RunEndIs(s: string, i: nat, k: nat, alias: bool)
    requires i <= k < |s|
    requires forall j :: i <= j < k ==> InClass(s[j], alias)
    requires !InClass(s[k], alias)
    ensures RunEnd(s, i, alias) == k
  {
  }

  /** `int}` or `float}` at position `k`: the type tag and its closing brace. */
  function TypeAt(s: string, k: nat): Option<string>
    requires k <= |s|
  {
    if k + 4 <= |s| && s[k..k + 4] == "int}" then Some("int")
    else if k + 6 <= |s| && s[k..k + 6] == "float}" then Some("float")
    else None
  }

  /** The scanner anchored at position `i`: the placeholder starting there and where it ends. */
  function ParseAt(s: string, i: nat): Option<(Placeholder, nat)>
    requires i <= |s|
  {
    if i + 2 > |s| || s[i] != '%' || s[i + 1] != '{' then None
    else AfterPattern(s, i, RunEnd(s, i + 2, false))
  }

  /** The fragment name runs from `i + 2` to `pe`; what follows it decides the form. */
  function AfterPattern(s: string, i: nat, pe: nat): Option<(Placeholder, nat)>
    requires i + 2 <= pe <= |s|
  {
    if pe == i + 2 || pe == |s| then None
    else if s[pe] == '}' then Some((Placeholder(s[i + 2..pe], None, None), pe + 1))
    else if s[pe] != ':' then None
    else AfterAlias(s, i, pe, RunEnd(s, pe + 1, true))
  }

  /** The alias runs from `pe + 1` to `ae`; then `}` or `:` with a type tag must follow. */
  function AfterAlias(s: string, i: nat, pe: nat, ae: nat): Option<(Placeholder, nat)>
    requires i + 2 < pe < ae <= |s|
  {
    if ae == pe + 1 || ae == |s| then None
    else if s[ae] == '}' then Some((Placeholder(s[i + 2..pe], Some(s[pe + 1..ae]), None), ae + 1))
    else if s[ae] != ':' then None
    else
      match TypeAt(s, ae + 1)
      case None => None
      case Some(t) => Some((Placeholder(s[i + 2..pe], Some(s[pe + 1..ae]), Some(t)), ae + 2 + |t|))
  }

  lemma TextBare(p: string)
    ensures Text(Placeholder(p, None, None)) == "%{" + p + "}"
  {
    assert Body(Placeholder(p, None, None)) == p;
  }

  lemma TextAlias(p: string, a: string)
    ensures Text(Placeholder(p, Some(a), None)) == "%{" + p + ":" + a + "}"
  {
    assert Body(Placeholder(p, Some(a), None)) == p + ":" + a;
  }

  lemma TextTyped(p: string, a: string, t: string)
    ensures Text(Placeholder(p, Some(a), Some(t))) == "%{" + p + ":" + a + ":" + t + "}"
  {
    assert Body(Placeholder(p, Some(a), Some(t))) == p + ":" + a + ":" + t;
  }

  lemma SoundBare(s: string, i: nat, pe: nat)
    requires i + 2 < pe < |s| && s[i] == '%' && s[i + 1] == '{' && s[pe] == '}'
    requires AllInClass(s[i + 2..pe], false)
    ensures PlaceholderAt(s, i, Placeholder(s[i + 2..pe], None, None), pe + 1)
  {
    var p := s[i + 2..pe];
    TextBare(p);
    assert s[i..pe + 1] == s[i..i + 2] + p + s[pe..pe + 1];
  }

  lemma SoundAlias(s: string, i: nat, pe: nat, ae: nat)
    requires i + 2 < pe && pe + 1 < ae < |s| && s[i] == '%' && s[i + 1] == '{' && s[pe] == ':' && s[ae] == '}'
    requires AllInClass(s[i + 2..pe], false) && AllInClass(s[pe + 1..ae], true)
    ensures PlaceholderAt(s, i, Placeholder(s[i + 2..pe], Some(s[pe + 1..ae]), None), ae + 1)
  {
    var p := s[i + 2..pe];
    var a := s[pe + 1..ae];
    TextAlias(p, a);
    assert s[i..ae + 1] == s[i..i + 2] + p + s[pe..pe + 1] + a + s[ae..ae + 1];
  }

  lemma SoundTyped(s: string, i: nat, pe: nat, ae: nat, t: string)
    requires i + 2 < pe && pe + 1 < ae && ae + 2 + |t| <= |s| && s[i] == '%' && s[i + 1] == '{'
    requires s[pe] == ':' && s[ae] == ':' && s[ae + 1..ae + 2 + |t|] == t + "}" && IsTypeName(t)
    requires AllInClass(s[i + 2..pe], false) && AllInClass(s[pe + 1..ae], true)
    ensures PlaceholderAt(s, i, Placeholder(s[i + 2..pe], Some(s[pe + 1..ae]), Some(t)), ae + 2 + |t|)
  {
    var p := s[i + 2..pe];
    var a := s[pe + 1..ae];
    TextTyped(p, a, t);
    assert s[i..ae + 2 + |t|] == s[i..i + 2] + p + s[pe..pe + 1] + a + s[ae..ae + 1] + s[ae + 1..ae + 2 + |t|];
  }

  lemma TypeAtSound(s: string, k: nat)
    requires k <= |s| && TypeAt(s, k).Some?
    ensures IsTypeName(TypeAt(s, k).value)
    ensures k + |TypeAt(s, k).value| + 1 <= |s| && s[k..k + |TypeAt(s, k).value| + 1] == TypeAt(s, k).value + "}"
  {
  }

  lemma AfterAliasSound(s: string, i: nat, pe: nat)
    requires i + 2 < pe < |s| && s[i] == '%' && s[i + 1] == '{' && s[pe] == ':'
    requires AllInClass(s[i + 2..pe], false)
    requires AfterAlias(s, i, pe, RunEnd(s, pe + 1, true)).Some?
    ensures var r := AfterAlias(s, i, pe, RunEnd(s, pe + 1, true)).value; PlaceholderAt(s, i, r.0, r.1)
  {
    var ae := RunEnd(s, pe + 1, true);
    assert AllInClass(s[pe + 1..ae], true);
    if s[ae] == '}' {
      SoundAlias(s, i, pe, ae);
    } else {
      TypeAtSound(s, ae + 1);
      SoundTyped(s, i, pe, ae, TypeAt(s, ae + 1).value);
    }
  }

  /** What `ParseAt` returns is a placeholder of the grammar, occupying exactly the returned span. */
  lemma ParseAtSound(s: string, i: nat)
    requires i <= |s| && ParseAt(s, i).Some?
    ensures PlaceholderAt(s, i, ParseAt(s, i).value.0, ParseAt(s, i).value.1)
  {
    var pe := RunEnd(s, i + 2, false);
    assert AllInClass(s[i + 2..pe], false);
    if s[pe] == '}' {
      SoundBare(s, i, pe);
    } else {
      AfterAliasSound(s, i, pe);
    }
  }

  /** Every placeholder of the grammar at position `i` is the one `ParseAt` finds there. */
  lemma ParseAtComplete(s: string, i: nat, ph: Placeholder, e: int)
    requires PlaceholderAt(s, i, ph, e)
    ensures ParseAt(s, i) == Some((ph, e))
  {
    var p := ph.pattern;
    var w := Text(ph);
    assert forall k :: 0 <= k < |w| ==> s[i + k] == w[k];
    var pe := i + 2 + |p|;
    match ph.alias
    case None =>
      TextBare(p);
      CompletePattern(s, i, p, w);
    case Some(a) =>
      CompleteAliased(s, i, ph, e);
  }

  lemma CompleteAliased(s: string, i: nat, ph: Placeholder, e: int)
    requires PlaceholderAt(s, i, ph, e) && ph.alias.Some?
    ensures ParseAt(s, i) == Some((ph, e))
  {
    var pe := i + 2 + |ph.pattern|;
    var ae := pe + 1 + |ph.alias.value|;
    CompleteAliasedParts(s, i, ph, e, pe, ae);
    assert AfterPattern(s, i, pe) == AfterAlias(s, i, pe, RunEnd(s, pe + 1, true));
  }

  /** The parser's reading of an aliased placeholder text at `i`: name up to `pe`, alias up to `ae`. */
  lemma CompleteAliasedParts(s: string, i: nat, ph: Placeholder, e: int, pe: nat, ae: nat)
    requires PlaceholderAt(s, i, ph, e) && ph.alias.Some?
    requires pe == i + 2 + |ph.pattern| && ae == pe + 1 + |ph.alias.value|
    ensures s[i] == '%' && s[i + 1] == '{'
    ensures RunEnd(s, i + 2, false) == pe && pe < |s| && s[pe] == ':'
    ensures RunEnd(s, pe + 1, true) == ae && ae <= |s|
    ensures AfterAlias(s, i, pe, ae) == Some((ph, e))
  {
    if ph.typ.None? {
      CompleteUntyped(s, i, ph, e, pe, ae);
    } else {
      CompleteTyped(s, i, ph, e, pe, ae);
    }
  }

  lemma CompleteUntyped(s: string, i: nat, ph: Placeholder, e: int, pe: nat, ae: nat)
    requires PlaceholderAt(s, i, ph, e) && ph.alias.Some? && ph.typ.None?
    requires pe == i + 2 + |ph.pattern| && ae == pe + 1 + |ph.alias.value|
    ensures s[i] == '%' && s[i + 1] == '{'
    ensures RunEnd(s, i + 2, false) == pe && pe < |s| && s[pe] == ':'
    ensures RunEnd(s, pe + 1, true) == ae && ae <= |s|
    ensures AfterAlias(s, i, pe, ae) == Some((ph, e))
  {
    var p := ph.pattern;
    var a := ph.alias.value;
    var w := Text(ph);
    TextAlias(p, a);
    assert w[..3 + |p| + |a|] == "%{" + p + ":" + a;
    CompleteAliasFacts(s, i, p, a, w, pe, ae);
    assert s[ae] == w[|w| - 1];
    CompleteTail(s, i, pe, ae, ph, e);
  }

  lemma CompleteTyped(s: string, i: nat, ph: Placeholder, e: int, pe: nat, ae: nat)
    requires PlaceholderAt(s, i, ph, e) && ph.alias.Some? && ph.typ.Some?
    requires pe == i + 2 + |ph.pattern| && ae == pe + 1 + |ph.alias.value|
    ensures s[i] == '%' && s[i + 1] == '{'
    ensures RunEnd(s, i + 2, false) == pe && pe < |s| && s[pe] == ':'
    ensures RunEnd(s, pe + 1, true) == ae && ae <= |s|
    ensures AfterAlias(s, i, pe, ae) == Some((ph, e))
  {
    CompleteTypedFacts(s, i, ph, e, pe, ae);
    CompleteTail(s, i, pe, ae, ph, e);
  }

  /** The parts of a typed placeholder text at `i`, where the parser reads them. */
  lemma CompleteTypedFacts(s: string, i: nat, ph: Placeholder, e: int, pe: nat, ae: nat)
    requires PlaceholderAt(s, i, ph, e) && ph.alias.Some? && ph.typ.Some?
    requires pe == i + 2 + |ph.pattern| && ae == pe + 1 + |ph.alias.value|
    ensures s[i] == '%' && s[i + 1] == '{'
    ensures RunEnd(s, i + 2, false) == pe && s[i + 2..pe] == ph.pattern
    ensures pe < |s| && s[pe] == ':'
    ensures RunEnd(s, pe + 1, true) == ae && s[pe + 1..ae] == ph.alias.value
    ensures ae + 2 + |ph.typ.value| <= |s| && s[ae] == ':'
    ensures s[ae + 1..ae + 2 + |ph.typ.value|] == ph.typ.value + "}"
    ensures e == ae + 2 + |ph.typ.value|
  {
    TypedTextParts(ph);
    PlaceholderSpan(s, i, ph, e);
    CompleteAliasFacts(s, i, ph.pattern, ph.alias.value, Text(ph), pe, ae);
    CompleteType(s, i, e, Text(ph), ae, ph.typ.value);
  }

  /** A placeholder's span is as long as its text. */
  lemma PlaceholderSpan(s: string, i: nat, ph: Placeholder, e: int)
    requires PlaceholderAt(s, i, ph, e)
    ensures e == i + |Text(ph)| && i + |Text(ph)| <= |s| && s[i..i + |Text(ph)|] == Text(ph)
  {
  }

  /** Where the alias part ends and the type part starts in a typed placeholder text. */
  lemma TypedTextParts(ph: Placeholder)
    requires ph.alias.Some? && ph.typ.Some?
    ensures var w := Text(ph);
      && |w| == 5 + |ph.pattern| + |ph.alias.value| + |ph.typ.value|
      && w[..3 + |ph.pattern| + |ph.alias.value|] == "%{" + ph.pattern + ":" + ph.alias.value
      && w[3 + |ph.pattern| + |ph.alias.value|] == ':'
      && w[|w| - |ph.typ.value| - 2..] == ":" + ph.typ.value + "}"
  {
    var p, a, t := ph.pattern, ph.alias.value, ph.typ.value;
    assert ph == Placeholder(p, Some(a), Some(t));
    var w := Text(ph);
    TextTyped(p, a, t);
    var x := "%{" + p + ":" + a;
    var y := ":" + t + "}";
    assert w == x + y;
    assert w[..|x|] == x;
    assert w[|x|..] == y;
  }

  lemma CompleteAliasFacts(s: string, i: nat, p: string, a: string, w: string, pe: nat, ae: nat)
    requires |p| > 0 && AllInClass(p, false) && |a| > 0 && AllInClass(a, true)
    requires 3 + |p| + |a| < |w| && w[..3 + |p| + |a|] == "%{" + p + ":" + a
    requires w[3 + |p| + |a|] == '}' || w[3 + |p| + |a|] == ':'
    requires i + |w| <= |s| && s[i..i + |w|] == w
    requires pe == i + 2 + |p| && ae == pe + 1 + |a|
    ensures s[i] == '%' && s[i + 1] == '{'
    ensures RunEnd(s, i + 2, false) == pe && s[i + 2..pe] == p
    ensures s[pe] == ':'
    ensures RunEnd(s, pe + 1, true) == ae && s[pe + 1..ae] == a
  {
    assert forall k :: 0 <= k < |w| ==> s[i + k] == w[k];
    assert w[..2 + |p|] == "%{" + p by {
      assert w[..2 + |p|] == w[..3 + |p| + |a|][..2 + |p|];
    }
    assert w[2 + |p|] == ':' by {
      assert w[2 + |p|] == w[..3 + |p| + |a|][2 + |p|];
    }
    CompletePattern(s, i, p, w);
    assert w[3 + |p|..3 + |p| + |a|] == a by {
      assert w[3 + |p|..3 + |p| + |a|] == w[..3 + |p| + |a|][3 + |p|..];
    }
    CompleteAlias(s, pe + 1, a, w, 3 + |p|);
  }

  lemma CompleteType(s: string, i: nat, e: int, w: string, ae: nat, t: string)
    requires i <= e <= |s| && s[i..e] == w
    requires i < ae && ae + 2 + |t| == e
    requires w[|w| - |t| - 2..] == ":" + t + "}"
    ensures s[ae] == ':' && s[ae + 1..ae + 2 + |t|] == t + "}"
  {
    assert s[ae..ae + 2 + |t|] == w[|w| - |t| - 2..];
    assert s[ae + 1..ae + 2 + |t|] == s[ae..ae + 2 + |t|][1..];
  }

  lemma CompleteTail(s: string, i: nat, pe: nat, ae: nat, ph: Placeholder, e: int)
    requires i + 2 < pe < ae < |s| && ph.alias.Some? && WellFormed(ph)
    requires s[i + 2..pe] == ph.pattern && s[pe + 1..ae] == ph.alias.value
    requires ph.typ.None? ==> s[ae] == '}' && e == ae + 1
    requires ph.typ.Some? ==> s[ae] == ':' && ae + 2 + |ph.typ.value| <= |s| && s[ae + 1..ae + 2 + |ph.typ.value|] == ph.typ.value + "}" && e == ae + 2 + |ph.typ.value|
    ensures AfterAlias(s, i, pe, ae) == Some((ph, e))
  {
    if ph.typ.Some? {
      var t := ph.typ.value;
      if t == "int" {
        assert t + "}" == "int}";
      } else {
        assert t + "}" == "float}";
        assert s[ae + 1] == 'f';
        assert s[ae + 1..ae + 5][0] == 'f';
      }
    }
  }

  /** The fragment name of a placeholder text at `i` is the word run after `%{`. */
  lemma CompletePattern(s: string, i: nat, p: string, w: string)
    requires |p| > 0 && AllInClass(p, false) && |w| > |p| + 2
    requires w[..2 + |p|] == "%{" + p && (w[2 + |p|] == '}' || w[2 + |p|] == ':')
    requires i + |w| <= |s| && forall k :: 0 <= k < |w| ==> s[i + k] == w[k]
    ensures s[i] == '%' && s[i + 1] == '{'
    ensures RunEnd(s, i + 2, false) == i + 2 + |p| && s[i + 2..i + 2 + |p|] == p
  {
    assert w[0] == '%' && w[1] == '{';
    forall k | 0 <= k < |p| ensures s[i + 2 + k] == p[k] {
      assert w[..2 + |p|][2 + k] == p[k];
    }
    forall j | i + 2 <= j < i + 2 + |p| ensures InClass(s[j], false) {
      assert s[j] == p[j - i - 2];
    }
    RunEndIs(s, i + 2, i + 2 + |p|, false);
    assert s[i + 2..i + 2 + |p|] == p;
  }

  /** The alias of a placeholder text is the alias run after the first `:`. */
  lemma CompleteAlias(s: string, j: nat, a: string, w: string, off: nat)
    requires |a| > 0 && AllInClass(a, true) && off + |a| < |w|
    requires w[off..off + |a|] == a && (w[off + |a|] == '}' || w[off + |a|] == ':')
    requires j >= off && j - off + |w| <= |s| && forall k :: 0 <= k < |w| ==> s[j - off + k] == w[k]
    ensures RunEnd(s, j, true) == j + |a| && s[j..j + |a|] == a
  {
    forall k | 0 <= k < |a| ensures s[j + k] == a[k] {
      assert w[off..off + |a|][k] == a[k];
    }
    forall k | j <= k < j + |a| ensures InClass(s[k], true) {
      assert s[k] == a[k - j];
    }
    RunEndIs(s, j, j + |a|, true);
    assert s[j..j + |a|] == a;
  }

  /** The scanner at a fixed start recognises exactly the grammar's placeholders. */
  lemma ParseAtCorrect(s: string, i: nat, ph: Placeholder, e: int)
    requires i <= |s|
    ensures ParseAt(s, i) == Some((ph, e)) <==> PlaceholderAt(s, i, ph, e)
  {
    if ParseAt(s, i) == Some((ph, e)) {
      ParseAtSound(s, i);
    }
    if PlaceholderAt(s, i, ph, e) {
      ParseAtComplete(s, i, ph, e);
    }
  }

  /** Where the leftmost placeholder starts, what it is and where it ends. */
  datatype Found = Found(start: nat, ph: Placeholder, end: nat)

  /** Leftmost placeholder at or after `from`. */
  function FindFrom(s: string, from: nat): (r: Option<Found>)
    requires from <= |s|
    ensures r.Some? ==> from <= r.value.start && PlaceholderAt(s, r.value.start, r.value.ph, r.value.end)
    ensures r.Some? ==> forall j, ph, e :: from <= j < r.value.start ==> !PlaceholderAt(s, j, ph, e)
    ensures r.None? ==> forall j, ph, e :: from <= j ==> !PlaceholderAt(s, j, ph, e)
    decreases |s| - from
  {
    match ParseAt(s, from)
    case Some((ph, e)) =>
      ParseAtSound(s, from);
      Some(Found(from, ph, e))
    case None =>
      assert forall ph, e :: !PlaceholderAt(s, from, ph, e) by {
        forall ph, e ensures !PlaceholderAt(s, from, ph, e) {
          ParseAtCorrect(s, from, ph, e);
        }
      }
      if from == |s| then None else FindFrom(s, from + 1)
  }

  /** The scanner's search: the leftmost placeholder in `s`, if any. */
  function Find(s: string): (r: Option<Found>)
    ensures r.Some? ==> PlaceholderAt(s, r.value.start, r.value.ph, r.value.end)
    ensures r.Some? ==> forall j, ph, e :: 0 <= j < r.value.start ==> !PlaceholderAt(s, j, ph, e)
    ensures r.None? <==> !HasPlaceholder(s)
  {
    FindFrom(s, 0)
  }

  /** One placeholder per start position: the grammar is unambiguous. */
  lemma PlaceholderUnique(s: string, i: nat, ph1: Placeholder, e1: int, ph2: Placeholder, e2: int)
    requires PlaceholderAt(s, i, ph1, e1) && PlaceholderAt(s, i, ph2, e2)
    ensures ph1 == ph2 && e1 == e2
  {
    ParseAtComplete(s, i, ph1, e1);
    ParseAtComplete(s, i, ph2, e2);
  }

  /** A placeholder with none before it is what the search finds. */
  lemma FindIs(s: string, i: nat, ph: Placeholder, e: int)
    requires PlaceholderAt(s, i, ph, e)
    requires forall j, ph', e' :: 0 <= j < i ==> !PlaceholderAt(s, j, ph', e')
    ensures Find(s) == Some(Found(i, ph, e))
  {
    var f := Find(s).value;
    PlaceholderUnique(s, i, ph, e, f.ph, f.end);
  }

  /** Placeholder texts are made of `%`, braces, `:` and alias characters only. */
  predicate InTextAlphabet(c: char) {
    c == '%' || c == '{' || c == '}' || c == ':' || IsAliasChar(c)
  }

  lemma TextAlphabet(ph: Placeholder)
    requires WellFormed(ph)
    ensures |Text(ph)| >= 4 && Text(ph)[0] == '%'
    ensures forall k :: 0 <= k < |Text(ph)| ==> InTextAlphabet(Text(ph)[k])
  {
    var w := Text(ph);
    var p := ph.pattern;
    match ph.alias
    case None =>
      TextBare(p);
    case Some(a) =>
      match ph.typ
      case None =>
        TextAlias(p, a);
      case Some(t) =>
        TextTyped(p, a, t);
  }

  /** A placeholder text holds exactly one `%`, its first character. */
  lemma TextOnePercent(ph: Placeholder)
    requires WellFormed(ph)
    ensures |Text(ph)| >= 4 && Text(ph)[0] == '%'
    ensures forall k :: 1 <= k < |Text(ph)| ==> Text(ph)[k] != '%'
  {
    var p := ph.pattern;
    match ph.alias
    case None =>
      TextBare(p);
    case Some(a) =>
      match ph.typ
      case None =>
        TextAlias(p, a);
      case Some(t) =>
        TextTyped(p, a, t);
  }

  /** Every placeholder starts at a `%`. */
  lemma PlaceholderStartsAtPercent(s: string, i: int, ph: Placeholder, e: int)
    requires PlaceholderAt(s, i, ph, e)
    ensures 0 <= i < |s| && s[i] == '%'
  {
    TextOnePercent(ph);
    assert s[i..e][0] == s[i];
  }

  /** A text without `%` holds no placeholder. */
  lemma NoPercentNoPlaceholder(s: string)
    requires '%' !in s
    ensures !HasPlaceholder(s)
  {
    forall i, ph, e | PlaceholderAt(s, i, ph, e) ensures false {
      PlaceholderStartsAtPercent(s, i, ph, e);
    }
  }

  /** A placeholder inside the middle part is a placeholder of the whole. */
  lemma PlaceholderInside(a: string, m: string, b: string)
    requires HasPlaceholder(m)
    ensures HasPlaceholder(a + m + b)
  {
    var i, ph, e :| PlaceholderAt(m, i, ph, e);
    assert (a + m + b)[|a| + i..|a| + e] == m[i..e];
    assert PlaceholderAt(a + m + b, |a| + i, ph, |a| + e);
  }

  /** A placeholder in `s` is an occurrence of its own text. */
  lemma PlaceholderIsOccurrence(s: string, i: int, ph: Placeholder, e: int)
    ensures PlaceholderAt(s, i, ph, e) <==> WellFormed(ph) && OccursAt(s, Text(ph), i) && e == i + |Text(ph)|
  {
  }

  /**
   * Wrapping a text without placeholders in a head without `%` and a closing
   * `)` creates none: the shape of the compiler's replacement groups.
   */
  lemma WrappedNoPlaceholder(head: string, mid: string)
    requires '%' !in head && !HasPlaceholder(mid)
    ensures !HasPlaceholder(head + mid + [')'])
  {
    var s := head + mid + [')'];
    forall i, ph, e | PlaceholderAt(s, i, ph, e) ensures false {
      TextAlphabet(ph);
      var t := Text(ph);
      assert ')' !in t by {
        forall k | 0 <= k < |t| ensures t[k] != ')' {
          assert InTextAlphabet(t[k]);
        }
      }
      assert OccursAt(s, t, i);
      WrappedFree(head, mid, ')', t);
      var k :| 0 <= k <= |mid| - |t| && OccursAt(mid, t, k);
      assert PlaceholderAt(mid, k, ph, k + |t|);
    }
  }
}
