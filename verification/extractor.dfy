/**
 * The compiled pattern and the extractor (`Pattern::parse`): after a match,
 * every alias-map entry whose group took part is coerced by its type tag and
 * stored under its external name.
 *
 * The regular-expression engine is not modelled: `engine(regex, text)`
 * stands for running the compiled expression on the text, giving `None` when
 * nothing matches, else the text captured by each named group that took part
 * in the first match. Float parsing is the opaque `parseFloat`, giving the
 * IEEE-754 bit pattern of the parsed `f64`.
 */
module Extractor {
  import opened Wrappers
  import opened Decimal

  /** An extracted field value; a float is carried as its 64-bit pattern. */
  datatype Value = Int(i: int) | Float(bits: bv64) | Str(s: string)

  /** Alias-map entry: the external field name and the optional type tag. */
  datatype AliasEntry = AliasEntry(external: string, typ: Option<string>)

  /** Generated group name to alias-map entry. */
  type AliasMap = map<string, AliasEntry>

  /** A compiled pattern: the expanded regular-expression text and its alias map. */
  datatype Pattern = Pattern(regex: string, aliases: AliasMap)

  /** Text captured by each named group that took part in a match. */
  type Captures = map<string, string>

  /** A captured text failed its `int` or `float` conversion. */
  datatype ParseError = ConversionFailed

  /**
   * Coercion of a captured text by its type tag: `int` parses an `i64`,
   * `float` parses an `f64`, anything else (or no tag) keeps the text.
   */
  function Coerce(raw: string, typ: Option<string>, parseFloat: string -> Option<bv64>): (r: Result<Value, ParseError>)
    ensures r.Err? ==> typ == Some("int") || typ == Some("float")
    ensures (typ.None? || (typ.value != "int" && typ.value != "float")) ==> r == Ok(Str(raw))
    ensures r.Ok? && r.value.Int? ==> typ == Some("int") && InI64(r.value.i)
    ensures r.Ok? && r.value.Float? ==> typ == Some("float") && parseFloat(raw) == Some(r.value.bits)
    ensures typ == Some("int") ==> (r.Ok? <==> ParseI64(raw).Some?)
    ensures typ == Some("int") && r.Ok? ==> r == Ok(Int(ParseI64(raw).value))
    ensures typ == Some("float") ==> (r.Ok? <==> parseFloat(raw).Some?)
    ensures typ == Some("float") && r.Ok? ==> r == Ok(Float(parseFloat(raw).value))
  {
    match typ
    case Some(t) =>
      if t == "int" then
        match ParseI64(raw)
        case None => Err(ConversionFailed)
        case Some(v) => Ok(Int(v))
      else if t == "float" then
        match parseFloat(raw)
        case None => Err(ConversionFailed)
        case Some(b) => Ok(Float(b))
      else Ok(Str(raw))
    case None => Ok(Str(raw))
  }

  /** Every 64-bit integer, captured as its decimal text under an `int` tag, is extracted as itself. */
  lemma CoerceIntRoundTrip(v: int, parseFloat: string -> Option<bv64>)
    requires InI64(v)
    ensures Coerce(ShowI64(v), Some("int"), parseFloat) == Ok(Int(v))
  {
    ParseShowI64(v);
  }

  /** Group `n` has an alias entry and took part in the match. */
  predicate Participates(aliases: AliasMap, caps: Captures, n: string) {
    n in aliases && n in caps
  }

  /** The coercion of a participating group's capture. */
  function CoerceGroup(aliases: AliasMap, caps: Captures, n: string, parseFloat: string -> Option<bv64>): Result<Value, ParseError>
    requires Participates(aliases, caps, n)
  {
    Coerce(caps[n], aliases[n].typ, parseFloat)
  }

  /** Group `n` took part and its capture fails conversion. */
  predicate Fails(aliases: AliasMap, caps: Captures, n: string, parseFloat: string -> Option<bv64>) {
    Participates(aliases, caps, n) && CoerceGroup(aliases, caps, n, parseFloat).Err?
  }

  /** `v` is what some participating group with external name `key` coerces to. */
  ghost predicate IsCandidate(aliases: AliasMap, caps: Captures, key: string, v: Value, parseFloat: string -> Option<bv64>) {
    exists n :: Participates(aliases, caps, n) && aliases[n].external == key
      && CoerceGroup(aliases, caps, n, parseFloat) == Ok(v)
  }

  /** External names of the groups that took part. */
  function Externals(aliases: AliasMap, caps: Captures): set<string> {
    set n | n in aliases && n in caps :: aliases[n].external
  }

  /**
   * The extraction loop over the alias map, visited in the order `order`;
   * `acc` is the result map built so far. A failed conversion ends the loop.
   */
  function Extract(aliases: AliasMap, caps: Captures, order: seq<string>, acc: map<string, Value>,
                   parseFloat: string -> Option<bv64>): (r: Result<map<string, Value>, ParseError>)
    requires forall n :: n in order ==> n in aliases
    ensures r.Err? <==> exists n :: n in order && Fails(aliases, caps, n, parseFloat)
    decreases |order|
  {
    if |order| == 0 then Ok(acc)
    else
      var n := order[0];
      assert forall m :: m in order <==> m == n || m in order[1..];
      if n in caps then
        match CoerceGroup(aliases, caps, n, parseFloat)
        case Err(e) =>
          assert Fails(aliases, caps, n, parseFloat);
          Err(e)
        case Ok(v) =>
          assert !Fails(aliases, caps, n, parseFloat);
          Extract(aliases, caps, order[1..], acc[aliases[n].external := v], parseFloat)
      else
        assert !Fails(aliases, caps, n, parseFloat);
        Extract(aliases, caps, order[1..], acc, parseFloat)
  }

  /**
   * A finished loop holds the starting entries and one entry per external
   * name of a participating group; each value is a starting one or the
   * conversion of some group with that external name.
   */
  lemma {:induction false} ExtractOk(aliases: AliasMap, caps: Captures, order: seq<string>, acc: map<string, Value>,
                                     parseFloat: string -> Option<bv64>)
    requires forall n :: n in order ==> n in aliases
    ensures var r := Extract(aliases, caps, order, acc, parseFloat);
      r.Ok? ==> r.value.Keys == acc.Keys + set n | n in order && n in caps :: aliases[n].external
    ensures var r := Extract(aliases, caps, order, acc, parseFloat);
      r.Ok? ==> forall k :: k in r.value ==>
        (k in acc && r.value[k] == acc[k]) ||
        (exists n :: n in order && n in caps && aliases[n].external == k && CoerceGroup(aliases, caps, n, parseFloat) == Ok(r.value[k]))
    decreases |order|
  {
    if |order| > 0 {
      var n := order[0];
      assert forall m :: m in order <==> m == n || m in order[1..];
      if n in caps {
        if CoerceGroup(aliases, caps, n, parseFloat).Ok? {
          ExtractOk(aliases, caps, order[1..], acc[aliases[n].external := CoerceGroup(aliases, caps, n, parseFloat).value], parseFloat);
        }
      } else {
        ExtractOk(aliases, caps, order[1..], acc, parseFloat);
      }
    }
  }

  /** An iteration order of a map: each key of `keys` is visited, nothing else. */
  ghost predicate IsEnumeration(order: seq<string>, keys: set<string>) {
    forall n :: n in order <==> n in keys
  }

  /**
   * `Pattern::parse`: no match gives the empty map; otherwise each alias
   * entry whose group took part is coerced and inserted under its external
   * name, in the order the alias map is iterated (`order`).
   */
  function Parse(p: Pattern, text: string, engine: (string, string) -> Option<Captures>, order: seq<string>,
                 parseFloat: string -> Option<bv64>): (r: Result<map<string, Value>, ParseError>)
    requires IsEnumeration(order, p.aliases.Keys)
    ensures engine(p.regex, text).None? ==> r == Ok(map[])
    ensures engine(p.regex, text).Some? ==>
      var caps := engine(p.regex, text).value;
      && (r.Err? <==> exists n :: Fails(p.aliases, caps, n, parseFloat))
      && (r.Ok? ==> r.value.Keys == Externals(p.aliases, caps))
      && (r.Ok? ==> forall k :: k in r.value ==> IsCandidate(p.aliases, caps, k, r.value[k], parseFloat))
  {
    match engine(p.regex, text)
    case None => Ok(map[])
    case Some(caps) =>
      var r := Extract(p.aliases, caps, order, map[], parseFloat);
      ExtractOk(p.aliases, caps, order, map[], parseFloat);
      assert r.Ok? ==> r.value.Keys == Externals(p.aliases, caps) by {
        assert (set n | n in order && n in caps :: p.aliases[n].external) == Externals(p.aliases, caps);
      }
      r
  }

  /** No two participating groups that share an external name disagree on the value. */
  ghost predicate Unambiguous(aliases: AliasMap, caps: Captures, parseFloat: string -> Option<bv64>) {
    forall n1, n2 ::
      Participates(aliases, caps, n1) && Participates(aliases, caps, n2) && aliases[n1].external == aliases[n2].external
      && CoerceGroup(aliases, caps, n1, parseFloat).Ok? && CoerceGroup(aliases, caps, n2, parseFloat).Ok?
      ==> CoerceGroup(aliases, caps, n1, parseFloat) == CoerceGroup(aliases, caps, n2, parseFloat)
  }

  /** When shared external names never disagree, the iteration order does not matter. */
  lemma ParseOrderIrrelevant(p: Pattern, text: string, engine: (string, string) -> Option<Captures>,
                             o1: seq<string>, o2: seq<string>, parseFloat: string -> Option<bv64>)
    requires IsEnumeration(o1, p.aliases.Keys) && IsEnumeration(o2, p.aliases.Keys)
    requires engine(p.regex, text).Some? ==> Unambiguous(p.aliases, engine(p.regex, text).value, parseFloat)
    ensures Parse(p, text, engine, o1, parseFloat) == Parse(p, text, engine, o2, parseFloat)
  {
    var r1 := Parse(p, text, engine, o1, parseFloat);
    var r2 := Parse(p, text, engine, o2, parseFloat);
    if engine(p.regex, text).Some? && r1.Ok? {
      var caps := engine(p.regex, text).value;
      var m1 := r1.value;
      var m2 := r2.value;
      forall k | k in m1 ensures m1[k] == m2[k] {
        assert IsCandidate(p.aliases, caps, k, m1[k], parseFloat);
        assert IsCandidate(p.aliases, caps, k, m2[k], parseFloat);
        var g1 :| Participates(p.aliases, caps, g1) && p.aliases[g1].external == k
          && CoerceGroup(p.aliases, caps, g1, parseFloat) == Ok(m1[k]);
        var g2 :| Participates(p.aliases, caps, g2) && p.aliases[g2].external == k
          && CoerceGroup(p.aliases, caps, g2, parseFloat) == Ok(m2[k]);
      }
      assert m1 == m2;
    } else if engine(p.regex, text).Some? {
      assert r2.Err?;
      assert r1.error == ConversionFailed && r2.error == ConversionFailed;
    }
  }

  /**
   * Two groups sharing one external name, both participating, with
   * different values: each of them wins under some iteration order, so the
   * result for that name is not fixed by the pattern and the text alone.
   */
  lemma SharedAliasEitherWins(p: Pattern, text: string, engine: (string, string) -> Option<Captures>,
                              n1: string, n2: string, parseFloat: string -> Option<bv64>)
    requires p.aliases.Keys == {n1, n2} && n1 != n2
    requires p.aliases[n1].external == p.aliases[n2].external
    requires engine(p.regex, text).Some?
    requires var caps := engine(p.regex, text).value;
      Participates(p.aliases, caps, n1) && Participates(p.aliases, caps, n2)
      && CoerceGroup(p.aliases, caps, n1, parseFloat).Ok? && CoerceGroup(p.aliases, caps, n2, parseFloat).Ok?
    ensures var caps := engine(p.regex, text).value;
      var k := p.aliases[n1].external;
      && Parse(p, text, engine, [n1, n2], parseFloat) == Ok(map[k := CoerceGroup(p.aliases, caps, n2, parseFloat).value])
      && Parse(p, text, engine, [n2, n1], parseFloat) == Ok(map[k := CoerceGroup(p.aliases, caps, n1, parseFloat).value])
  {
    var caps := engine(p.regex, text).value;
    var k := p.aliases[n1].external;
    var v1 := CoerceGroup(p.aliases, caps, n1, parseFloat).value;
    var v2 := CoerceGroup(p.aliases, caps, n2, parseFloat).value;
    assert [n1, n2][1..] == [n2] && [n2, n1][1..] == [n1];
    assert [n2][1..] == [] && [n1][1..] == [];
    calc {
      Parse(p, text, engine, [n1, n2], parseFloat);
      Extract(p.aliases, caps, [n1, n2], map[], parseFloat);
      Extract(p.aliases, caps, [n2], map[k := v1], parseFloat);
      Extract(p.aliases, caps, [], map[k := v1][k := v2], parseFloat);
      { assert map[k := v1][k := v2] == map[k := v2]; }
      Ok(map[k := v2]);
    }
    calc {
      Parse(p, text, engine, [n2, n1], parseFloat);
      Extract(p.aliases, caps, [n2, n1], map[], parseFloat);
      Extract(p.aliases, caps, [n1], map[k := v2], parseFloat);
      Extract(p.aliases, caps, [], map[k := v2][k := v1], parseFloat);
      { assert map[k := v2][k := v1] == map[k := v1]; }
      Ok(map[k := v1]);
    }
  }
}
