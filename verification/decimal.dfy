/**
 * Decimal text of integers: Rust's `Display` for the generated group
 * counter (`format!("name{index}")`) and `str::parse::<i64>` for the `int`
 * type tag.
 */
module Decimal {
  import opened Wrappers

  predicate IsDigit(c: char) {
    '0' <= c <= '9'
  }

  predicate AllDigits(s: string) {
    forall i :: 0 <= i < |s| ==> IsDigit(s[i])
  }

  function DigitChar(d: nat): (c: char)
    requires d < 10
    ensures IsDigit(c)
  {
    ('0' as int + d) as char
  }

  function DigitOf(c: char): (d: nat)
    requires IsDigit(c)
    ensures d < 10 && DigitChar(d) == c
  {
    c as int - '0' as int
  }

  /** Value of a string of decimal digits, most significant digit first. */
  function ValueOf(s: string): nat
    requires AllDigits(s)
    decreases |s|
  {
    if |s| == 0 then 0 else 10 * ValueOf(s[..|s| - 1]) + DigitOf(s[|s| - 1])
  }

  /** Canonical decimal text: no leading zero, except for zero itself. */
  predicate Canonical(s: string) {
    |s| > 0 && AllDigits(s) && (|s| > 1 ==> s[0] != '0')
  }

  /** Decimal text of a natural number, as Rust's `Display` writes it. */
  function Show(n: nat): (r: string)
    ensures Canonical(r)
    decreases n
  {
    if n < 10 then [DigitChar(n)] else Show(n / 10) + [DigitChar(n % 10)]
  }

  /** Reading back the text of `n` gives `n`. */
  lemma {:induction false} ValueOfShow(n: nat)
    ensures ValueOf(Show(n)) == n
    decreases n
  {
    if n >= 10 {
      var s := Show(n);
      assert s[..|s| - 1] == Show(n / 10);
      ValueOfShow(n / 10);
    }
  }

  /** Different numbers have different texts. */
  lemma ShowInjective(a: nat, b: nat)
    requires Show(a) == Show(b)
    ensures a == b
  {
    ValueOfShow(a);
    ValueOfShow(b);
  }

  lemma {:induction false} LeadingNonZero(s: string)
    requires Canonical(s) && s[0] != '0'
    ensures ValueOf(s) >= 1
    decreases |s|
  {
    if |s| > 1 {
      LeadingNonZero(s[..|s| - 1]);
    }
  }

  /** Every canonical text is the text of its value: `Show` and `ValueOf` are inverse on canonical texts. */
  lemma {:induction false} ShowValueOf(s: string)
    requires Canonical(s)
    ensures Show(ValueOf(s)) == s
    decreases |s|
  {
    if |s| > 1 {
      var p := s[..|s| - 1];
      LeadingNonZero(p);
      ShowValueOf(p);
      assert s == p + [s[|s| - 1]];
    }
  }

  const I64Min: int := -0x8000_0000_0000_0000
  const I64Max: int := 0x7fff_ffff_ffff_ffff

  predicate InI64(v: int) {
    I64Min <= v <= I64Max
  }

  /**
   * `str::parse::<i64>`: an optional `+` or `-`, then one or more ASCII
   * digits (leading zeros allowed), whose signed value must fit in 64 bits.
   */
  function ParseI64(s: string): (r: Option<int>)
    ensures r.Some? ==> InI64(r.value)
    ensures r.Some? ==> |s| > 0 && forall i :: 0 <= i < |s| ==> IsDigit(s[i]) || (i == 0 && s[i] in "+-")
  {
    if |s| == 0 then None
    else
      var negative := s[0] == '-';
      var digits := if s[0] == '-' || s[0] == '+' then s[1..] else s;
      if |digits| == 0 || !AllDigits(digits) then None
      else
        var v: int := if negative then -(ValueOf(digits) as int) else ValueOf(digits);
        if InI64(v) then Some(v) else None
  }

  /** `Display` for a signed integer. */
  function ShowI64(v: int): (r: string)
    ensures |r| > 0
  {
    if v < 0 then "-" + Show(-v) else Show(v)
  }

  /** Every 64-bit integer reads back from its own text. */
  lemma ParseShowI64(v: int)
    requires InI64(v)
    ensures ParseI64(ShowI64(v)) == Some(v)
  {
    var s := ShowI64(v);
    if v < 0 {
      var d := Show(-v);
      assert s[0] == '-' && s[1..] == d;
      ValueOfShow(-v);
    } else {
      assert IsDigit(s[0]);
      ValueOfShow(v);
    }
  }

  /** A successfully parsed integer, printed again, is the input without `+` and leading zeros. */
  lemma ShowParseI64(s: string)
    requires Canonical(s) && ParseI64(s).Some?
    ensures ShowI64(ParseI64(s).value) == s
  {
    ShowValueOf(s);
  }

  /** A run of `0` characters. */
  predicate AllZeros(z: string) {
    forall i :: 0 <= i < |z| ==> z[i] == '0'
  }

  /** The signed value of a sign (`""`, `+` or `-`) and a magnitude. */
  function Signed(sign: string, n: nat): int {
    if sign == "-" then -(n as int) else n
  }

  lemma {:induction false} ZerosValue(z: string)
    requires AllZeros(z)
    ensures AllDigits(z) && ValueOf(z) == 0
    decreases |z|
  {
    if |z| > 0 {
      ZerosValue(z[..|z| - 1]);
    }
  }

  /** Leading zeros do not change the value of a digit string. */
  lemma {:induction false} ValueOfZeros(z: string, d: string)
    requires AllZeros(z) && AllDigits(d)
    ensures AllDigits(z + d) && ValueOf(z + d) == ValueOf(d)
    decreases |d|
  {
    if |d| == 0 {
      assert z + d == z;
      ZerosValue(z);
    } else {
      var d' := d[..|d| - 1];
      ValueOfZeros(z, d');
      assert (z + d)[..|z + d| - 1] == z + d';
    }
  }

  /** The sign part a text may start with: none, `+` or `-`. */
  predicate IsSign(sign: string) {
    sign == "" || sign == "+" || sign == "-"
  }

  /**
   * `str::parse::<i64>` on a sign, any number of leading zeros and the
   * decimal text of `n`: the signed value, exactly when it fits in 64 bits.
   */
  lemma ParseI64Reads(sign: string, z: string, n: nat)
    requires IsSign(sign) && AllZeros(z)
    ensures ParseI64(sign + z + Show(n)) == if InI64(Signed(sign, n)) then Some(Signed(sign, n)) else None
  {
    ZerosShow(z, n);
    Associate(sign, z, Show(n));
    ParseSignedDigits(sign + z + Show(n), sign, z + Show(n), n);
  }

  /** Leading zeros and the text of `n`: a non-empty digit string of value `n`. */
  lemma ZerosShow(z: string, n: nat)
    requires AllZeros(z)
    ensures AllDigits(z + Show(n)) && |z + Show(n)| > 0 && ValueOf(z + Show(n)) == n
  {
    ValueOfZeros(z, Show(n));
    ValueOfShow(n);
  }

  lemma Associate(a: string, b: string, c: string)
    ensures a + b + c == a + (b + c)
  {
  }

  /** A sign followed by a non-empty digit string reads as the signed value of the digits, when it fits. */
  lemma ParseSignedDigits(s: string, sign: string, d: string, n: nat)
    requires IsSign(sign) && s == sign + d && AllDigits(d) && |d| > 0 && ValueOf(d) == n
    ensures ParseI64(s) == if InI64(Signed(sign, n)) then Some(Signed(sign, n)) else None
  {
    if sign == "" {
      assert s == d;
      ParseBare(d, n);
    } else {
      ParseAfterSign(s, sign[0], d, n);
    }
  }

  /** Digits without a sign read as their value. */
  lemma ParseBare(d: string, n: nat)
    requires AllDigits(d) && |d| > 0 && ValueOf(d) == n
    ensures ParseI64(d) == if InI64(n) then Some(n) else None
  {
    assert IsDigit(d[0]);
  }

  /** Digits after a `+` read as their value, after a `-` as its negation. */
  lemma ParseAfterSign(s: string, c: char, d: string, n: nat)
    requires (c == '+' || c == '-') && s == [c] + d && AllDigits(d) && |d| > 0 && ValueOf(d) == n
    ensures var v := if c == '-' then -(n as int) else n;
      ParseI64(s) == if InI64(v) then Some(v) else None
  {
    assert s[0] == c && s[1..] == d;
  }

  /** A digit string is some leading zeros followed by the decimal text of its value. */
  lemma {:induction false} DigitsShape(d: string) returns (z: string)
    requires AllDigits(d) && |d| > 0
    ensures AllZeros(z) && d == z + Show(ValueOf(d))
    decreases |d|
  {
    if d[0] != '0' || |d| == 1 {
      ShowValueOf(d);
      z := [];
      assert d == z + Show(ValueOf(d));
    } else {
      var rest := d[1..];
      var z' := DigitsShape(rest);
      ValueOfZeros(['0'], rest);
      assert d == ['0'] + rest;
      z := ['0'] + z';
      Associate(['0'], z', Show(ValueOf(rest)));
    }
  }

  /** Every text `str::parse::<i64>` accepts is a sign, leading zeros and a decimal text, read as `ParseI64Reads` says. */
  lemma ParseI64Shape(s: string)
    requires ParseI64(s).Some?
    ensures exists sign, z, n: nat ::
      (IsSign(sign) && AllZeros(z) && s == sign + z + Show(n) && ParseI64(s).value == Signed(sign, n))
  {
    var sign := if s[0] == '-' || s[0] == '+' then [s[0]] else [];
    var digits := s[|sign|..];
    assert s == sign + digits && AllDigits(digits) && |digits| > 0;
    var n := ValueOf(digits);
    var z := DigitsShape(digits);
    Associate(sign, z, Show(n));
    ParseSignedDigits(s, sign, digits, n);
    assert IsSign(sign) && AllZeros(z) && s == sign + z + Show(n) && ParseI64(s).value == Signed(sign, n);
  }
}
