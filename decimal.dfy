/**
 * Unsigned 64-bit integers and their decimal text: the rendering used by
 * Rust's `Display` for `u64` and the parser behind `u64::from_str`.
 */
module Decimal {
  import opened Wrappers

  const U64_MAX: int := 0xFFFF_FFFF_FFFF_FFFF

  type u64 = x: int | 0 <= x <= U64_MAX

  /** Why a `u64` literal was refused (Rust's `IntErrorKind`, the cases `u64` can give). */
  datatype IntErrorKind = Empty | InvalidDigit | PosOverflow

  predicate IsDigit(c: char)
  {
    '0' <= c <= '9'
  }

  function DigitValue(c: char): (d: nat)
    requires IsDigit(c)
    ensures d < 10
  {
    c as int - '0' as int
  }

  function DigitChar(d: nat): (c: char)
    requires d < 10
    ensures IsDigit(c) && DigitValue(c) == d
  {
    ('0' as int + d) as char
  }

  predicate AllDigits(s: string)
  {
    forall i :: 0 <= i < |s| ==> IsDigit(s[i])
  }

  /** The number a string of decimal digits denotes, most significant digit first. */
  function Value(s: string): nat
    requires AllDigits(s)
  {
    if s == [] then 0 else 10 * Value(s[..|s| - 1]) + DigitValue(s[|s| - 1])
  }

  /** Canonical decimal text: at least one digit, and no leading zero unless it is "0". */
  predicate Canonical(s: string)
  {
    |s| > 0 && AllDigits(s) && (s[0] == '0' ==> |s| == 1)
  }

  /** The decimal text of `n`, as `Display` writes an unsigned integer. */
  function ToDecimal(n: nat): (s: string)
    ensures Canonical(s) && Value(s) == n
    decreases n
  {
    if n < 10 then [DigitChar(n)]
    else
      var init := ToDecimal(n / 10);
      var s := init + [DigitChar(n % 10)];
      assert s[..|s| - 1] == init;
      s
  }

  /** A digit string with a non-zero first digit denotes a positive number. */
  lemma {:induction false} ValuePositive(s: string)
    requires AllDigits(s) && |s| > 0 && s[0] != '0'
    ensures Value(s) > 0
  {
    if |s| > 1 {
      ValuePositive(s[..|s| - 1]);
    }
  }

  /** Canonical text is the rendering of the number it denotes, so the rendering is unique. */
  lemma {:induction false} CanonicalIsRendering(s: string)
    requires Canonical(s)
    ensures ToDecimal(Value(s)) == s
  {
    var last := s[|s| - 1];
    if |s| == 1 {
      assert DigitChar(DigitValue(last)) == last;
      assert s == [last];
    } else {
      var init := s[..|s| - 1];
      assert init[0] == s[0] != '0';
      ValuePositive(init);
      CanonicalIsRendering(init);
      var n := Value(s);
      assert n == 10 * Value(init) + DigitValue(last);
      assert n / 10 == Value(init) && n % 10 == DigitValue(last);
      assert DigitChar(DigitValue(last)) == last;
      assert s == init + [last];
    }
  }

  /** The length of the run of digits that `s` starts with. */
  function DigitRun(s: string): (k: nat)
    ensures k <= |s| && AllDigits(s[..k])
    ensures k < |s| ==> !IsDigit(s[k])
  {
    if s == [] then 0
    else
      var init := s[..|s| - 1];
      var k := DigitRun(init);
      if k == |init| && IsDigit(s[|s| - 1]) then
        assert s[..|s|] == s;
        |s|
      else
        assert s[..k] == init[..k];
        k
  }

  /** The text after an optional leading '+'. */
  function Unsigned(s: string): string
  {
    if |s| > 0 && s[0] == '+' then s[1..] else s
  }

  /** `s` is a literal that `u64::from_str` accepts. */
  predicate IsU64Literal(s: string)
  {
    var d := Unsigned(s);
    |d| > 0 && AllDigits(d) && Value(d) <= U64_MAX
  }

  function LiteralValue(s: string): u64
    requires IsU64Literal(s)
  {
    Value(Unsigned(s))
  }

  /** One step of the digit loop: reject a non-digit, then multiply and add with overflow checks. */
  function Step(acc: u64, c: char): Result<u64, IntErrorKind>
  {
    if !IsDigit(c) then Err(InvalidDigit)
    else if acc * 10 > U64_MAX then Err(PosOverflow)
    else if acc * 10 + DigitValue(c) > U64_MAX then Err(PosOverflow)
    else Ok(acc * 10 + DigitValue(c))
  }

  /** The digit loop over `d`, left to right, stopping at the first error. */
  function Accumulate(d: string): Result<u64, IntErrorKind>
  {
    if d == [] then Ok(0)
    else
      match Accumulate(d[..|d| - 1])
      case Err(e) => Err(e)
      case Ok(acc) => Step(acc, d[|d| - 1])
  }

  /**
   * The digit loop overflows exactly when the leading run of digits denotes
   * more than U64_MAX; otherwise it stops at the first non-digit if there is
   * one, and otherwise yields the value of the digits.
   */
  lemma {:induction false} AccumulateOutcome(d: string)
    ensures var k := DigitRun(d);
            Accumulate(d) ==
              if Value(d[..k]) > U64_MAX then Err(PosOverflow)
              else if k < |d| then Err(InvalidDigit)
              else Ok(Value(d))
  {
    if d != [] {
      var init := d[..|d| - 1];
      var c := d[|d| - 1];
      var ki := DigitRun(init);
      var k := DigitRun(d);
      AccumulateOutcome(init);
      if ki < |init| {
        assert d[..k] == init[..ki];
      } else {
        assert init[..ki] == init;
        if IsDigit(c) {
          assert d[..k] == d;
          assert Value(d) == 10 * Value(init) + DigitValue(c);
        } else {
          assert d[..k] == init;
        }
      }
    }
  }

  /**
   * Rust's `u64::from_str`: an optional single '+', then one or more ASCII
   * decimal digits whose value fits in 64 bits. A sign alone is an invalid
   * digit; '-' is never accepted.
   */
  function ParseU64(s: string): (r: Result<u64, IntErrorKind>)
    ensures r.Ok? <==> IsU64Literal(s)
    ensures r.Ok? ==> r.value == LiteralValue(s)
    ensures r == Err(Empty) <==> s == []
    ensures var d := Unsigned(s);
            r == Err(PosOverflow) <==> Value(d[..DigitRun(d)]) > U64_MAX
    ensures var d := Unsigned(s);
            r == Err(InvalidDigit) <==> s != [] && !IsU64Literal(s) && Value(d[..DigitRun(d)]) <= U64_MAX
  {
    if s == [] then Err(Empty)
    else if |s| == 1 && (s[0] == '+' || s[0] == '-') then Err(InvalidDigit)
    else
      var d := if s[0] == '+' then s[1..] else s;
      AccumulateOutcome(d);
      assert d[..|d|] == d;
      Accumulate(d)
  }

  /** Rendering then parsing a `u64` gives it back. */
  lemma DecimalRoundTrip(n: u64)
    ensures ParseU64(ToDecimal(n)) == Ok(n)
  {
    var s := ToDecimal(n);
    assert Unsigned(s) == s;
  }
}
