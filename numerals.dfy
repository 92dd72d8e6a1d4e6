/**
 * Decimal numerals as the Rust standard library reads and writes them:
 * `str::parse::<u16>()` / `str::parse::<u32>()` (an optional leading `+`,
 * at least one ASCII digit, no sign `-`, value within the type's range)
 * and `Display` for unsigned integers (no sign, no leading zeros).
 */
module Numerals {
  import opened Wrappers

  const U16_MAX: nat := 0xFFFF
  const U32_MAX: nat := 0xFFFF_FFFF

  /** Rust's `u16`. */
  type u16 = x: nat | x <= 0xFFFF
  /** Rust's `u32`. */
  type u32 = x: nat | x <= 0xFFFF_FFFF

  predicate IsDigit(c: char) { '0' <= c <= '9' }

  predicate AllDigits(s: string) { forall i :: 0 <= i < |s| ==> IsDigit(s[i]) }

  function DigitValue(c: char): nat
    requires IsDigit(c)
  {
    c as int - '0' as int
  }

  function DigitChar(d: nat): (c: char)
    requires d < 10
    ensures IsDigit(c) && DigitValue(c) == d
  {
    ('0' as int + d) as char
  }

  /** The value of the digits `s`, read after a value `acc` already read. */
  function ValueFrom(acc: nat, s: string): nat
    requires AllDigits(s)
  {
    if s == [] then acc else ValueFrom(acc, s[..|s| - 1]) * 10 + DigitValue(s[|s| - 1])
  }

  /** The value of a digit string, most significant digit first. */
  function DecimalValue(s: string): nat
    requires AllDigits(s)
  {
    ValueFrom(0, s)
  }

  /** The digits that follow Rust's optional leading `+`. */
  function Magnitude(s: string): string
  {
    if |s| > 0 && s[0] == '+' then s[1..] else s
  }

  /** The strings Rust's unsigned `from_str` reads as a number, whatever its size. */
  predicate IsUnsignedLiteral(s: string)
  {
    |Magnitude(s)| > 0 && AllDigits(Magnitude(s))
  }

  /**
   * The digit loop of Rust's `from_str_radix`: left to right, rejecting a
   * non-digit and stopping with an overflow error as soon as the value read
   * so far exceeds `max`.
   */
  function Accumulate(s: string, acc: nat, max: nat): Option<nat>
  {
    if s == [] then Some(acc)
    else if !IsDigit(s[0]) then None
    else
      var next := acc * 10 + DigitValue(s[0]);
      if next > max then None else Accumulate(s[1..], next, max)
  }

  lemma {:induction false} ValueFromCons(acc: nat, c: char, t: string)
    requires IsDigit(c) && AllDigits(t)
    ensures AllDigits([c] + t)
    ensures ValueFrom(acc, [c] + t) == ValueFrom(acc * 10 + DigitValue(c), t)
    decreases |t|
  {
    var s := [c] + t;
    if t != [] {
      assert s[..|s| - 1] == [c] + t[..|t| - 1];
      ValueFromCons(acc, c, t[..|t| - 1]);
    } else {
      assert s[..|s| - 1] == [];
    }
  }

  lemma {:induction false} ValueFromGrows(acc: nat, s: string)
    requires AllDigits(s)
    ensures ValueFrom(acc, s) >= acc
    decreases |s|
  {
    if s != [] { ValueFromGrows(acc, s[..|s| - 1]); }
  }

  /** The early overflow exit of the digit loop rejects exactly the values above `max`. */
  lemma {:induction false} AccumulateValue(s: string, acc: nat, max: nat)
    requires acc <= max
    ensures Accumulate(s, acc, max).Some? <==> AllDigits(s) && ValueFrom(acc, s) <= max
    ensures Accumulate(s, acc, max).Some? ==> Accumulate(s, acc, max).value == ValueFrom(acc, s)
    decreases |s|
  {
    if s != [] && IsDigit(s[0]) {
      var next := acc * 10 + DigitValue(s[0]);
      assert s == [s[0]] + s[1..];
      if AllDigits(s[1..]) {
        ValueFromCons(acc, s[0], s[1..]);
        if next > max {
          ValueFromGrows(next, s[1..]);
        }
      } else {
        assert !AllDigits(s);
      }
      if next <= max {
        AccumulateValue(s[1..], next, max);
      }
    }
  }

  /**
   * Rust's unsigned `str::parse` for a type whose largest value is `max`:
   * the value of the digits after an optional `+`, or an error for the empty
   * string, a lone `+`, any other character, or a value above `max`.
   */
  function ParseUnsigned(s: string, max: nat): (r: Option<nat>)
    ensures r.Some? <==> IsUnsignedLiteral(s) && DecimalValue(Magnitude(s)) <= max
    ensures r.Some? ==> r.value == DecimalValue(Magnitude(s)) && r.value <= max
  {
    var m := Magnitude(s);
    AccumulateValue(m, 0, max);
    if m == [] then None else Accumulate(m, 0, max)
  }

  /** `s.parse::<u16>()`. */
  function ParseU16(s: string): (r: Option<u16>)
    ensures r.Some? <==> IsUnsignedLiteral(s) && DecimalValue(Magnitude(s)) <= U16_MAX
    ensures r.Some? ==> r.value == DecimalValue(Magnitude(s))
  {
    match ParseUnsigned(s, U16_MAX)
    case Some(v) => Some(v)
    case None => None
  }

  /** `s.parse::<u32>()`. */
  function ParseU32(s: string): (r: Option<u32>)
    ensures r.Some? <==> IsUnsignedLiteral(s) && DecimalValue(Magnitude(s)) <= U32_MAX
    ensures r.Some? ==> r.value == DecimalValue(Magnitude(s))
  {
    match ParseUnsigned(s, U32_MAX)
    case Some(v) => Some(v)
    case None => None
  }

  /** Rust's `Display` for an unsigned integer: its decimal digits, without leading zeros. */
  function NatToString(n: nat): (s: string)
    ensures |s| > 0 && AllDigits(s)
    ensures DecimalValue(s) == n
    ensures |s| > 1 ==> s[0] != '0'
  {
    if n < 10 then
      var s := [DigitChar(n)];
      assert s[..|s| - 1] == [];
      assert ValueFrom(0, s) == ValueFrom(0, []) * 10 + DigitValue(s[0]);
      s
    else
      var init := NatToString(n / 10);
      var s := init + [DigitChar(n % 10)];
      assert s[..|s| - 1] == init;
      s
  }

  /** Different numbers print differently. */
  lemma NatToStringInjective(m: nat, n: nat)
    requires NatToString(m) == NatToString(n)
    ensures m == n
  {
  }

  /** Parsing what `Display` prints gives the number back, whenever it fits the type. */
  lemma ParseUnsignedOfNatToString(n: nat, max: nat)
    requires n <= max
    ensures ParseUnsigned(NatToString(n), max) == Some(n)
    ensures ParseUnsigned("+" + NatToString(n), max) == Some(n)
  {
    var s := NatToString(n);
    assert Magnitude(s) == s;
    assert Magnitude("+" + s) == s;
  }

  /** A number past the type's range is rejected, as are the empty string, a lone `+` and any `-` sign. */
  lemma ParseUnsignedRejects(n: nat, max: nat)
    ensures n > max ==> ParseUnsigned(NatToString(n), max) == None
    ensures ParseUnsigned("", max) == None
    ensures ParseUnsigned("+", max) == None
    ensures ParseUnsigned("-" + NatToString(n), max) == None
  {
    var s := NatToString(n);
    assert Magnitude(s) == s;
    assert Magnitude("+") == "";
    assert ("-" + s)[0] == '-';
  }
}
