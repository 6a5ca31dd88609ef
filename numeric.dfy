/**
 * Machine integer bounds and the two number conversions of Rust's standard
 * library that the server relies on: `from_str_radix` / `from_str` for
 * unsigned integer types, and `to_string` on unsigned integers.
 * The server is assumed to run on a 64-bit target (usize is 64 bits wide).
 */
module Numeric {
  import opened Wrappers

  /** An octet of the request buffer (Rust `u8`). */
  type Byte = b: int | 0 <= b < 256

  const U16_MAX: nat := 0xFFFF
  const U8_MAX: nat := 0xFF
  const USIZE_MAX: nat := 0xFFFF_FFFF_FFFF_FFFF
  const I64_MAX: nat := 0x7FFF_FFFF_FFFF_FFFF

  /** `char::to_digit(radix)`: the value of one ASCII digit or letter, if below the radix. */
  function DigitValue(c: char, radix: nat): (r: Option<nat>)
    requires 2 <= radix <= 36
    ensures r.Some? ==> r.value < radix
    ensures '0' <= c <= '9' && (c as int - '0' as int) < radix ==> r == Some(c as int - '0' as int)
  {
    var v :=
      if '0' <= c <= '9' then c as int - '0' as int
      else if 'a' <= c <= 'z' then c as int - 'a' as int + 10
      else if 'A' <= c <= 'Z' then c as int - 'A' as int + 10
      else 36;
    if v < radix then Some(v) else None
  }

  predicate AllDigits(s: string, radix: nat)
    requires 2 <= radix <= 36
  {
    forall i :: 0 <= i < |s| ==> DigitValue(s[i], radix).Some?
  }

  lemma NatProduct(a: nat, b: nat)
    ensures a * b >= 0
  {
  }

  /** Positional value of a run of digits, most significant first. */
  function DigitsValue(s: string, radix: nat): nat
    requires 2 <= radix <= 36
    requires AllDigits(s, radix)
  {
    if s == [] then 0
    else
      var init := s[..|s| - 1];
      assert forall i :: 0 <= i < |init| ==> init[i] == s[i];
      var high: nat := DigitsValue(init, radix);
      assert DigitValue(s[|s| - 1], radix).Some?;
      NatProduct(high, radix);
      high * radix + DigitValue(s[|s| - 1], radix).value
  }

  /**
   * `uN::from_str_radix(s, radix)` for an unsigned type whose largest value is
   * `max`: empty input, a lone sign, a `-` sign, a non-digit or a value above
   * `max` are errors; one leading `+` is accepted.
   */
  function ParseUnsigned(s: string, radix: nat, max: nat): (r: Option<nat>)
    requires 2 <= radix <= 36
    ensures r.Some? ==> r.value <= max
    ensures r.Some? ==> s != [] && s != "+"
    ensures s == [] || s == "+" || s == "-" ==> r == None
  {
    if s == [] || s == "+" || s == "-" then None
    else
      var digits := if s[0] == '+' then s[1..] else s;
      if AllDigits(digits, radix) && DigitsValue(digits, radix) <= max
      then Some(DigitsValue(digits, radix))
      else None
  }

  function DecimalDigit(d: nat): (c: char)
    requires d < 10
    ensures '0' <= c <= '9'
    ensures DigitValue(c, 10) == Some(d)
  {
    ('0' as int + d) as char
  }

  /** `to_string()` of an unsigned integer: its shortest decimal numeral. */
  function Decimal(n: nat): (s: string)
    ensures s != []
    ensures AllDigits(s, 10)
    ensures s[0] != '+' && s[0] != '-'
    ensures s[0] == '0' ==> n == 0
  {
    if n < 10 then [DecimalDigit(n)]
    else Decimal(n / 10) + [DecimalDigit(n % 10)]
  }

  lemma {:induction false} DecimalValue(n: nat)
    ensures DigitsValue(Decimal(n), 10) == n
  {
    if n >= 10 {
      var s := Decimal(n);
      assert s[..|s| - 1] == Decimal(n / 10);
      DecimalValue(n / 10);
    }
  }

  /** Parsing what `to_string` printed gives the number back, whenever it fits. */
  lemma DecimalRoundTrip(n: nat, max: nat)
    requires n <= max
    ensures ParseUnsigned(Decimal(n), 10, max) == Some(n)
  {
    DecimalValue(n);
  }

  /** A decimal numeral only fails to parse when its value overflows. */
  lemma {:induction false} ParseDigitsOnly(s: string, max: nat)
    requires s != [] && AllDigits(s, 10)
    ensures ParseUnsigned(s, 10, max) == if DigitsValue(s, 10) <= max then Some(DigitsValue(s, 10)) else None
  {
    assert DigitValue(s[0], 10).Some?;
  }
}
