/** Decimal text of integers, as Rust's `Display` writes it and `str::parse` reads it. */
module Decimal {
  import opened Wrappers

  predicate IsDigit(c: char) {
    '0' <= c <= '9'
  }

  predicate AllDigits(s: string) {
    forall i :: 0 <= i < |s| ==> IsDigit(s[i])
  }

  function DigitValue(c: char): nat
    requires IsDigit(c)
  {
    c as int - '0' as int
  }

  function Digit(n: nat): (c: char)
    requires n < 10
    ensures IsDigit(c) && DigitValue(c) == n
  {
    (n + '0' as int) as char
  }

  /** The number a string of decimal digits denotes; leading zeros are allowed. */
  function Value(s: string): nat
    requires AllDigits(s)
  {
    if |s| == 0 then 0 else Value(s[..|s| - 1]) * 10 + DigitValue(s[|s| - 1])
  }

  /** Shortest decimal form of a natural number: no sign, no leading zero. */
  function ShowNat(n: nat): (r: string)
    ensures 0 < |r|
    ensures AllDigits(r)
    ensures Value(r) == n
    ensures r[0] == '0' ==> r == "0"
  {
    if n < 10 then [Digit(n)]
    else
      var r := ShowNat(n / 10) + [Digit(n % 10)];
      assert r[..|r| - 1] == ShowNat(n / 10);
      r
  }

  /** Decimal form of an integer, with a leading '-' when it is negative. */
  function ShowInt(i: int): (r: string)
    ensures 0 < |r|
    ensures i < 0 <==> r[0] == '-'
  {
    if i < 0 then "-" + ShowNat(-i) else ShowNat(i)
  }

  /**
   * `str::parse` for an unsigned integer type whose largest value is `max`:
   * an optional '+', then at least one digit and nothing else; a value above
   * `max` is an overflow error.
   */
  function ParseUnsigned(s: string, max: nat): (r: Option<nat>)
    ensures r.Some? ==> r.value <= max
    ensures |s| > 0 && s[0] == '-' ==> r == None
  {
    var digits := if 0 < |s| && s[0] == '+' then s[1..] else s;
    if |digits| == 0 || !AllDigits(digits) || max < Value(digits) then None
    else Some(Value(digits))
  }

  /**
   * `str::parse` for a signed integer type with range `min..=max`: an
   * optional sign, then at least one digit and nothing else.
   */
  function ParseSigned(s: string, min: int, max: int): (r: Option<int>)
    ensures r.Some? ==> min <= r.value <= max
  {
    var negative := 0 < |s| && s[0] == '-';
    var digits := if 0 < |s| && (s[0] == '+' || s[0] == '-') then s[1..] else s;
    if |digits| == 0 || !AllDigits(digits) then None
    else
      var v: int := if negative then 0 - (Value(digits) as int) else Value(digits);
      if v < min || max < v then None else Some(v)
  }

  /** Printing then parsing an unsigned number gives it back exactly when it fits. */
  lemma UnsignedRoundTrip(n: nat, max: nat)
    ensures ParseUnsigned(ShowNat(n), max) == (if n <= max then Some(n) else None)
  {
  }

  /** Printing then parsing a signed number in range gives it back. */
  lemma SignedRoundTrip(i: int, min: int, max: int)
    requires min <= i <= max
    ensures ParseSigned(ShowInt(i), min, max) == Some(i)
  {
    var s := ShowInt(i);
    if i < 0 {
      assert s[1..] == ShowNat(-i);
    }
  }

  /** Digit strings, and decimal forms of naturals, never contain `c` when `c` is not a digit. */
  lemma ShowNatAvoids(n: nat, c: char)
    requires !IsDigit(c)
    ensures c !in ShowNat(n)
  {
  }
}
