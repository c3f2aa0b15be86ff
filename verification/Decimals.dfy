/** Integers as RESP2 fields: printed as digits with a leading minus, and read back strictly. */
module Decimals {
  import opened Basics

  const MINUS: byte := 45
  const I64_MIN: int := -0x8000_0000_0000_0000
  const I64_MAX: int := 0x7FFF_FFFF_FFFF_FFFF

  predicate IsDigit(b: byte)
  {
    48 <= b <= 57
  }

  predicate AllDigits(s: seq<byte>)
  {
    forall i :: 0 <= i < |s| ==> IsDigit(s[i])
  }

  /** The number a run of digits writes. */
  function Value(digits: seq<byte>): nat
    requires AllDigits(digits)
  {
    if digits == [] then 0
    else 10 * Value(digits[..|digits| - 1]) + (digits[|digits| - 1] - 48) as nat
  }

  /** An optional minus and at least one digit, nothing else, within 64 bits. */
  function ParseI64(field: seq<byte>): Option<int>
  {
    var negative := field != [] && field[0] == MINUS;
    var digits := if negative then field[1..] else field;
    if digits == [] || !AllDigits(digits) then None
    else
      var n := if negative then -(Value(digits) as int) else Value(digits) as int;
      if I64_MIN <= n <= I64_MAX then Some(n) else None
  }

  function Digits(n: nat): (r: seq<byte>)
    ensures r != [] && AllDigits(r)
  {
    var last := [(n % 10 + 48) as byte];
    if n < 10 then last else Digits(n / 10) + last
  }

  function Decimal(n: int): (r: seq<byte>)
    ensures forall i :: 0 <= i < |r| ==> r[i] == MINUS || IsDigit(r[i])
  {
    if n < 0 then [MINUS] + Digits(-n) else Digits(n)
  }

  lemma {:induction false} DigitsRoundTrip(n: nat)
    ensures Value(Digits(n)) == n
  {
    if n >= 10 {
      DigitsRoundTrip(n / 10);
      var d := Digits(n);
      assert d[..|d| - 1] == Digits(n / 10);
    }
  }

  /** Every 64-bit integer reads back as itself. */
  lemma DecimalRoundTrip(n: int)
    requires I64_MIN <= n <= I64_MAX
    ensures ParseI64(Decimal(n)) == Some(n)
  {
    if n < 0 {
      DigitsRoundTrip(-n);
      assert Decimal(n)[1..] == Digits(-n);
    } else {
      DigitsRoundTrip(n);
      assert IsDigit(Digits(n)[0]);
    }
  }

  function Pow10(k: nat): nat
  {
    if k == 0 then 1 else 10 * Pow10(k - 1)
  }

  lemma {:induction false} DigitsAreFew(n: nat, k: nat)
    requires k >= 1 && n < Pow10(k)
    ensures |Digits(n)| <= k
  {
    if n >= 10 {
      assert n / 10 < Pow10(k - 1);
      DigitsAreFew(n / 10, k - 1);
    }
  }

  /** A decimal has no leading zero but zero itself, and zero has no minus. */
  lemma DecimalIsPlain(n: int)
    ensures n != 0 ==> Decimal(n)[if n < 0 then 1 else 0] != 48
    ensures n == 0 ==> Decimal(n) == [48]
  {
    if n != 0 {
      NoLeadingZero(if n < 0 then -n else n);
    }
  }

  lemma {:induction false} NoLeadingZero(n: nat)
    requires n > 0
    ensures Digits(n)[0] != 48
  {
    if n >= 10 {
      NoLeadingZero(n / 10);
    }
  }
}
