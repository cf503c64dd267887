/** Decimal digit strings: what they denote, and how `%d` writes an integer. */
module Decimal {
  import opened LuaHeap

  predicate IsDigit(c: char) {
    '0' <= c <= '9'
  }

  predicate AllDigits(s: string) {
    forall i :: 0 <= i < |s| ==> IsDigit(s[i])
  }

  lemma IsDigitMeaning(c: char)
    ensures IsDigit(c) <==> c in "0123456789"
  {
  }

  /** The number a digit string denotes; leading zeros do not matter. */
  function DigitsValue(s: string): (n: nat)
    requires AllDigits(s)
  {
    if s == "" then 0
    else 10 * DigitsValue(s[..|s| - 1]) + (s[|s| - 1] - '0') as nat
  }

  /** The digits of `n`, without leading zeros. */
  function PrintNat(n: nat): (s: string)
    ensures |s| > 0 && AllDigits(s)
  {
    if n < 10 then ['0' + n as char] else PrintNat(n / 10) + ['0' + (n % 10) as char]
  }

  lemma {:induction false} PrintedValue(n: nat)
    ensures DigitsValue(PrintNat(n)) == n
  {
    var s := PrintNat(n);
    if n >= 10 {
      PrintedValue(n / 10);
      assert s[..|s| - 1] == PrintNat(n / 10);
    } else {
      assert s[..0] == "";
    }
  }

  function Pow10(k: nat): nat {
    if k == 0 then 1 else 10 * Pow10(k - 1)
  }

  lemma {:induction false} PrintedLength(n: nat, k: nat)
    requires k > 0 && n < Pow10(k)
    ensures |PrintNat(n)| <= k
  {
    if n < 10 {
    } else {
      assert Pow10(1) == 10 * Pow10(0);
      PrintedLength(n / 10, k - 1);
    }
  }

  /** `%d` of a Lua integer. */
  function PrintInt(n: int): string {
    if n < 0 then "-" + PrintNat(-n) else PrintNat(n)
  }

  /** A digit string, after an optional minus sign. */
  function Digits(s: string): string {
    if |s| > 0 && s[0] == '-' then s[1..] else s
  }

  predicate IsDecimal(s: string) {
    Digits(s) != "" && AllDigits(Digits(s))
  }

  function DecimalValue(s: string): int
    requires IsDecimal(s)
  {
    var size: int := DigitsValue(Digits(s));
    if s[0] == '-' then -size else size
  }

  /** Digits, one minus sign in front of them or none. */
  lemma DecimalMeaning(s: string, digits: string)
    requires digits != "" && AllDigits(digits)
    ensures IsDecimal(digits) && DecimalValue(digits) == DigitsValue(digits)
    ensures IsDecimal("-" + digits) && DecimalValue("-" + digits) + DigitsValue(digits) == 0
    ensures IsDecimal(s) ==> Digits(s) != "" && AllDigits(Digits(s)) && (s == Digits(s) || s == "-" + Digits(s))
  {
    assert IsDigit(digits[0]);
    assert Digits("-" + digits) == digits;
  }

  /** Leading zeros do not matter. */
  lemma {:induction false} LeadingZero(digits: string)
    requires AllDigits(digits)
    ensures AllDigits("0" + digits) && DigitsValue("0" + digits) == DigitsValue(digits)
  {
    var s := "0" + digits;
    if digits == "" {
      assert s[..0] == "";
    } else {
      var front := digits[..|digits| - 1];
      LeadingZero(front);
      assert s[..|s| - 1] == "0" + front;
    }
  }

  /** Lua's `tonumber`: an integer when it fits 64 bits (otherwise a float). */
  function ReadInteger(s: string): Option<int> {
    if IsDecimal(s) && MIN_INTEGER <= DecimalValue(s) <= MAX_INTEGER then Some(DecimalValue(s)) else None
  }

  /** Reading what was printed gives the integer back. */
  lemma PrintedDecimal(n: int)
    ensures IsDecimal(PrintInt(n)) && DecimalValue(PrintInt(n)) == n
  {
    var size: nat := if n < 0 then -n else n;
    PrintedValue(size);
    assert Digits(PrintInt(n)) == PrintNat(size);
  }

  lemma PrintedIsRead(n: int)
    requires MIN_INTEGER <= n <= MAX_INTEGER
    ensures ReadInteger(PrintInt(n)) == Some(n)
  {
    PrintedDecimal(n);
  }

  /** A number of at most 19 digits prints to at most 20 bytes. */
  lemma PrintedDigits(n: int)
    requires -10_000_000_000_000_000_000 < n < 10_000_000_000_000_000_000
    ensures |PrintInt(n)| <= 20
  {
    assert Pow10(19) == 10_000_000_000_000_000_000 by {
      assert Pow10(5) == 100_000;
      assert Pow10(10) == 100_000 * Pow10(5);
      assert Pow10(15) == 100_000 * Pow10(10);
    }
    PrintedLength(if n < 0 then -n else n, 19);
  }

  lemma PrintedIntLength(n: int)
    requires MIN_INTEGER <= n <= MAX_INTEGER
    ensures |PrintInt(n)| <= 20
  {
    PrintedDigits(n);
  }
}
