/** Decimal text of a number: std::to_string, snprintf's %d, and the way back, std::stoi.
    Resource ids and the SSDP port are written and read with these. */
module Decimal {

  const INT_MAX := 0x7fff_ffff

  datatype StoiResult = Number(value: nat) | OutOfRange

  function DigitChar(d: nat): char
    requires d < 10
  {
    '0' + d as char
  }

  predicate IsDigit(c: char) {
    '0' <= c <= '9'
  }

  function DigitValue(c: char): nat
    requires IsDigit(c)
  {
    (c - '0') as nat
  }

  function ToString(n: nat): (s: string)
    ensures s != ""
    ensures forall i :: 0 <= i < |s| ==> IsDigit(s[i])
  {
    if n < 10 then [DigitChar(n)] else ToString(n / 10) + [DigitChar(n % 10)]
  }

  /** The number a run of digits stands for. */
  function Value(s: string): nat
    requires forall i :: 0 <= i < |s| ==> IsDigit(s[i])
  {
    if s == "" then 0 else 10 * Value(s[..|s| - 1]) + DigitValue(s[|s| - 1])
  }

  /** std::stoi on an id, which is all digits: an int is 32 bits wide, and anything larger makes it throw. */
  function Stoi(s: string): StoiResult
    requires s != ""
    requires forall i :: 0 <= i < |s| ==> IsDigit(s[i])
  {
    if Value(s) > INT_MAX then OutOfRange else Number(Value(s))
  }

  lemma {:induction false} ValueOfToString(n: nat)
    ensures Value(ToString(n)) == n
  {
    if n >= 10 {
      ValueOfToString(n / 10);
      var s := ToString(n);
      assert s[..|s| - 1] == ToString(n / 10);
    }
  }

  /** stoi gives an allocated number back exactly when it fits an int; half of the unsigned numbers do not. */
  lemma StoiOfToString(n: nat)
    ensures Stoi(ToString(n)) == Number(n) <==> n <= 2147483647
    ensures n > 2147483647 ==> Stoi(ToString(n)) == OutOfRange
  {
    ValueOfToString(n);
  }

  lemma ToStringInjective(m: nat, n: nat)
    requires ToString(m) == ToString(n)
    ensures m == n
  {
    ValueOfToString(m);
    ValueOfToString(n);
  }

  lemma {:induction false} ToStringLength(n: nat, k: nat)
    requires k >= 1 && n < Power10(k)
    ensures |ToString(n)| <= k
  {
    if n >= 10 {
      assert k >= 2 by { assert Power10(1) == 10; }
      ToStringLength(n / 10, k - 1);
    }
  }

  function Power10(k: nat): nat {
    if k == 0 then 1 else 10 * Power10(k - 1)
  }

  /** Digits are the usual ones, the highest first. */
  lemma TextOf1900()
    ensures ToString(1900) == "1900" && ToString(0) == "0"
  {
    assert ToString(1) == "1" && ToString(19) == "19" && ToString(190) == "190";
  }
}
