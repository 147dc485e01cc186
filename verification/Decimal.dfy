/** Decimal text of integers: Go's `%d`/`%v` verbs, and `strconv.ParseUint` and `strconv.ParseInt` in base 10. */
module Decimal {

  predicate IsDigit(c: char) {
    '0' <= c <= '9'
  }

  predicate AllDigits(s: string) {
    forall i :: 0 <= i < |s| ==> IsDigit(s[i])
  }

  /** The decimal text of a natural number, most significant digit first. */
  function Print(n: nat): (s: string)
    ensures |s| > 0 && AllDigits(s)
  {
    if n < 10 then [('0' as int + n) as char] else Print(n / 10) + [('0' as int + n % 10) as char]
  }

  /** The decimal text of an integer. */
  function PrintInt(n: int): string {
    if n >= 0 then Print(n) else "-" + Print(-n)
  }

  function Value(s: string): nat
    requires AllDigits(s)
  {
    if s == "" then 0 else Value(s[..|s| - 1]) * 10 + (s[|s| - 1] as int - '0' as int)
  }

  /** `strconv.ParseUint(s, 10, bits)` where `limit` is 2^bits; every error gives the
      default 0 that the callers store. */
  function ParseUintOrZero(s: string, limit: nat): nat {
    if s == "" || !AllDigits(s) || Value(s) >= limit then 0 else Value(s)
  }

  /** `strconv.ParseInt(s, 10, bits)` where `limit` is 2^(bits-1), with 0 for every error as above. A sign may lead. */
  function ParseIntOrZero(s: string, limit: nat): (n: int)
    ensures limit > 0 ==> 0 <= n + limit < 2 * limit
  {
    var digits := if s != "" && (s[0] == '-' || s[0] == '+') then s[1..] else s;
    if digits == "" || !AllDigits(digits) then 0
    else
      var n: int := if s[0] == '-' then -(Value(digits) as int) else Value(digits);
      if 0 <= n + limit < 2 * limit then n else 0
  }

  lemma {:induction false} ValuePrint(n: nat)
    ensures Value(Print(n)) == n
  {
    if n >= 10 {
      ValuePrint(n / 10);
      var s := Print(n);
      assert s[..|s| - 1] == Print(n / 10);
    }
  }

  lemma ParsePrint(n: nat, limit: nat)
    requires n < limit
    ensures ParseUintOrZero(Print(n), limit) == n
  {
    ValuePrint(n);
  }

  lemma ParsePrintInt(n: int, limit: nat)
    requires 0 <= n + limit < 2 * limit
    ensures ParseIntOrZero(PrintInt(n), limit) == n
  {
    if n < 0 {
      ValuePrint(-n);
      assert PrintInt(n)[1..] == Print(-n);
    } else {
      ValuePrint(n);
      assert IsDigit(Print(n)[0]);
    }
  }

  lemma PrintInjective(m: nat, n: int)
    requires Print(m) == PrintInt(n)
    ensures m == n
  {
    assert IsDigit(PrintInt(n)[0]);
    ValuePrint(m);
    ValuePrint(n);
  }
}
