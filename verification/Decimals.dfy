/** Decimal printing and reading, and why a printed number ends where its digits do. */
module Decimals {
  import opened Outcomes

  function DigitChar(d: nat): (c: char)
    requires d < 10
    ensures IsDigit(c) && DigitValue(c) == d
  {
    ('0' as int + d) as char
  }

  predicate IsDigit(c: char) {
    '0' <= c <= '9'
  }

  function DigitValue(c: char): (d: nat)
    requires IsDigit(c)
    ensures d < 10
  {
    c as int - '0' as int
  }

  predicate AllDigits(s: string) {
    forall k | 0 <= k < |s| :: IsDigit(s[k])
  }

  function Print(n: nat): (s: string)
    ensures |s| > 0 && AllDigits(s)
    ensures s[0] == '0' <==> n == 0
  {
    if n < 10 then [DigitChar(n)] else Print(n / 10) + [DigitChar(n % 10)]
  }

  function Read(s: string): nat
    requires AllDigits(s)
  {
    if s == "" then 0 else 10 * Read(s[..|s| - 1]) + DigitValue(s[|s| - 1])
  }

  lemma {:induction false} ReadPrint(n: nat)
    ensures Read(Print(n)) == n
  {
    if n >= 10 {
      ReadPrint(n / 10);
      assert Print(n)[..|Print(n)| - 1] == Print(n / 10);
    } else {
      assert Print(n)[..0] == "";
    }
  }

  lemma {:induction false} PrintRead(s: string)
    requires AllDigits(s) && s != "" && s[0] != '0'
    ensures Read(s) > 0 && Print(Read(s)) == s
  {
    var most := s[..|s| - 1];
    var last := s[|s| - 1];
    assert s == most + [last];
    assert DigitChar(DigitValue(last)) == last;
    if most != "" {
      PrintRead(most);
    }
  }

  /** Text that does not go on with a digit. */
  predicate StopsDigits(rest: string) {
    rest == "" || !IsDigit(rest[0])
  }

  lemma DigitsEnd(a: string, b: string, rest: string, rest': string)
    requires AllDigits(a) && AllDigits(b) && StopsDigits(rest) && StopsDigits(rest')
    requires a + rest == b + rest'
    ensures a == b && rest == rest'
  {
    var all := a + rest;
    assert forall k | 0 <= k < |b| :: IsDigit(all[k]);
    assert rest != "" ==> all[|a|] == rest[0];
    assert forall k | 0 <= k < |a| :: IsDigit(all[k]);
    assert rest' != "" ==> all[|b|] == rest'[0];
    assert |a| == |b|;
    assert a == all[..|a|] == b;
    assert rest == all[|a|..] == rest';
  }

  lemma PrintIsInjective(m: nat, n: nat)
    requires Print(m) == Print(n)
    ensures m == n
  {
    ReadPrint(m);
    ReadPrint(n);
  }

  /** Two printed numbers followed by something other than a digit are equal only if the numbers are. */
  lemma PrintedNumbersEnd(m: nat, n: nat, rest: string, rest': string)
    requires StopsDigits(rest) && StopsDigits(rest')
    requires Print(m) + rest == Print(n) + rest'
    ensures m == n && rest == rest'
  {
    DigitsEnd(Print(m), Print(n), rest, rest');
    PrintIsInjective(m, n);
  }

  // ----- Reading a number off the front of a text

  /** How many digits `text` starts with. */
  function DigitRun(text: string): (n: nat)
    ensures n <= |text| && AllDigits(text[..n]) && StopsDigits(text[n..])
  {
    if text == "" || !IsDigit(text[0]) then 0 else 1 + DigitRun(text[1..])
  }

  /** An unsigned integer: no leading zero. */
  function ReadNat(text: string): (r: Option<(nat, string)>)
    ensures r.Some? ==> |r.value.1| < |text|
  {
    var n := DigitRun(text);
    if n == 0 || (text[0] == '0' && n > 1) then None else Some((Read(text[..n]), text[n..]))
  }

  lemma {:induction false} DigitsRun(digits: string, rest: string)
    requires AllDigits(digits) && StopsDigits(rest)
    ensures DigitRun(digits + rest) == |digits|
  {
    if digits == "" {
      assert digits + rest == rest;
    } else {
      assert (digits + rest)[1..] == digits[1..] + rest;
      DigitsRun(digits[1..], rest);
    }
  }

  lemma ReadsNat(n: nat, rest: string)
    requires StopsDigits(rest)
    ensures ReadNat(Print(n) + rest) == Some((n, rest))
  {
    var text := Print(n) + rest;
    DigitsRun(Print(n), rest);
    ReadPrint(n);
    assert text[..|Print(n)|] == Print(n) && text[|Print(n)|..] == rest;
  }
}
