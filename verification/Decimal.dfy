/** Decimal numbers, as `%d` and `std::to_string` write them. */
module Decimal {

  function Digit(d: nat): (c: char)
    requires d < 10
    ensures IsDigit(c) && c as int == '0' as int + d
  {
    ('0' as int + d) as char
  }

  predicate IsDigit(c: char) {
    '0' <= c <= '9'
  }

  function DigitValue(c: char): (d: nat)
    requires IsDigit(c)
    ensures d < 10
  {
    c as int - '0' as int
  }

  function Natural(n: nat): (s: string)
    ensures |s| > 0 && forall i :: 0 <= i < |s| ==> IsDigit(s[i])
  {
    if n < 10 then [Digit(n)] else Natural(n / 10) + [Digit(n % 10)]
  }

  function Signed(n: int): string {
    if n < 0 then "-" + Natural(-n) else Natural(n)
  }

  /** The number that a string of digits denotes. */
  function NaturalValue(s: string): nat
    requires forall i :: 0 <= i < |s| ==> IsDigit(s[i])
  {
    if s == "" then 0 else 10 * NaturalValue(s[..|s| - 1]) + DigitValue(s[|s| - 1])
  }

  lemma {:induction false} NaturalReadsBack(n: nat)
    ensures NaturalValue(Natural(n)) == n
  {
    if n >= 10 {
      NaturalReadsBack(n / 10);
      assert Natural(n)[..|Natural(n)| - 1] == Natural(n / 10);
    }
  }

  /** The text of a number is the one string of digits that denotes it and has no needless zero in front. */
  lemma {:induction false} NaturalExact(n: nat, s: string)
    requires s != "" && forall i :: 0 <= i < |s| ==> IsDigit(s[i])
    ensures s == Natural(n) <==> NaturalValue(s) == n && (|s| == 1 || s[0] != '0')
    decreases |s|
  {
    var front, last := s[..|s| - 1], s[|s| - 1];
    if |s| == 1 {
      assert front == "" && s == [last];
      assert n < 10 ==> Natural(n) == [Digit(n)];
      assert n >= 10 ==> |Natural(n)| > 1;
    } else {
      NaturalExact(n / 10, front);
      LeadingValue(front);
      assert s == front + [last];
      assert n >= 10 ==> Natural(n) == Natural(n / 10) + [Digit(n % 10)];
    }
  }

  lemma {:induction false} LeadingValue(s: string)
    requires s != "" && forall i :: 0 <= i < |s| ==> IsDigit(s[i])
    ensures s[0] != '0' ==> NaturalValue(s) > 0
  {
    if |s| == 1 {
      assert s[..0] == "";
    } else {
      LeadingValue(s[..|s| - 1]);
    }
  }
  /** Two numbers are never written the same. */
  lemma {:induction false} SignedInjective(m: int, n: int)
    requires Signed(m) == Signed(n)
    ensures m == n
  {
    hide Natural;
    assert m < 0 ==> Signed(m)[1..] == Natural(-m);
    assert n < 0 ==> Signed(n)[1..] == Natural(-n);
    assert (m < 0) == (Signed(m)[0] == '-') && (n < 0) == (Signed(n)[0] == '-');
    NaturalReadsBack(if m < 0 then -m else m);
    NaturalReadsBack(if n < 0 then -n else n);
  }

  // ---- Reading -----------------------------------------------------------------------------------------

  /** How many digits `s` starts with. */
  function DigitRun(s: string): (k: nat)
    ensures k <= |s| && forall i :: 0 <= i < k ==> IsDigit(s[i])
    ensures k < |s| ==> !IsDigit(s[k])
  {
    if s == "" || !IsDigit(s[0]) then 0 else 1 + DigitRun(s[1..])
  }

  /** Read a number from the front of `s`, in the form that `Natural` writes: the number and its length. */
  function ReadNatural(s: string): (r: (nat, nat))
    ensures r.1 <= |s| && (r.1 > 0 ==> s[..r.1] == Natural(r.0))
  {
    var k := DigitRun(s);
    var n := NaturalValue(s[..k]);
    if s[..k] == Natural(n) then (n, k) else (0, 0)
  }

  /** The same in the form of `Signed`. */
  function ReadSigned(s: string): (r: (int, nat))
    ensures r.1 <= |s| && (r.1 > 0 ==> s[..r.1] == Signed(r.0))
  {
    if s != "" && s[0] == '-' then
      var (n: int, k: nat) := ReadNatural(s[1..]);
      assert k > 0 ==> s[..k + 1] == "-" + s[1..][..k];
      if n > 0 && k > 0 then (-n, k + 1) else (0, 0)
    else
      ReadNatural(s)
  }

  lemma RunIs(s: string, k: nat)
    requires k <= |s| && (forall i :: 0 <= i < k ==> IsDigit(s[i])) && (k < |s| ==> !IsDigit(s[k]))
    ensures DigitRun(s) == k
  {
  }

  lemma {:induction false} ReadsNatural(n: nat, rest: string)
    requires rest == "" || !IsDigit(rest[0])
    ensures ReadNatural(Natural(n) + rest) == (n, |Natural(n)|)
  {
    var digits := Natural(n);
    NaturalReadsBack(n);
    hide Natural, NaturalValue, DigitRun;
    RunIs(digits + rest, |digits|);
    assert (digits + rest)[..|digits|] == digits;
  }

  lemma {:induction false} ReadsNegative(m: nat, rest: string)
    requires m > 0 && (rest == "" || !IsDigit(rest[0]))
    ensures ReadSigned("-" + Natural(m) + rest) == (-(m as int), 1 + |Natural(m)|)
  {
    ReadsNatural(m, rest);
    hide Natural, ReadNatural, NaturalValue, DigitRun;
    var s := "-" + Natural(m) + rest;
    assert s[1..] == Natural(m) + rest && s[0] == '-';
  }

  lemma {:induction false} ReadsSigned(n: int, rest: string)
    requires rest == "" || !IsDigit(rest[0])
    ensures ReadSigned(Signed(n) + rest) == (n, |Signed(n)|)
  {
    if n < 0 {
      ReadsNegative(-n, rest);
      hide ReadSigned, Natural;
    } else {
      ReadsNatural(n, rest);
      hide Natural, ReadNatural, NaturalValue, DigitRun;
      assert IsDigit((Natural(n) + rest)[0]);
    }
  }
}
