/** Decimal text, as printed by Go's %d. */
module Text {

  predicate IsDigit(c: char) {
    '0' <= c <= '9'
  }

  function DigitChar(d: nat): char
    requires d < 10
  {
    '0' + d as char
  }

  function DigitValue(c: char): nat
    requires IsDigit(c)
  {
    (c - '0') as nat
  }

  function Decimal(n: nat): string {
    if n < 10 then [DigitChar(n)] else Decimal(n / 10) + [DigitChar(n % 10)]
  }

  ghost predicate AllDigits(s: string) {
    forall c <- s :: IsDigit(c)
  }

  /** The number a string of digits stands for. */
  function ValueOf(s: string): nat
    requires AllDigits(s)
  {
    if s == [] then 0 else 10 * ValueOf(s[..|s| - 1]) + DigitValue(s[|s| - 1])
  }

  /** The ten digits, and how numbers of more than one are written. */
  lemma TenDigits()
    ensures forall d: nat :: d < 10 ==> Decimal(d) == ["0123456789"[d]] && DigitValue("0123456789"[d]) == d
    ensures Decimal(10) == "10" && Decimal(127) == "127" && Decimal(255) == "255"
  {
    assert Decimal(12) == "12" && Decimal(25) == "25";
  }

  /** Printing a number and reading it back gives the number. */
  lemma {:induction false} DecimalRoundTrip(n: nat)
    ensures Decimal(n) != [] && AllDigits(Decimal(n)) && ValueOf(Decimal(n)) == n
  {
    if n >= 10 {
      DecimalRoundTrip(n / 10);
      var s := Decimal(n);
      assert s[..|s| - 1] == Decimal(n / 10);
    }
  }

  lemma TensAndUnits(tens: nat, units: nat)
    requires units < 10
    ensures (10 * tens + units) / 10 == tens && (10 * tens + units) % 10 == units
  {}

  lemma DecimalAppends(tens: nat, units: nat)
    requires tens > 0 && units < 10
    ensures Decimal(10 * tens + units) == Decimal(tens) + [DigitChar(units)]
  {
    TensAndUnits(tens, units);
  }

  lemma {:induction false} LeadingDigitCounts(s: string)
    requires s != [] && AllDigits(s) && s[0] != '0'
    ensures ValueOf(s) > 0
    decreases |s|
  {
    if |s| > 1 {
      LeadingDigitCounts(s[..|s| - 1]);
    } else {
      OneDigit(s);
    }
  }

  lemma DigitRoundTrip(c: char)
    requires IsDigit(c)
    ensures DigitValue(c) < 10 && DigitChar(DigitValue(c)) == c
  {}

  lemma OneDigit(s: string)
    requires |s| == 1 && AllDigits(s)
    ensures ValueOf(s) == DigitValue(s[0]) && Decimal(ValueOf(s)) == s
  {
    assert s[..0] == [] && s == [s[0]];
    DigitRoundTrip(s[0]);
  }

  /** Reading digits that have no needless leading zero and printing them gives them back. */
  lemma {:induction false} ValueRoundTrip(s: string)
    requires s != [] && AllDigits(s) && (|s| > 1 ==> s[0] != '0')
    ensures Decimal(ValueOf(s)) == s
    decreases |s|
  {
    if |s| == 1 {
      OneDigit(s);
    } else {
      var front, last := s[..|s| - 1], s[|s| - 1];
      ValueRoundTrip(front);
      LeadingDigitCounts(front);
      DigitRoundTrip(last);
      DecimalAppends(ValueOf(front), DigitValue(last));
      assert s == front + [last];
    }
  }

  /** Two pieces of digits joined by a separator can be told apart. */
  lemma JoinedDigits(a: string, b: string, a': string, b': string, sep: char)
    requires AllDigits(a) && AllDigits(a') && !IsDigit(sep)
    requires a + [sep] + b == a' + [sep] + b'
    ensures a == a' && b == b'
  {
    var whole := a + [sep] + b;
    assert whole[|a|] == sep && whole[|a'|] == sep;
    assert forall i :: 0 <= i < |a| ==> whole[i] == a[i];
    assert forall i :: 0 <= i < |a'| ==> whole[i] == a'[i];
    assert whole[..|a|] == a && whole[..|a'|] == a';
    assert whole[|a| + 1..] == b && whole[|a'| + 1..] == b';
  }
}
