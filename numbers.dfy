/**
 * Decimal numerals: Python's str(n) for a natural number, the zero-padded
 * f"{n:03d}" used in image file names, and int() on an ASCII digit string.
 */
module Numbers {

  predicate IsDigit(c: char) {
    '0' <= c <= '9'
  }

  predicate AllDigits(s: string) {
    forall i :: 0 <= i < |s| ==> IsDigit(s[i])
  }

  function DigitChar(d: nat): (c: char)
    requires d < 10
    ensures IsDigit(c) && c as int - '0' as int == d
  {
    ('0' as int + d) as char
  }

  /** str(n). */
  function Decimal(n: nat): (r: string)
    ensures |r| >= 1 && AllDigits(r)
    decreases n
  {
    if n < 10 then [DigitChar(n)] else Decimal(n / 10) + [DigitChar(n % 10)]
  }

  /** int(ds) for a string of ASCII digits (leading zeros allowed). */
  function Value(ds: string): nat
    requires AllDigits(ds)
  {
    if ds == [] then 0
    else 10 * Value(ds[..|ds| - 1]) + (ds[|ds| - 1] as int - '0' as int)
  }

  /** Parsing a printed number gives the number back. */
  lemma {:induction false} ValueDecimal(n: nat)
    ensures Value(Decimal(n)) == n
    decreases n
  {
    if n >= 10 {
      var d := Decimal(n);
      assert d[..|d| - 1] == Decimal(n / 10);
      ValueDecimal(n / 10);
    }
  }

  /** A leading zero does not change the value. */
  lemma {:induction false} ValueLeadingZero(ds: string)
    requires AllDigits(ds)
    ensures AllDigits("0" + ds) && Value("0" + ds) == Value(ds)
    decreases |ds|
  {
    if ds != [] {
      assert ("0" + ds)[..|ds|] == "0" + ds[..|ds| - 1];
      ValueLeadingZero(ds[..|ds| - 1]);
    }
  }

  /** f"{n:03d}": the decimal numeral, left-padded with zeros to three
      digits. */
  function Pad3(n: nat): (r: string)
    ensures |r| >= 3
  {
    if n < 10 then "00" + Decimal(n)
    else if n < 100 then "0" + Decimal(n)
    else
      assert |Decimal(n)| >= 3 by { DecimalLength(n); }
      Decimal(n)
  }

  /** The padded numeral is all digits and reads back as n. */
  lemma {:induction false} Pad3Value(n: nat)
    ensures AllDigits(Pad3(n)) && Value(Pad3(n)) == n
  {
    ValueDecimal(n);
    if n < 10 {
      ValueLeadingZero(Decimal(n));
      ValueLeadingZero("0" + Decimal(n));
      assert "0" + ("0" + Decimal(n)) == "00" + Decimal(n);
    } else if n < 100 {
      ValueLeadingZero(Decimal(n));
    }
  }

  /** Numbers of at least 100 print with at least three digits. */
  lemma {:induction false} DecimalLength(n: nat)
    requires n >= 100
    ensures |Decimal(n)| >= 3
  {
    assert Decimal(n) == Decimal(n / 10) + [DigitChar(n % 10)];
    assert Decimal(n / 10) == Decimal(n / 100) + [DigitChar(n / 10 % 10)];
  }

  /** The length of the leading run of ASCII digits. */
  function DigitRun(s: string): (k: nat)
    ensures k <= |s| && AllDigits(s[..k])
    ensures k < |s| ==> !IsDigit(s[k])
  {
    if s != [] && IsDigit(s[0]) then
      var k := 1 + DigitRun(s[1..]);
      assert s[..k] == [s[0]] + s[1..][..k - 1];
      k
    else 0
  }

  /** A digit string followed by a non-digit is the whole leading run. */
  lemma {:induction false} DigitRunOf(ds: string, t: string)
    requires AllDigits(ds) && (t == [] || !IsDigit(t[0]))
    ensures DigitRun(ds + t) == |ds|
    decreases |ds|
  {
    if ds != [] {
      assert (ds + t)[1..] == ds[1..] + t;
      DigitRunOf(ds[1..], t);
    }
  }

  /** The number written by the leading digits of `s` (0 when there are none). */
  function LeadingValue(s: string): nat {
    Value(s[..DigitRun(s)])
  }

  /** A zero-padded number followed by a non-digit reads back as itself: the
      three-digit counters of distinct images give distinct names. */
  lemma {:induction false} LeadingValuePad3(n: nat, t: string)
    requires t == [] || !IsDigit(t[0])
    ensures LeadingValue(Pad3(n) + t) == n
  {
    Pad3Value(n);
    DigitRunOf(Pad3(n), t);
    assert (Pad3(n) + t)[..|Pad3(n)|] == Pad3(n);
  }
}
