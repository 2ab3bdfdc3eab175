/** Decimal text of integers, as `Convert.ToString(int)` produces it with the invariant
    culture, and the digit-string reading that inverts it. */
module Decimal {
  import opened Nullable

  /** The range of a C# `int`. */
  type Int32 = i: int | -0x8000_0000 <= i < 0x8000_0000

  predicate IsDigit(c: char) {
    '0' <= c <= '9'
  }

  predicate AllDigits(s: string) {
    forall i :: 0 <= i < |s| ==> IsDigit(s[i])
  }

  function DigitChar(d: nat): (c: char)
    requires d < 10
    ensures IsDigit(c)
  {
    ('0' as int + d) as char
  }

  /** The value of a digit character (0 for any other character). */
  function DigitValue(c: char): nat {
    if IsDigit(c) then (c as int - '0' as int) as nat else 0
  }

  /** The number a string of decimal digits denotes, read most significant digit first. */
  function DecValue(s: string): nat {
    if s == [] then 0 else DecValue(s[..|s| - 1]) * 10 + DigitValue(s[|s| - 1])
  }

  /** Shortest decimal text of a natural number (no leading zeros). */
  function NatToString(n: nat): (s: string)
    ensures s != []
  {
    if n < 10 then [DigitChar(n)] else NatToString(n / 10) + [DigitChar(n % 10)]
  }

  /** `Convert.ToString(int)`: a minus sign before the digits of a negative number. */
  function IntToString(i: int): (s: string)
    ensures s != []
  {
    if i < 0 then "-" + NatToString(-i) else NatToString(i)
  }

  /** Reads back an optionally signed decimal number; null when the text is not one. */
  function ParseInt(s: string): (r: Nullable<int>)
    ensures r.NonNull? ==> s != [] && (AllDigits(s) || (s[0] == '-' && AllDigits(s[1..])))
  {
    if s != [] && s[0] == '-' && |s| > 1 && AllDigits(s[1..]) then
      var magnitude: int := DecValue(s[1..]);
      NonNull(-magnitude)
    else if s != [] && AllDigits(s) then NonNull(DecValue(s))
    else Null
  }

  /** A run of `n` zero digits. */
  function Zeros(n: nat): (z: string)
    ensures |z| == n
  {
    seq(n, i => '0')
  }

  /** Left-pads a digit string with zeros to at least `width` characters, as the custom
      and standard time-span formats do for their two-digit and seven-digit fields. */
  function PadLeft(s: string, width: nat): (r: string)
    ensures |r| == if |s| >= width then |s| else width
    ensures r[|r| - |s|..] == s
  {
    if |s| >= width then s else Zeros(width - |s|) + s
  }

  lemma {:induction false} NatToStringDigits(n: nat)
    ensures AllDigits(NatToString(n))
    ensures |NatToString(n)| == 1 <==> n < 10
  {
    if n >= 10 {
      NatToStringDigits(n / 10);
    }
  }

  lemma {:induction false} NatToStringRoundTrip(n: nat)
    ensures DecValue(NatToString(n)) == n
  {
    if n >= 10 {
      var s := NatToString(n);
      assert s[..|s| - 1] == NatToString(n / 10);
      NatToStringRoundTrip(n / 10);
    }
  }

  /** The shape of an integer's text: digits only exactly when it is not negative, a
      leading minus exactly when it is, and always a digit at the end. */
  lemma IntToStringShape(i: int)
    ensures i >= 0 <==> AllDigits(IntToString(i))
    ensures i < 0 <==> IntToString(i)[0] == '-'
    ensures IsDigit(IntToString(i)[|IntToString(i)| - 1])
  {
    var s := IntToString(i);
    if i < 0 {
      NatToStringDigits(-i);
      assert s[1..] == NatToString(-i);
      assert !IsDigit(s[0]);
    } else {
      NatToStringDigits(i);
    }
  }

  /** A leading zero does not change the value of a digit string. */
  lemma {:induction false} LeadingZero(s: string)
    ensures DecValue("0" + s) == DecValue(s)
    decreases |s|
  {
    var z := "0" + s;
    if s != [] {
      assert z[..|z| - 1] == "0" + s[..|s| - 1];
      LeadingZero(s[..|s| - 1]);
    }
  }

  lemma {:induction false} ZerosValue(n: nat, s: string)
    ensures DecValue(Zeros(n) + s) == DecValue(s)
  {
    if n > 0 {
      assert Zeros(n) + s == "0" + (Zeros(n - 1) + s);
      ZerosValue(n - 1, s);
      LeadingZero(Zeros(n - 1) + s);
    } else {
      assert Zeros(n) + s == s;
    }
  }

  lemma PadLeftValue(s: string, width: nat)
    requires AllDigits(s)
    ensures AllDigits(PadLeft(s, width))
    ensures DecValue(PadLeft(s, width)) == DecValue(s)
  {
    if |s| < width {
      ZerosValue(width - |s|, s);
      var r := PadLeft(s, width);
      forall i | 0 <= i < |r|
        ensures IsDigit(r[i])
      {
        if i >= width - |s| {
          assert r[i] == s[i - (width - |s|)];
        }
      }
    }
  }

  lemma IntToStringRoundTrip(i: int)
    ensures ParseInt(IntToString(i)) == NonNull(i)
  {
    var s := IntToString(i);
    if i < 0 {
      assert s[1..] == NatToString(-i);
      NatToStringDigits(-i);
      NatToStringRoundTrip(-i);
    } else {
      NatToStringDigits(i);
      NatToStringRoundTrip(i);
    }
  }

  /** A digit string without a leading zero, unless it is the single digit "0". */
  predicate Canonical(d: string) {
    d != [] && AllDigits(d) && (d[0] == '0' ==> |d| == 1)
  }

  /** The text of a number: an optional '-' before a canonical magnitude, where "-0" is
      not a text of any number. */
  predicate CanonicalInt(s: string) {
    Canonical(s) || (|s| > 1 && s[0] == '-' && Canonical(s[1..]) && s[1] != '0')
  }

  /** Only zero is written with a leading '0'. */
  lemma {:induction false} NoLeadingZero(n: nat)
    ensures NatToString(n)[0] == '0' ==> n == 0
  {
    if n >= 10 {
      NoLeadingZero(n / 10);
    }
  }

  /** A digit string that does not start with '0' denotes a positive number. */
  lemma {:induction false} LeadingDigitPositive(d: string)
    requires d != [] && AllDigits(d) && d[0] != '0'
    ensures DecValue(d) > 0
    decreases |d|
  {
    if |d| > 1 {
      LeadingDigitPositive(d[..|d| - 1]);
    }
  }

  /** Every canonical digit string is the text of the number it denotes. */
  lemma {:induction false} CanonicalIsNatText(d: string)
    requires Canonical(d)
    ensures NatToString(DecValue(d)) == d
    decreases |d|
  {
    var last := d[|d| - 1];
    assert DigitChar(DigitValue(last)) == last;
    if |d| > 1 {
      var p := d[..|d| - 1];
      assert p[0] == d[0];
      LeadingDigitPositive(p);
      CanonicalIsNatText(p);
      assert d == p + [last];
    }
  }

  /** `Convert.ToString(int)` never writes a leading zero or a "-0". */
  lemma IntToStringCanonical(i: int)
    ensures CanonicalInt(IntToString(i))
  {
    var m := if i < 0 then -i else i;
    NatToStringDigits(m);
    NoLeadingZero(m);
    if i < 0 {
      assert IntToString(i)[1..] == NatToString(m);
    }
  }

  /** The text of an integer is the only canonical text that reads back as it: together
      with `IntToStringCanonical` and `IntToStringRoundTrip` this fixes every character. */
  lemma CanonicalIntUnique(s: string, i: int)
    requires CanonicalInt(s) && ParseInt(s) == NonNull(i)
    ensures IntToString(i) == s
  {
    if Canonical(s) {
      CanonicalIsNatText(s);
    } else {
      var d := s[1..];
      assert d[0] == s[1];
      CanonicalIsNatText(d);
      LeadingDigitPositive(d);
      assert s == "-" + d;
    }
  }

  /** Different numbers have different texts, so a rendered number identifies it. */
  lemma IntToStringInjective(i: int, j: int)
    requires IntToString(i) == IntToString(j)
    ensures i == j
  {
    IntToStringRoundTrip(i);
    IntToStringRoundTrip(j);
  }
}
