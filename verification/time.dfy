/** `DateTime` and `TimeSpan` as 100-nanosecond ticks, the two time-span text formats the
    access token uses (the custom "dd\.hh\:mm\:ss" format and the standard constant "c"
    format) and the subset of `TimeSpan.Parse` that reads such texts back. */
module Time {
  import opened Decimal

  const TicksPerSecond: nat := 10_000_000
  const SecondsPerDay: nat := 86_400

  /** `DateTime.MaxValue.Ticks`; `DateTime.MinValue` is tick 0. */
  const MaxDateTimeTicks: nat := 3_155_378_975_999_999_999

  /** `TimeSpan.MaxValue.Ticks`, the largest `long`. */
  const MaxTimeSpanTicks: nat := 0x7FFF_FFFF_FFFF_FFFF

  /** A `DateTime`, compared and subtracted by its ticks (its `Kind` plays no part). */
  type DateTime = t: int | 0 <= t <= MaxDateTimeTicks

  /** A `TimeSpan`: a signed 64-bit number of ticks. */
  type TimeSpan = s: int | -0x8000_0000_0000_0000 <= s <= MaxTimeSpanTicks

  /** `a.Subtract(b)`, also written `a - b`. The difference of two `DateTime`s always fits. */
  function Subtract(a: DateTime, b: DateTime): (d: TimeSpan)
    ensures b + d == a
    ensures d >= 0 <==> a >= b
  {
    a - b
  }

  function Magnitude(span: TimeSpan): (m: nat)
    ensures m == span as int || m == -(span as int)
  {
    var s: int := span;
    if s < 0 then -s else s
  }

  /** The whole-second part of a span: what survives a text format without fraction digits. */
  function WholeSeconds(magnitude: nat): (w: nat)
    ensures w <= magnitude < w + TicksPerSecond
    ensures w % TicksPerSecond == 0
  {
    magnitude - magnitude % TicksPerSecond
  }

  /** The components of a span's magnitude: `Days`, `Hours`, `Minutes`, `Seconds` and the
      sub-second ticks. */
  datatype Clock = Clock(days: nat, hours: nat, minutes: nat, seconds: nat, fraction: nat)

  predicate WellFormed(c: Clock) {
    c.hours < 24 && c.minutes < 60 && c.seconds < 60 && c.fraction < TicksPerSecond
  }

  /** The ticks in a number of days, hours, minutes and seconds. */
  function TicksOf(days: nat, hours: nat, minutes: nat, seconds: nat): nat {
    (((days * 24 + hours) * 60 + minutes) * 60 + seconds) * TicksPerSecond
  }

  /** Splits a magnitude into its components; `Recompose` is its inverse. */
  function Decompose(magnitude: nat): (c: Clock)
    ensures WellFormed(c)
  {
    var secs := magnitude / TicksPerSecond;
    var inDay := secs % SecondsPerDay;
    Clock(secs / SecondsPerDay, inDay / 3600, inDay % 3600 / 60, inDay % 3600 % 60,
          magnitude % TicksPerSecond)
  }

  lemma WholeSecondTicks(days: nat, hours: nat, minutes: nat, seconds: nat)
    ensures TicksOf(days, hours, minutes, seconds) % TicksPerSecond == 0
  {
    var secs := ((days * 24 + hours) * 60 + minutes) * 60 + seconds;
    assert TicksOf(days, hours, minutes, seconds) == secs * TicksPerSecond;
  }

  function Recompose(c: Clock): nat {
    TicksOf(c.days, c.hours, c.minutes, c.seconds) + c.fraction
  }

  lemma DecomposeRoundTrip(magnitude: nat)
    ensures Recompose(Decompose(magnitude)) == magnitude
    ensures TicksOf(Decompose(magnitude).days, Decompose(magnitude).hours,
                    Decompose(magnitude).minutes, Decompose(magnitude).seconds)
            == WholeSeconds(magnitude)
  {
    var secs := magnitude / TicksPerSecond;
    var inDay := secs % SecondsPerDay;
    assert secs == secs / SecondsPerDay * SecondsPerDay + inDay;
    assert inDay == inDay / 3600 * 3600 + inDay % 3600;
    assert inDay % 3600 == inDay % 3600 / 60 * 60 + inDay % 3600 % 60;
    assert magnitude == secs * TicksPerSecond + magnitude % TicksPerSecond;
  }

  lemma RecomposeDecompose(c: Clock)
    requires WellFormed(c)
    ensures Decompose(Recompose(c)) == c
  {
    var m := Recompose(c);
    var secs := ((c.days * 24 + c.hours) * 60 + c.minutes) * 60 + c.seconds;
    assert m == secs * TicksPerSecond + c.fraction;
    assert m / TicksPerSecond == secs;
    assert m % TicksPerSecond == c.fraction;
    var inDay := (c.hours * 60 + c.minutes) * 60 + c.seconds;
    assert secs == c.days * SecondsPerDay + inDay;
    assert inDay < SecondsPerDay;
    assert secs / SecondsPerDay == c.days;
    assert secs % SecondsPerDay == inDay;
    assert inDay / 3600 == c.hours;
    assert inDay % 3600 == c.minutes * 60 + c.seconds;
  }

  /** A component rendered with at least two digits ("hh", "mm", "ss", "dd"). */
  function Pad2(n: nat): (s: string)
    ensures |s| >= 2
  {
    PadLeft(NatToString(n), 2)
  }

  /** The two-digit text holds only digits and denotes the number. */
  lemma Pad2Value(n: nat)
    ensures AllDigits(Pad2(n))
    ensures DecValue(Pad2(n)) == n
  {
    NatToStringDigits(n);
    NatToStringRoundTrip(n);
    PadLeftValue(NatToString(n), 2);
  }

  /** A component below 100 takes exactly two characters. */
  lemma Pad2Length(n: nat)
    requires n < 100
    ensures |Pad2(n)| == 2
  {
    NatToStringDigits(n);
    if n >= 10 {
      NatToStringDigits(n / 10);
    }
  }

  /** "hh:mm:ss" of a clock, followed by `rest`. */
  function TimeOfDayThen(c: Clock, rest: string): (s: string)
    ensures s != [] && IsDigit(s[0])
  {
    Pad2Value(c.hours);
    Pad2(c.hours) + ([':'] + (Pad2(c.minutes) + ([':'] + (Pad2(c.seconds) + rest))))
  }

  /** "hh:mm:ss" of an in-range clock has two characters per field. */
  lemma ClockShape(c: Clock)
    requires WellFormed(c)
    ensures var t := TimeOfDayThen(c, []);
            |t| == 8 && t[2] == ':' && t[5] == ':'
  {
    Pad2Length(c.hours);
    Pad2Length(c.minutes);
    Pad2Length(c.seconds);
    var s1 := Pad2(c.seconds) + [];
    var s2 := Pad2(c.minutes) + ([':'] + s1);
    assert |s2| == 5 && s2[2] == ':';
  }

  /** Days, '.', then an "hh:mm:ss" text. */
  lemma DaysThenClockShape(d: string, t: string)
    requires |d| >= 2 && |t| == 8 && t[2] == ':' && t[5] == ':'
    ensures var text := d + (['.'] + t);
            |text| >= 11 && text[|text| - 9] == '.' && text[|text| - 6] == ':' && text[|text| - 3] == ':'
  {
  }

  /** `span.ToString(@"dd\.hh\:mm\:ss")`. Custom formats print no sign, so a negative span
      renders as its magnitude; the sub-second ticks are not printed. The text is at least
      two day digits, '.', and "hh:mm:ss" with two digits per field. */
  function FormatDaysClock(span: TimeSpan): (text: string)
    ensures |text| >= 11
    ensures text[|text| - 9] == '.' && text[|text| - 6] == ':' && text[|text| - 3] == ':'
  {
    var c := Decompose(Magnitude(span));
    ClockShape(c);
    DaysThenClockShape(Pad2(c.days), TimeOfDayThen(c, []));
    Pad2(c.days) + (['.'] + TimeOfDayThen(c, []))
  }

  /** The constant format of a magnitude's components, without the sign. */
  function UnsignedConstant(c: Clock): (text: string)
    ensures text != [] && IsDigit(text[0])
  {
    NatToStringDigits(c.days);
    var fractionPart := if c.fraction != 0 then ['.'] + PadLeft(NatToString(c.fraction), 7) else [];
    if c.days != 0 then NatToString(c.days) + (['.'] + TimeOfDayThen(c, fractionPart))
    else TimeOfDayThen(c, fractionPart)
  }

  /** `span.ToString()`, the constant format "[-][d.]hh:mm:ss[.fffffff]": the day count only
      when non-zero, the seven fraction digits only when the fraction is non-zero. */
  function FormatConstant(span: TimeSpan): (text: string)
    ensures text != []
    ensures (text[0] == '-') <==> span < 0
  {
    var unsigned := UnsignedConstant(Decompose(Magnitude(span)));
    if span < 0 then ['-'] + unsigned else unsigned
  }

  /** A lexeme of a time-span text: a maximal run of digits or one other character. */
  datatype Lexeme = Num(n: nat) | Sep(c: char)

  /** A number lexeme followed by a separator lexeme and further lexemes. */
  function Field(n: nat, sep: char, rest: seq<Lexeme>): seq<Lexeme> {
    [Num(n)] + ([Sep(sep)] + rest)
  }

  /** The length of the digit run at the start of `s`. */
  function DigitRun(s: string): (k: nat)
    ensures k <= |s|
  {
    if s == [] || !IsDigit(s[0]) then 0 else 1 + DigitRun(s[1..])
  }

  function Lex(s: string): seq<Lexeme>
    decreases |s|
  {
    if s == [] then []
    else if IsDigit(s[0]) then
      var k := DigitRun(s);
      [Num(DecValue(s[..k]))] + Lex(s[k..])
    else [Sep(s[0])] + Lex(s[1..])
  }

  /** The outcome of `TimeSpan.Parse`: a span, or the `FormatException` /
      `OverflowException` it throws. */
  datatype ParseResult = Parsed(span: TimeSpan) | FormatError | OverflowError

  /** Builds a span from parsed components, rejecting out-of-range fields as .NET does. */
  function Assemble(days: nat, hours: nat, minutes: nat, seconds: nat): (r: ParseResult)
    ensures r.Parsed? <==>
              hours < 24 && minutes < 60 && seconds < 60
              && TicksOf(days, hours, minutes, seconds) <= MaxTimeSpanTicks
    ensures r.Parsed? ==> r.span == Recompose(Clock(days, hours, minutes, seconds, 0))
    ensures r.Parsed? ==> r.span % TicksPerSecond == 0
  {
    WholeSecondTicks(days, hours, minutes, seconds);
    if hours > 23 || minutes > 59 || seconds > 59 then OverflowError
    else
      var ticks := TicksOf(days, hours, minutes, seconds);
      if ticks > MaxTimeSpanTicks then OverflowError else Parsed(ticks)
  }

  /** `TimeSpan.Parse` restricted to the shapes "d.hh:mm:ss", "d:h:m:s" and "hh:mm:ss"
      (no sign, no fraction, no surrounding white space). */
  function ParseSpan(s: string): (r: ParseResult)
    ensures r.Parsed? ==> r.span >= 0 && r.span % TicksPerSecond == 0
  {
    var toks := Lex(s);
    if |toks| == 7 && toks[0].Num? && (toks[1] == Sep('.') || toks[1] == Sep(':'))
       && toks[2].Num? && toks[3] == Sep(':') && toks[4].Num? && toks[5] == Sep(':') && toks[6].Num?
    then Assemble(toks[0].n, toks[2].n, toks[4].n, toks[6].n)
    else if |toks| == 5 && toks[0].Num? && toks[1] == Sep(':') && toks[2].Num?
            && toks[3] == Sep(':') && toks[4].Num?
    then Assemble(0, toks[0].n, toks[2].n, toks[4].n)
    else FormatError
  }

  predicate StartsWithNonDigit(t: string) {
    t == [] || !IsDigit(t[0])
  }

  lemma {:induction false} DigitRunConcat(d: string, t: string)
    requires AllDigits(d) && StartsWithNonDigit(t)
    ensures DigitRun(d + t) == |d|
    decreases |d|
  {
    if d != [] {
      assert (d + t)[1..] == d[1..] + t;
      DigitRunConcat(d[1..], t);
    } else {
      assert d + t == t;
    }
  }

  lemma LexDigitsThen(d: string, t: string)
    requires d != [] && AllDigits(d) && StartsWithNonDigit(t)
    ensures Lex(d + t) == [Num(DecValue(d))] + Lex(t)
  {
    var s := d + t;
    DigitRunConcat(d, t);
    assert s[..|d|] == d;
    assert s[|d|..] == t;
  }

  lemma LexSepThen(c: char, t: string)
    requires !IsDigit(c)
    ensures Lex([c] + t) == [Sep(c)] + Lex(t)
  {
    assert ([c] + t)[1..] == t;
  }

  lemma LexPad2(n: nat, t: string)
    requires StartsWithNonDigit(t)
    ensures Lex(Pad2(n) + t) == [Num(n)] + Lex(t)
  {
    Pad2Value(n);
    LexDigitsThen(Pad2(n), t);
  }

  lemma LexField(n: nat, sep: char, rest: string)
    requires !IsDigit(sep)
    ensures Lex(Pad2(n) + ([sep] + rest)) == Field(n, sep, Lex(rest))
  {
    LexSepThen(sep, rest);
    LexPad2(n, [sep] + rest);
  }

  lemma LexTimeOfDay(c: Clock, rest: string)
    requires StartsWithNonDigit(rest)
    ensures Lex(TimeOfDayThen(c, rest))
            == Field(c.hours, ':', Field(c.minutes, ':', [Num(c.seconds)] + Lex(rest)))
  {
    var s1 := Pad2(c.seconds) + rest;
    LexPad2(c.seconds, rest);
    var s3 := Pad2(c.minutes) + ([':'] + s1);
    LexField(c.minutes, ':', s1);
    LexField(c.hours, ':', s3);
  }

  /** The lexemes of "d?h:m:s", where `sep` is the character after the days. */
  function DayLexemes(days: nat, sep: char, hours: nat, minutes: nat, seconds: nat): seq<Lexeme> {
    Field(days, sep, Field(hours, ':', Field(minutes, ':', [Num(seconds)])))
  }

  /** The lexemes of "h:m:s". */
  function ClockLexemes(hours: nat, minutes: nat, seconds: nat): seq<Lexeme> {
    Field(hours, ':', Field(minutes, ':', [Num(seconds)]))
  }

  lemma ParseDayLexemes(s: string, days: nat, sep: char, hours: nat, minutes: nat, seconds: nat)
    requires sep == '.' || sep == ':'
    requires Lex(s) == DayLexemes(days, sep, hours, minutes, seconds)
    ensures ParseSpan(s) == Assemble(days, hours, minutes, seconds)
  {
    var toks := Lex(s);
    assert |toks| == 7;
    assert toks[0] == Num(days) && toks[1] == Sep(sep) && toks[2] == Num(hours);
    assert toks[3] == Sep(':') && toks[4] == Num(minutes);
    assert toks[5] == Sep(':') && toks[6] == Num(seconds);
  }

  lemma ParseClockLexemes(s: string, hours: nat, minutes: nat, seconds: nat)
    requires Lex(s) == ClockLexemes(hours, minutes, seconds)
    ensures ParseSpan(s) == Assemble(0, hours, minutes, seconds)
  {
    var toks := Lex(s);
    assert |toks| == 5;
    assert toks[0] == Num(hours) && toks[1] == Sep(':') && toks[2] == Num(minutes);
    assert toks[3] == Sep(':') && toks[4] == Num(seconds);
  }

  /** Reassembling the components of a magnitude yields its whole seconds. */
  lemma AssembleDecomposed(m: nat)
    requires m <= MaxTimeSpanTicks + 1
    ensures var c := Decompose(m);
            var r := Assemble(c.days, c.hours, c.minutes, c.seconds);
            r.Parsed? && r.span == WholeSeconds(m)
  {
    DecomposeRoundTrip(m);
  }

  /** The lexemes of "dd.hh:mm:ss" for given components. */
  lemma LexDaysClockOf(c: Clock, s: string)
    requires s == Pad2(c.days) + (['.'] + TimeOfDayThen(c, []))
    ensures Lex(s) == DayLexemes(c.days, '.', c.hours, c.minutes, c.seconds)
  {
    var t := TimeOfDayThen(c, []);
    LexClock(c);
    LexField(c.days, '.', t);
  }

  lemma LexDaysClock(span: TimeSpan)
    ensures var c := Decompose(Magnitude(span));
            Lex(FormatDaysClock(span)) == DayLexemes(c.days, '.', c.hours, c.minutes, c.seconds)
  {
    LexDaysClockOf(Decompose(Magnitude(span)), FormatDaysClock(span));
  }

  /** The custom-format text reads back as the span's magnitude cut to whole seconds. */
  lemma DaysClockRoundTrip(span: TimeSpan)
    ensures ParseSpan(FormatDaysClock(span)).Parsed?
    ensures ParseSpan(FormatDaysClock(span)).span == WholeSeconds(Magnitude(span))
  {
    var m := Magnitude(span);
    var c := Decompose(m);
    LexDaysClock(span);
    ParseDayLexemes(FormatDaysClock(span), c.days, '.', c.hours, c.minutes, c.seconds);
    AssembleDecomposed(m);
  }

  /** `TimeSpan.Parse(span.ToString(@"dd\.hh\:mm\:ss"))`: the text always parses, and the
      round trip keeps the whole seconds of the magnitude. */
  function ReparseDaysClock(span: TimeSpan): (r: TimeSpan)
    ensures r == WholeSeconds(Magnitude(span))
  {
    DaysClockRoundTrip(span);
    ParseSpan(FormatDaysClock(span)).span
  }

  /** Without a fraction, "hh:mm:ss" lexes to the three clock numbers. */
  lemma LexClock(c: Clock)
    ensures Lex(TimeOfDayThen(c, [])) == ClockLexemes(c.hours, c.minutes, c.seconds)
  {
    LexTimeOfDay(c, []);
    assert [Num(c.seconds)] + Lex([]) == [Num(c.seconds)];
  }

  lemma LexUnsignedConstant(c: Clock)
    requires c.fraction == 0
    ensures if c.days != 0 then Lex(UnsignedConstant(c)) == DayLexemes(c.days, '.', c.hours, c.minutes, c.seconds)
            else Lex(UnsignedConstant(c)) == ClockLexemes(c.hours, c.minutes, c.seconds)
  {
    var t := TimeOfDayThen(c, []);
    LexClock(c);
    if c.days != 0 {
      var d := NatToString(c.days);
      assert UnsignedConstant(c) == d + (['.'] + t);
      NatToStringDigits(c.days);
      NatToStringRoundTrip(c.days);
      LexNumSep(d, '.', t);
    } else {
      assert UnsignedConstant(c) == t;
    }
  }

  /** The constant-format text of a non-negative whole-second span reads back as the span. */
  lemma ConstantRoundTrip(span: TimeSpan)
    requires span >= 0 && span % TicksPerSecond == 0
    ensures ParseSpan(FormatConstant(span)) == Parsed(span)
  {
    var c := Decompose(span);
    var text := FormatConstant(span);
    assert text == UnsignedConstant(c);
    LexUnsignedConstant(c);
    AssembleDecomposed(span);
    if c.days != 0 {
      ParseDayLexemes(text, c.days, '.', c.hours, c.minutes, c.seconds);
    } else {
      ParseClockLexemes(text, c.hours, c.minutes, c.seconds);
    }
  }

  lemma LexNumSep(d: string, sep: char, rest: string)
    requires d != [] && AllDigits(d) && !IsDigit(sep)
    ensures Lex(d + ([sep] + rest)) == Field(DecValue(d), sep, Lex(rest))
  {
    LexSepThen(sep, rest);
    LexDigitsThen(d, [sep] + rest);
  }

  lemma LexZeroLiteral(z: string)
    requires z == "0"
    ensures Lex(z + ([':'] + (z + ([':'] + (z + ([':'] + z)))))) == DayLexemes(0, ':', 0, 0, 0)
  {
    assert AllDigits(z) && DecValue(z) == 0;
    LexDigitsThen(z, []);
    assert z + [] == z;
    var s2 := z + ([':'] + z);
    LexNumSep(z, ':', z);
    var s3 := z + ([':'] + s2);
    LexNumSep(z, ':', s2);
    LexNumSep(z, ':', s3);
  }

  /** The literal "0:0:0:0" parses as the zero span. */
  lemma ZeroLiteral()
    ensures ParseSpan("0:0:0:0") == Parsed(0)
  {
    ZeroLiteralText("0:0:0:0");
  }

  /** `ZeroLiteral` for a text known to equal the literal, built up one field at a time. */
  lemma ZeroLiteralText(text: string)
    requires text == "0:0:0:0"
    ensures ParseSpan(text) == Parsed(0)
  {
    var z := ['0'];
    var s1 := [':'] + z;
    var s2 := z + s1;
    var s3 := [':'] + s2;
    var s4 := z + s3;
    var s5 := [':'] + s4;
    assert text == z + s5;
    LexZeroLiteral(z);
    ParseDayLexemes(text, 0, ':', 0, 0, 0);
  }
}
