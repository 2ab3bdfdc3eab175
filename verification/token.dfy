/** `Personio.Core.AccessToken`: the credential a session holds, and the views derived
    from its timestamps. The clock is not read here: every view that the class computes
    from `DateTime.Now` takes that instant as the parameter `now`. */
module PersonioCore {
  import opened Nullable
  import opened Decimal
  import opened Time

  /** The token secret. Its protected contents are not modelled; only whether a
      `SecureString` is present matters. */
  datatype SecureString = SecureString

  datatype Guid = Guid(value: nat)

  /** The fields of an `AccessToken`, including its private `_returnValue`. */
  datatype AccessToken = AccessToken(
    tokenId: Guid,
    clientId: NString,
    applicationId: NString,
    applicationPartnerId: NString,
    issuer: NString,
    scope: Nullable<seq<NString>>,
    token: Nullable<SecureString>,
    apiUri: NString,
    created: DateTime,
    notBefore: DateTime,
    expires: DateTime,
    modified: DateTime,
    cache: NString)

  /** `GetType().Name`. */
  const TypeName: string := "AccessToken"

  /** `IsValid`: false once the expiry lies before `now`, false without a token or a scope,
      true otherwise. The class also tests the expiry against null, which a `DateTime`
      never is; that test is kept below and never fires. An expiry equal to `now` is still
      valid. */
  function IsValid(t: AccessToken, now: DateTime): (valid: bool)
    ensures valid <==> now <= t.expires && t.token.NonNull? && t.scope.NonNull?
  {
    if t.expires < now then false
    else if NonNull(t.expires) == Null then false
    else if t.token.Null? then false
    else if t.scope.Null? then false
    else true
  }

  /** `AccessTokenLifeTime`: the span from creation to expiry, negative when the expiry
      precedes the creation. */
  function AccessTokenLifeTime(t: AccessToken): (life: TimeSpan)
    ensures t.created + life == t.expires
  {
    Subtract(t.expires, t.created)
  }

  /** `TimeRemaining`: once expired, `TimeSpan.Parse("0:0:0:0")`, which `ZeroLiteral`
      shows to be the zero span; otherwise the span to the expiry, printed with the custom
      format "dd\.hh\:mm\:ss" and parsed back, which drops the sub-second ticks. */
  function TimeRemaining(t: AccessToken, now: DateTime): (remaining: TimeSpan)
    ensures t.expires <= now ==> remaining == 0
    ensures t.expires > now ==> remaining == WholeSeconds(t.expires - now)
  {
    if t.expires > now then
      var span := Subtract(t.expires, now);
      assert Magnitude(span) == span as int;
      ReparseDaysClock(span)
    else 0
  }

  /** `Math.Round(x, 0)`: the nearest integer, ties going to the even one. */
  function RoundHalfEven(x: real): (r: int)
    ensures -0.5 <= r as real - x <= 0.5
    ensures (r as real - x == 0.5 || x - r as real == 0.5) ==> r % 2 == 0
  {
    var f := x.Floor;
    var d := x - f as real;
    if d < 0.5 then f
    else if d > 0.5 then f + 1
    else if f % 2 == 0 then f
    else f + 1
  }

  /** The range of a C# `short` (`Int16`). */
  predicate IsInt16(n: int) {
    -0x8000 <= n < 0x8000
  }

  type Int16 = n: int | IsInt16(n)

  /** The value of `PercentRemaining`, or `Unrepresentable` where the class computes a
      non-finite quotient (a zero lifetime) or casts a value outside `Int16`, for which C#
      does not specify the result. */
  datatype Percent = Percent(value: Int16) | Unrepresentable

  /** `PercentRemaining`: 0 once expired; otherwise the remaining time as a rounded
      percentage of the lifetime. The quotient is taken on the reals; the binary rounding
      of `double` is not modelled. */
  function PercentRemaining(t: AccessToken, now: DateTime): (p: Percent)
    ensures t.expires <= now ==> p == Percent(0)
    ensures p.Percent? && t.expires > now ==>
              AccessTokenLifeTime(t) != 0
              && -0.5 <= p.value as real - Ratio(TimeRemaining(t, now), AccessTokenLifeTime(t)) <= 0.5
    ensures (t.expires > now && AccessTokenLifeTime(t) != 0
             && IsInt16(RoundHalfEven(Ratio(TimeRemaining(t, now), AccessTokenLifeTime(t)))))
            ==> p.Percent?
    ensures (p.Percent? && t.expires > now
             && (p.value as real - Ratio(TimeRemaining(t, now), AccessTokenLifeTime(t)) == 0.5
                 || Ratio(TimeRemaining(t, now), AccessTokenLifeTime(t)) - p.value as real == 0.5))
            ==> p.value % 2 == 0
  {
    if t.expires > now then PercentOf(TimeRemaining(t, now), AccessTokenLifeTime(t))
    else Percent(0)
  }

  /** `(Int16)Math.Round(remaining / life * 100, 0)` for a token that has not expired. */
  function PercentOf(remaining: int, life: int): (p: Percent)
    ensures p.Percent? ==> life != 0
    ensures p.Percent? ==> -0.5 <= p.value as real - Ratio(remaining, life) <= 0.5
    ensures (p.Percent? && (p.value as real - Ratio(remaining, life) == 0.5
                            || Ratio(remaining, life) - p.value as real == 0.5))
            ==> p.value % 2 == 0
    ensures life != 0 && IsInt16(RoundHalfEven(Ratio(remaining, life))) ==> p.Percent?
    ensures life != 0 && 0 <= remaining <= life ==> p.Percent? && 0 <= p.value <= 100
  {
    if life == 0 then Unrepresentable
    else
      var rounded := RoundHalfEven(Ratio(remaining, life));
      if 0 <= remaining <= life && life > 0 then RatioBounds(remaining, life); Percent(rounded)
      else if IsInt16(rounded) then Percent(rounded) else Unrepresentable
  }

  /** `part / whole * 100` on the reals. */
  function Ratio(part: int, whole: int): real
    requires whole != 0
  {
    (part as real) / (whole as real) * 100.0
  }

  /** A percentage of a whole that is at most the whole lies between 0 and 100. */
  lemma RatioBounds(part: int, whole: int)
    requires 0 <= part <= whole && whole > 0
    ensures 0.0 <= Ratio(part, whole) <= 100.0
  {
    var q := (part as real) / (whole as real);
    assert q * (whole as real) == part as real;
  }

  /** For a token whose creation lies at or before `now` and whose expiry lies after it,
      the percentage is defined and lies between 0 and 100. */
  lemma PercentInRange(t: AccessToken, now: DateTime)
    requires t.created <= now < t.expires
    ensures PercentRemaining(t, now).Percent?
    ensures 0 <= PercentRemaining(t, now).value <= 100
  {
    assert 0 <= TimeRemaining(t, now) <= AccessTokenLifeTime(t);
  }

  /** The `set` accessors of the four derived views have empty bodies: an assignment
      stores nothing and leaves every field as it was. */
  function SetIsValid(t: AccessToken, value: bool): (t': AccessToken)
    ensures t' == t
  {
    t
  }

  function SetAccessTokenLifeTime(t: AccessToken, value: TimeSpan): (t': AccessToken)
    ensures t' == t
  {
    t
  }

  function SetTimeRemaining(t: AccessToken, value: TimeSpan): (t': AccessToken)
    ensures t' == t
  {
    t
  }

  function SetPercentRemaining(t: AccessToken, value: Int16): (t': AccessToken)
    ensures t' == t
  {
    t
  }

  /** `ToString()`: the API URI followed by " | " and the remaining time in the constant
      format, or the type name when there is no URI. The remaining time's text is never
      empty, so the separator is always written. */
  function ToString(t: AccessToken, now: DateTime): (out: Rendered<AccessToken>)
    ensures IsNullOrEmpty(t.apiUri) ==> out.text == TypeName
    ensures !IsNullOrEmpty(t.apiUri) ==>
              out.text == t.apiUri.value + " | " + FormatConstant(TimeRemaining(t, now))
    ensures out.after == t.(cache := NonNull(out.text))
  {
    if !IsNullOrEmpty(t.apiUri) then
      var value := t.apiUri.value;
      var text :=
        if !IsNullOrEmpty(NonNull(FormatConstant(TimeRemaining(t, now)))) then
          value + " | " + FormatConstant(TimeRemaining(t, now))
        else value;
      Rendered(t.(cache := NonNull(text)), text)
    else Rendered(t.(cache := NonNull(TypeName)), TypeName)
  }

  /** The text after the URI and separator reads back as the remaining time. */
  lemma ToStringShowsRemaining(t: AccessToken, now: DateTime)
    requires !IsNullOrEmpty(t.apiUri)
    ensures var text := ToString(t, now).text;
            var n := |t.apiUri.value| + 3;
            |text| > n && text[..n] == t.apiUri.value + " | "
            && ParseSpan(text[n..]) == Parsed(TimeRemaining(t, now))
  {
    var r := TimeRemaining(t, now);
    var text := ToString(t, now).text;
    var n := |t.apiUri.value| + 3;
    assert text[n..] == FormatConstant(r);
    assert text[..n] == t.apiUri.value + " | ";
    ConstantRoundTrip(r);
  }

  /** Validity and remaining time agree except at the instant of expiry: a token with
      time left, a secret and a scope is valid; at expiry it is still valid although
      nothing remains. */
  lemma ValidityMatchesRemainingTime(t: AccessToken, now: DateTime)
    ensures TimeRemaining(t, now) > 0 && t.token.NonNull? && t.scope.NonNull? ==> IsValid(t, now)
    ensures t.expires == now && t.token.NonNull? && t.scope.NonNull? ==>
              IsValid(t, now) && TimeRemaining(t, now) == 0 && PercentRemaining(t, now) == Percent(0)
  {
  }

  /** The remaining time never exceeds the span to the expiry and falls short of it by
      less than a second; once expired it and the percentage are zero. */
  lemma RemainingBounds(t: AccessToken, now: DateTime)
    ensures 0 <= TimeRemaining(t, now)
    ensures t.expires > now ==>
              TimeRemaining(t, now) <= t.expires - now < TimeRemaining(t, now) + TicksPerSecond
    ensures t.expires < now ==>
              !IsValid(t, now) && TimeRemaining(t, now) == 0 && PercentRemaining(t, now) == Percent(0)
  {
  }

  /** A token created at `start` and expiring an hour later has 30 minutes and 50 percent
      left half an hour in. */
  lemma HalfHourRemaining(t: AccessToken, start: DateTime)
    requires start as int + 36_000_000_000 <= MaxDateTimeTicks
    requires t.created == start && t.expires == start + 36_000_000_000
    ensures TimeRemaining(t, start + 18_000_000_000) == 18_000_000_000
  {
    assert WholeSeconds(18_000_000_000) == 18_000_000_000;
  }

  lemma HalfHourPercent(t: AccessToken, start: DateTime)
    requires start as int + 36_000_000_000 <= MaxDateTimeTicks
    requires t.created == start && t.expires == start + 36_000_000_000
    ensures PercentRemaining(t, start + 18_000_000_000) == Percent(50)
  {
    HalfHourRemaining(t, start);
    HalfOfAnHour();
  }

  lemma HalfOfAnHour()
    ensures PercentOf(18_000_000_000, 36_000_000_000) == Percent(50)
  {
    assert Ratio(18_000_000_000, 36_000_000_000) == 50.0;
  }

  /** Assigning the derived views changes none of them. */
  lemma AssignmentsAreIgnored(t: AccessToken, now: DateTime, valid: bool, span: TimeSpan, percent: Int16)
    ensures var t' := SetPercentRemaining(SetTimeRemaining(SetAccessTokenLifeTime(SetIsValid(t, valid), span), span), percent);
            IsValid(t', now) == IsValid(t, now)
            && AccessTokenLifeTime(t') == AccessTokenLifeTime(t)
            && TimeRemaining(t', now) == TimeRemaining(t, now)
            && PercentRemaining(t', now) == PercentRemaining(t, now)
  {
  }
}
