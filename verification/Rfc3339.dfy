/** Parsing UTC timestamps to nanoseconds since 1970, and the time windows of authorizations and leases. */
module Rfc3339 {
  import opened Wrappers
  import opened Calendar

  const I128_MAX := 0x7FFF_FFFF_FFFF_FFFF_FFFF_FFFF_FFFF_FFFF
  const NANOS_PER_SECOND := 1_000_000_000

  // ----- text -----

  predicate Digit(c: char) {
    '0' <= c <= '9'
  }

  predicate AllDigits(s: string) {
    forall c <- s :: Digit(c)
  }

  function Value(s: string): nat
    requires AllDigits(s)
  {
    if s == "" then 0
    else
      assert s[|s| - 1] in s;
      Value(s[..|s| - 1]) * 10 + (s[|s| - 1] as int - '0' as int)
  }

  /** A decimal integer with an optional sign, within the parser's 128 bits. */
  function ParseInt(s: string): Option<int> {
    var signed := s != "" && (s[0] == '-' || s[0] == '+');
    var digits := if signed then s[1..] else s;
    if digits == "" || !AllDigits(digits) then None
    else
      var n := if signed && s[0] == '-' then -(Value(digits) as int) else Value(digits);
      if -I128_MAX - 1 <= n <= I128_MAX then Some(n) else None
  }

  function IndexOf(s: string, c: char): (i: nat)
    ensures i <= |s| && (i < |s| ==> s[i] == c) && forall k :: 0 <= k < i ==> s[k] != c
  {
    if s == "" || s[0] == c then 0
    else
      var i := IndexOf(s[1..], c);
      assert forall k :: 1 <= k < i + 1 ==> s[k] == s[1..][k - 1];
      i + 1
  }

  function SplitOnce(s: string, c: char): Option<(string, string)> {
    var i := IndexOf(s, c);
    if i == |s| then None else Some((s[..i], s[i + 1..]))
  }

  function Split(s: string, c: char): (parts: seq<string>)
    ensures |parts| > 0
    decreases |s|
  {
    var i := IndexOf(s, c);
    if i == |s| then [s] else [s[..i]] + Split(s[i + 1..], c)
  }

  function Pow10(n: nat): nat {
    if n == 0 then 1 else 10 * Pow10(n - 1)
  }

  function ParseFraction(text: string): Option<nat> {
    if |text| > 9 || !AllDigits(text) then None else Some(Value(text) * Pow10(9 - |text|))
  }

  /** Parts after the third are ignored, of the date and of the time. */
  function ParseThree(s: string, c: char): Option<(string, string, string)> {
    var parts := Split(s, c);
    if |parts| < 3 then None else Some((parts[0], parts[1], parts[2]))
  }

  function Nanoseconds(days: int, hour: int, minute: int, second: int, nanos: int): int {
    (((days * 24 + hour) * 60 + minute) * 60 + second) * NANOS_PER_SECOND + nanos
  }

  function ParseDate(s: string): Option<Date> {
    var parts := ParseThree(s, '-');
    if parts.None? then None
    else
      var (y, m, d) := parts.value;
      var year, month, day := ParseInt(y), ParseInt(m), ParseInt(d);
      if year.None? || month.None? || day.None? then None else Some(Date(year.value, month.value, day.value))
  }

  function ParseTime(s: string): Option<(int, int, int, nat)> {
    var parts := ParseThree(s, ':');
    if parts.None? then None
    else
      var (h, m, rest) := parts.value;
      var (text, fraction) := SplitOnce(rest, '.').GetOr((rest, ""));
      var hour, minute, second, nanos := ParseInt(h), ParseInt(m), ParseInt(text), ParseFraction(fraction);
      if hour.None? || minute.None? || second.None? || nanos.None? then None
      else Some((hour.value, minute.value, second.value, nanos.value))
  }

  /** The range checks, and the nanoseconds; a negative hour, minute or second passes them. */
  function Combine(date: Option<Date>, time: Option<(int, int, int, nat)>): Option<int> {
    if date.None? || time.None? then None
    else
      var (hour, minute, second, nanos) := time.value;
      if !(1 <= date.value.month <= 12) || !(1 <= date.value.day <= 31) || hour > 23 || minute > 59 || second > 59
      then None
      else Some(Nanoseconds(ClosedFormOf(date.value), hour, minute, second, nanos))
  }

  function Parse(value: string): Option<int> {
    if value == "" || value[|value| - 1] != 'Z' then None
    else
      var halves := SplitOnce(value[..|value| - 1], 'T');
      if halves.None? then None else Combine(ParseDate(halves.value.0), ParseTime(halves.value.1))
  }

  // ----- canonical timestamps -----

  /** A UTC time stamp; `fraction` is its digits after the decimal point, if any. */
  datatype Stamp = Stamp(date: Date, hour: nat, minute: nat, second: nat, fraction: string)

  /** Section 5.6 of RFC 3339: a four-digit year, and a date that exists; leap seconds are not accepted. */
  predicate Canonical(s: Stamp) {
    && Shaped(s) && ValidDate(s.date) && 1 <= s.date.year
    && s.hour <= 23 && s.minute <= 59 && s.second <= 59
    && |s.fraction| <= 9
  }

  /** Text of that shape, whatever the fields say: digits in every place. */
  predicate Shaped(s: Stamp) {
    && 0 <= s.date.year <= 9999 && 0 <= s.date.month <= 99 && 0 <= s.date.day <= 99
    && s.hour <= 99 && s.minute <= 99 && s.second <= 99 && AllDigits(s.fraction)
  }

  function Pad(n: nat, width: nat): (s: string)
    ensures |s| == width && AllDigits(s)
    decreases width
  {
    if width == 0 then "" else Pad(n / 10, width - 1) + [(n % 10) as char + '0']
  }

  function RenderDate(d: Date): string
    requires d.year >= 0 && d.month >= 0 && d.day >= 0
  {
    Pad(d.year, 4) + ['-'] + (Pad(d.month, 2) + ['-'] + Pad(d.day, 2))
  }

  function RenderSeconds(second: nat, fraction: string): string {
    if fraction == "" then Pad(second, 2) else Pad(second, 2) + ['.'] + fraction
  }

  function RenderTime(s: Stamp): string {
    Pad(s.hour, 2) + [':'] + (Pad(s.minute, 2) + [':'] + RenderSeconds(s.second, s.fraction))
  }

  function Render(s: Stamp): string
    requires Shaped(s)
  {
    RenderDate(s.date) + ['T'] + RenderTime(s) + ['Z']
  }

  function NanosOf(s: Stamp): nat
    requires Canonical(s)
  {
    Value(s.fraction) * Pow10(9 - |s.fraction|)
  }

  /** Nanoseconds since 1970, the days counted on the calendar. */
  function Elapsed(s: Stamp): int
    requires Canonical(s)
  {
    DaysSinceEpoch(s.date) * 86_400_000_000_000 + s.hour * 3_600_000_000_000 + s.minute * 60_000_000_000
    + s.second * 1_000_000_000 + NanosOf(s)
  }

  lemma {:induction false} PadValue(n: nat, width: nat)
    requires n < Pow10(width)
    ensures Value(Pad(n, width)) == n
    decreases width
  {
    if width > 0 {
      var s := Pad(n, width);
      assert s[..width - 1] == Pad(n / 10, width - 1);
      PadValue(n / 10, width - 1);
    }
  }

  lemma {:induction false} ValueBound(s: string)
    requires AllDigits(s)
    ensures Value(s) < Pow10(|s|)
  {
    if s != "" {
      assert s[|s| - 1] in s;
      ValueBound(s[..|s| - 1]);
    }
  }

  lemma ParseDigits(s: string)
    requires s != "" && AllDigits(s) && Value(s) <= I128_MAX
    ensures ParseInt(s) == Some(Value(s))
  {
    assert s[0] in s;
  }

  /** An integer is digits after at most one sign, between -2^127 and 2^127 - 1. */
  lemma IntegerExactly(digits: string)
    requires digits != "" && AllDigits(digits)
    ensures ParseInt(digits) ==
            if Value(digits) < 0x8000_0000_0000_0000_0000_0000_0000_0000 then Some(Value(digits)) else None
    ensures ParseInt(['+'] + digits) == ParseInt(digits)
    ensures ParseInt(['-'] + digits) ==
            if Value(digits) <= 0x8000_0000_0000_0000_0000_0000_0000_0000 then Some(-(Value(digits) as int)) else None
  {
    assert digits[0] in digits;
    assert (['+'] + digits)[1..] == digits && (['-'] + digits)[1..] == digits;
  }

  lemma IntegerOnly(s: string)
    requires ParseInt(s).Some?
    ensures (s != "" && AllDigits(s))
            || (|s| > 1 && (s[0] == '+' || s[0] == '-') && AllDigits(s[1..]))
  {
  }

  lemma ParsePad(n: nat, width: nat)
    requires n < Pow10(width) && 0 < width && n <= 9999
    ensures ParseInt(Pad(n, width)) == Some(n)
  {
    PadValue(n, width);
    ParseDigits(Pad(n, width));
  }

  lemma IndexOfIs(a: string, c: char, b: string)
    requires c !in a
    ensures IndexOf(a + [c] + b, c) == |a|
  {
    var s := a + [c] + b;
    assert s[|a|] == c;
    assert forall k :: 0 <= k < |a| ==> s[k] == a[k] && a[k] in a;
  }

  lemma SplitOnceIs(a: string, c: char, b: string)
    requires c !in a
    ensures SplitOnce(a + [c] + b, c) == Some((a, b))
  {
    IndexOfIs(a, c, b);
    var s := a + [c] + b;
    assert s[..|a|] == a && s[|a| + 1..] == b;
  }

  lemma NotIndexed(s: string, c: char)
    requires c !in s
    ensures IndexOf(s, c) == |s|
  {
    assert forall k :: 0 <= k < |s| ==> s[k] in s;
  }

  lemma ThreeParts(a: string, b: string, rest: string, c: char)
    requires c !in a && c !in b && c !in rest
    ensures ParseThree(a + [c] + (b + [c] + rest), c) == Some((a, b, rest))
  {
    var tail := b + [c] + rest;
    var s := a + [c] + tail;
    IndexOfIs(a, c, tail);
    IndexOfIs(b, c, rest);
    NotIndexed(rest, c);
    assert s[..|a|] == a && s[|a| + 1..] == tail;
    assert tail[..|b|] == b && tail[|b| + 1..] == rest;
    assert Split(rest, c) == [rest];
    assert Split(tail, c) == [b, rest];
    assert Split(s, c) == [a, b, rest];
  }

  lemma DateParses(d: Date)
    requires 0 <= d.year <= 9999 && 0 <= d.month <= 99 && 0 <= d.day <= 99
    ensures ParseDate(RenderDate(d)) == Some(d)
  {
    assert Pow10(2) == 100 && Pow10(4) == 10000 by {
      assert Pow10(1) == 10 && Pow10(3) == 1000;
    }
    ParsePad(d.year, 4);
    ParsePad(d.month, 2);
    ParsePad(d.day, 2);
    DigitsOnly(Pad(d.year, 4));
    DigitsOnly(Pad(d.month, 2));
    DigitsOnly(Pad(d.day, 2));
    ThreeParts(Pad(d.year, 4), Pad(d.month, 2), Pad(d.day, 2), '-');
  }

  lemma DigitsOnly(s: string)
    requires AllDigits(s)
    ensures '-' !in s && ':' !in s && '.' !in s && 'T' !in s
  {
  }

  lemma SecondsParse(second: nat, fraction: string)
    requires AllDigits(fraction)
    ensures ':' !in RenderSeconds(second, fraction)
    ensures SplitOnce(RenderSeconds(second, fraction), '.').GetOr((RenderSeconds(second, fraction), ""))
            == (Pad(second, 2), fraction)
  {
    DigitsOnly(Pad(second, 2));
    DigitsOnly(fraction);
    if fraction == "" {
      NotIndexed(Pad(second, 2), '.');
    } else {
      SplitOnceIs(Pad(second, 2), '.', fraction);
    }
  }

  lemma TimeParts(s: Stamp)
    requires Shaped(s)
    ensures ParseThree(RenderTime(s), ':') == Some((Pad(s.hour, 2), Pad(s.minute, 2), RenderSeconds(s.second, s.fraction)))
  {
    DigitsOnly(Pad(s.hour, 2));
    DigitsOnly(Pad(s.minute, 2));
    SecondsParse(s.second, s.fraction);
    ThreeParts(Pad(s.hour, 2), Pad(s.minute, 2), RenderSeconds(s.second, s.fraction), ':');
  }

  lemma TimeParses(s: Stamp)
    requires Shaped(s)
    ensures ParseTime(RenderTime(s)) ==
            if |s.fraction| > 9 then None
            else Some((s.hour, s.minute, s.second, Value(s.fraction) * Pow10(9 - |s.fraction|)))
  {
    assert Pow10(2) == 100 by {
      assert Pow10(1) == 10;
    }
    ParsePad(s.hour, 2);
    ParsePad(s.minute, 2);
    ParsePad(s.second, 2);
    SecondsParse(s.second, s.fraction);
    TimeParts(s);
  }

  lemma ParseHalves(date: string, time: string)
    requires 'T' !in date
    ensures Parse(date + ['T'] + time + ['Z']) == Combine(ParseDate(date), ParseTime(time))
  {
    var text := date + ['T'] + time + ['Z'];
    assert text[..|text| - 1] == date + ['T'] + time;
    SplitOnceIs(date, 'T', time);
  }

  lemma DateHoldsNoT(d: Date)
    requires d.year >= 0 && d.month >= 0 && d.day >= 0
    ensures 'T' !in RenderDate(d)
  {
    DigitsOnly(Pad(d.year, 4));
    DigitsOnly(Pad(d.month, 2));
    DigitsOnly(Pad(d.day, 2));
  }

  lemma CombineCanonical(s: Stamp)
    requires Canonical(s)
    ensures Combine(Some(s.date), Some((s.hour, s.minute, s.second, NanosOf(s)))) == Some(Elapsed(s))
  {
    ClosedFormExactly(s.date);
  }

  /** The fields lie in their ranges; a day up to 31 does in every month. */
  predicate InRange(s: Stamp) {
    1 <= s.date.month <= 12 && 1 <= s.date.day <= 31 && s.hour <= 23 && s.minute <= 59 && s.second <= 59 && |s.fraction| <= 9
  }

  /** Text of the shape of a time stamp parses exactly when its fields lie in their ranges. */
  lemma ParseShaped(s: Stamp)
    requires Shaped(s)
    ensures Parse(Render(s)).Some? <==> InRange(s)
    ensures InRange(s) ==>
              Parse(Render(s)) == Some(Nanoseconds(ClosedFormOf(s.date), s.hour, s.minute, s.second,
                                                   Value(s.fraction) * Pow10(9 - |s.fraction|)))
  {
    DateHoldsNoT(s.date);
    ParseHalves(RenderDate(s.date), RenderTime(s));
    DateParses(s.date);
    TimeParses(s);
  }

  /** A stamp that lacks its Z, or the T between date and time, is refused. */
  lemma ParseNeedsMarks(value: string)
    ensures Parse(value).Some? ==> value != "" && value[|value| - 1] == 'Z' && 'T' in value
  {
    if value != "" {
      var text := value[..|value| - 1];
      var i := IndexOf(text, 'T');
      assert i < |text| ==> value[i] == 'T';
    }
  }

  function Zeros(n: nat): (s: string)
    ensures |s| == n && AllDigits(s)
  {
    if n == 0 then "" else Zeros(n - 1) + ['0']
  }

  lemma {:induction false} ValueShifted(s: string, n: nat)
    requires AllDigits(s)
    ensures AllDigits(s + Zeros(n)) && Value(s + Zeros(n)) == Value(s) * Pow10(n)
    decreases n
  {
    if n == 0 {
      assert s + Zeros(0) == s;
    } else {
      var longer, shorter := s + Zeros(n), s + Zeros(n - 1);
      ValueShifted(s, n - 1);
      assert longer == shorter + ['0'];
      assert longer[..|longer| - 1] == shorter;
    }
  }

  /** A fraction is nanoseconds when filled up to nine digits with zeros. */
  lemma FractionFilled(s: Stamp)
    requires Canonical(s)
    ensures AllDigits(s.fraction + Zeros(9 - |s.fraction|))
    ensures NanosOf(s) == Value(s.fraction + Zeros(9 - |s.fraction|))
  {
    ValueShifted(s.fraction, 9 - |s.fraction|);
  }

  lemma CanonicalTime(s: Stamp)
    requires Canonical(s)
    ensures ParseTime(RenderTime(s)) == Some((s.hour, s.minute, s.second, NanosOf(s)))
  {
    TimeParses(s);
  }

  lemma CanonicalHalves(s: Stamp)
    requires Canonical(s)
    ensures Parse(Render(s)) == Combine(Some(s.date), ParseTime(RenderTime(s)))
  {
    DateHoldsNoT(s.date);
    ParseHalves(RenderDate(s.date), RenderTime(s));
    DateParses(s.date);
  }

  /** Every canonical time stamp parses to the nanoseconds since 1970, its days counted one by one. */
  lemma ParseRender(s: Stamp)
    requires Canonical(s)
    ensures Parse(Render(s)) == Some(Elapsed(s))
  {
    CanonicalHalves(s);
    CanonicalTime(s);
    CombineCanonical(s);
  }

  // ----- order -----

  /** One time stamp is before another, field by field; fractions are compared in nanoseconds. */
  predicate Before(a: Stamp, b: Stamp)
    requires Canonical(a) && Canonical(b)
  {
    || Earlier(a.date, b.date)
    || (a.date == b.date && a.hour < b.hour)
    || (a.date == b.date && a.hour == b.hour && a.minute < b.minute)
    || (a.date == b.date && a.hour == b.hour && a.minute == b.minute && a.second < b.second)
    || (a.date == b.date && a.hour == b.hour && a.minute == b.minute && a.second == b.second && NanosOf(a) < NanosOf(b))
  }

  lemma {:induction false} Pow10Sum(a: nat, b: nat)
    ensures Pow10(a) * Pow10(b) == Pow10(a + b)
    decreases a
  {
    if a > 0 {
      Pow10Sum(a - 1, b);
      calc {
        Pow10(a) * Pow10(b);
        10 * Pow10(a - 1) * Pow10(b);
        10 * (Pow10(a - 1) * Pow10(b));
        10 * Pow10(a - 1 + b);
        Pow10(a + b);
      }
    }
  }

  lemma NanosBound(s: Stamp)
    requires Canonical(s)
    ensures NanosOf(s) < NANOS_PER_SECOND
  {
    var n := |s.fraction|;
    ValueBound(s.fraction);
    Pow10Sum(n, 9 - n);
    Billion();
    assert Value(s.fraction) * Pow10(9 - n) < Pow10(n) * Pow10(9 - n) by {
      Pow10Positive(9 - n);
      LessTimes(Value(s.fraction), Pow10(n), Pow10(9 - n));
    }
  }

  lemma LessTimes(a: nat, b: nat, c: nat)
    requires a < b && c > 0
    ensures a * c < b * c
  {
    assert (b - a) * c > 0;
  }

  lemma {:induction false} Pow10Positive(n: nat)
    ensures Pow10(n) > 0
  {
    if n > 0 {
      Pow10Positive(n - 1);
    }
  }

  lemma Billion()
    ensures Pow10(9) == NANOS_PER_SECOND
  {
    assert Pow10(3) == 1000 by {
      assert Pow10(1) == 10;
    }
    assert Pow10(6) == 1_000_000 by {
      assert Pow10(4) == 10_000;
    }
    assert Pow10(7) == 10_000_000;
  }

  lemma Separates(a: Stamp, b: Stamp)
    requires Canonical(a) && Canonical(b) && Before(a, b)
    ensures Elapsed(a) < Elapsed(b)
  {
    NanosBound(a);
    NanosBound(b);
    if Earlier(a.date, b.date) {
      DayCountIncreases(a.date, b.date);
    }
  }

  lemma EarlierTotal(d: Date, e: Date)
    ensures Earlier(d, e) || d == e || Earlier(e, d)
  {
  }

  lemma ElapsedOrder(a: Stamp, b: Stamp)
    requires Canonical(a) && Canonical(b)
    ensures Elapsed(a) < Elapsed(b) <==> Before(a, b)
  {
    EarlierTotal(a.date, b.date);
    if Before(a, b) {
      Separates(a, b);
    } else if Before(b, a) {
      Separates(b, a);
    } else {
      assert Elapsed(a) == Elapsed(b);
    }
  }

  /** Parsing preserves and reflects the order of canonical time stamps. */
  lemma ParseKeepsOrder(a: Stamp, b: Stamp)
    requires Canonical(a) && Canonical(b)
    ensures Parse(Render(a)).Some? && Parse(Render(b)).Some?
    ensures Parse(Render(a)).value < Parse(Render(b)).value <==> Before(a, b)
  {
    ParseRender(a);
    ParseRender(b);
    ElapsedOrder(a, b);
  }

  // ----- the windows that rely on it -----

  datatype WindowError = InvalidClaims | ClaimsNotYetValid | ClaimsExpired

  const MAX_LEASE_NANOS := 90 * NANOS_PER_SECOND

  /** The time part of verifying an execution authorization. */
  function CheckAuthorization(now: string, notBefore: string, expiresAt: string): Result<(), WindowError> {
    AuthorizationAt(Parse(now), Parse(notBefore), Parse(expiresAt))
  }

  function AuthorizationAt(n: Option<int>, from: Option<int>, to: Option<int>): Result<(), WindowError> {
    if n.None? || from.None? || to.None? then Err(InvalidClaims)
    else if to.value <= from.value then Err(InvalidClaims)
    else if n.value < from.value then Err(ClaimsNotYetValid)
    else if n.value >= to.value then Err(ClaimsExpired)
    else Ok(())
  }

  /** The time part of verifying an execution lease. */
  function CheckLease(now: string, issuedAt: string, expiresAt: string): Result<(), WindowError> {
    LeaseAt(Parse(now), Parse(issuedAt), Parse(expiresAt))
  }

  function LeaseAt(n: Option<int>, issued: Option<int>, to: Option<int>): Result<(), WindowError> {
    if issued.None? || to.None? then Err(InvalidClaims)
    else if to.value <= issued.value || to.value - issued.value > MAX_LEASE_NANOS then Err(InvalidClaims)
    else if n.None? then Err(InvalidClaims)
    else if n.value >= to.value then Err(ClaimsExpired)
    else Ok(())
  }

  /** On canonical time stamps an authorization is in force exactly from its start to before its end. */
  lemma AuthorizationWindow(now: Stamp, notBefore: Stamp, expiresAt: Stamp)
    requires Canonical(now) && Canonical(notBefore) && Canonical(expiresAt)
    ensures CheckAuthorization(Render(now), Render(notBefore), Render(expiresAt)).Ok? <==>
              !Before(now, notBefore) && Before(now, expiresAt)
    ensures var answer := CheckAuthorization(Render(now), Render(notBefore), Render(expiresAt));
            && (answer == Err(InvalidClaims) <==> !Before(notBefore, expiresAt))
            && (answer == Err(ClaimsNotYetValid) <==> Before(notBefore, expiresAt) && Before(now, notBefore))
            && (answer == Err(ClaimsExpired) <==>
                  Before(notBefore, expiresAt) && !Before(now, notBefore) && !Before(now, expiresAt))
  {
    ParseKeepsOrder(now, notBefore);
    ParseKeepsOrder(now, expiresAt);
    ParseKeepsOrder(notBefore, expiresAt);
    InForce(Parse(Render(now)), Parse(Render(notBefore)), Parse(Render(expiresAt)));
  }

  /** The same on instants, and what does not parse is invalid. */
  lemma InForce(n: Option<int>, from: Option<int>, to: Option<int>)
    ensures n.None? || from.None? || to.None? ==> AuthorizationAt(n, from, to) == Err(InvalidClaims)
    ensures n.Some? && from.Some? && to.Some? ==>
              var answer := AuthorizationAt(n, from, to);
              && (answer.Ok? <==> from.value <= n.value < to.value)
              && (answer == Err(InvalidClaims) <==> to.value <= from.value)
              && (answer == Err(ClaimsNotYetValid) <==> n.value < from.value < to.value)
              && (answer == Err(ClaimsExpired) <==> from.value < to.value <= n.value)
  {
  }

  /** And a lease exactly until its end, if that comes after its issue and within ninety seconds. */
  lemma LeaseWindow(now: Stamp, issuedAt: Stamp, expiresAt: Stamp)
    requires Canonical(now) && Canonical(issuedAt) && Canonical(expiresAt)
    ensures CheckLease(Render(now), Render(issuedAt), Render(expiresAt)).Ok? <==>
              && Before(issuedAt, expiresAt) && Before(now, expiresAt)
              && Elapsed(expiresAt) - Elapsed(issuedAt) <= 90_000_000_000
    ensures var answer := CheckLease(Render(now), Render(issuedAt), Render(expiresAt));
            && (answer == Err(ClaimsExpired) <==>
                  && Before(issuedAt, expiresAt) && Elapsed(expiresAt) - Elapsed(issuedAt) <= 90_000_000_000
                  && !Before(now, expiresAt))
            && (answer == Err(InvalidClaims) <==>
                  !(Before(issuedAt, expiresAt) && Elapsed(expiresAt) - Elapsed(issuedAt) <= 90_000_000_000))
  {
    ParseKeepsOrder(now, expiresAt);
    ParseKeepsOrder(issuedAt, expiresAt);
    Span(issuedAt, expiresAt);
    LeaseInForce(Parse(Render(now)), Parse(Render(issuedAt)), Parse(Render(expiresAt)));
  }

  lemma Span(from: Stamp, to: Stamp)
    requires Canonical(from) && Canonical(to)
    ensures Parse(Render(from)).Some? && Parse(Render(to)).Some?
    ensures Parse(Render(to)).value - Parse(Render(from)).value == Elapsed(to) - Elapsed(from)
  {
    ParseRender(from);
    ParseRender(to);
  }

  lemma LeaseInForce(n: Option<int>, issued: Option<int>, to: Option<int>)
    ensures n.None? || issued.None? || to.None? ==> LeaseAt(n, issued, to) == Err(InvalidClaims)
    ensures n.Some? && issued.Some? && to.Some? ==>
              var fits := issued.value < to.value && to.value - issued.value <= 90_000_000_000;
            && (LeaseAt(n, issued, to).Ok? <==> fits && n.value < to.value)
            && (LeaseAt(n, issued, to) == Err(ClaimsExpired) <==> fits && to.value <= n.value)
            && (LeaseAt(n, issued, to) == Err(InvalidClaims) <==> !fits)
  {
  }
}
