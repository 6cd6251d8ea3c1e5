/** What a written time is worth, spelling by spelling. */
module RefsTimes {
  import opened Wrappers
  import opened Ascii
  import opened RefScanner
  import opened Refs
  import opened Sequences

  // -------------------------------------------------------------------------
  // Values
  // -------------------------------------------------------------------------

  /** A decimal of one or two places is worth its digits over a power of ten, capped at 24
      hours: `1.5` is one and a half, not one and five hundredths. */
  lemma DecimalHours(whole: string, fraction: string)
    requires 1 <= |fraction| <= 2
    ensures Pow10(|fraction|) * HundredthsOf(whole, fraction)
         == Min(100 * Int(whole + fraction), Pow10(|fraction|) * 2400)
  {
    IntConcat(whole, fraction);
    assert Pow10(1) == 10 && Pow10(2) == 100;
    var w, f := Int(whole), Int(fraction);
    assert Int(whole + fraction) == if |fraction| == 1 then 10 * w + f else 100 * w + f;
  }

  /** Minutes are worth the closest hundredth of an hour, capped at 24 hours; none are
      worth nothing. */
  lemma MinutesAreWorth(minutes: nat)
    ensures minutes >= 1440 ==> HoursOf(minutes) == 2400
    ensures minutes < 1440 ==> -30 < 60 * HoursOf(minutes) - 100 * minutes < 30
    ensures HoursOf(minutes) == 0 <==> minutes == 0
  {
    if minutes < 1440 {
      var n := 200 * minutes + 60;
      assert HoursOf(minutes) == n / 120;
      Quotient(n, HoursOf(minutes));
      Closest(minutes, HoursOf(minutes));
    }
  }

  lemma Quotient(n: nat, h: nat)
    requires h == n / 120
    ensures 120 * h <= n < 120 * h + 120
  {}

  lemma Closest(minutes: nat, h: nat)
    requires 120 * h <= 200 * minutes + 60 < 120 * h + 120
    ensures -30 < 60 * h - 100 * minutes < 30
    ensures h == 0 <==> minutes == 0
  {
    assert 60 * h - 100 * minutes == 20 * (3 * h - 5 * minutes);
    assert -30 < 60 * h - 100 * minutes <= 30;
  }

  // -------------------------------------------------------------------------
  // What is read
  // -------------------------------------------------------------------------

  /** The time read is the one the expression matches, to its end; zero is no time, and
      without a match nothing is read. */
  lemma TimeAtMeetsSpec(t: string, pos: nat)
    requires pos <= |t|
    ensures forall at: nat, d: nat, m: nat, value: nat, end: nat :: TimeRegex(t, pos, at, d, m, value, end) ==>
              TimeAt(t, pos) == (if value == 0 then None else Some(value), end)
    ensures TimeMatch(t, pos).None? ==> TimeAt(t, pos) == (None, pos)
    ensures TimeAt(t, pos).0.Some? ==> 0 < TimeAt(t, pos).0.value <= 2400
  {
    forall at: nat, d: nat, m: nat, value: nat, end: nat | TimeRegex(t, pos, at, d, m, value, end)
      ensures TimeAt(t, pos) == (if value == 0 then None else Some(value), end)
    {
      TimeScannerIsRegex(t, pos, at, d, m, value, end);
    }
    if TimeMatch(t, pos).Some? {
      var at, d, m := TimeRegexIsScanner(t, pos);
      ValuesAreCapped(t, pos, at, d, m, TimeMatch(t, pos).value.hundredths, TimeMatch(t, pos).value.end);
    }
  }

  lemma ValuesAreCapped(t: string, pos: nat, at: nat, d: nat, m: nat, value: nat, end: nat)
    requires TimeRegex(t, pos, at, d, m, value, end)
    ensures value <= 2400
  {
    forall minutes: nat ensures HoursOf(minutes) <= 2400 { HoursAreCapped(minutes); }
  }

  lemma HoursAreCapped(minutes: nat)
    ensures HoursOf(minutes) <= 2400
  {
    MinutesAreWorth(minutes);
  }

  // -------------------------------------------------------------------------
  // The spellings
  // -------------------------------------------------------------------------

  predicate Digits(s: string) { forall i :: 0 <= i < |s| ==> '0' <= s[i] <= '9' }
  predicate Blanks(s: string) { forall i :: 0 <= i < |s| ==> s[i] == ' ' || s[i] == '\t' }

  /** What may follow a time: nothing, or neither a word character nor `@`, nor a full stop
      with a digit after it. */
  predicate EndsTime(rest: string) {
    rest == "" ||
    (!IsLetter(rest[0]) && !('0' <= rest[0] <= '9') && rest[0] != '_' && rest[0] != '@'
     && !(rest[0] == '.' && |rest| > 1 && '0' <= rest[1] <= '9'))
  }

  function Logged(minutes: nat): Option<nat> { if minutes == 0 then None else Some(HoursOf(minutes)) }

  function LoggedHundredths(worth: nat): Option<nat> { if worth == 0 then None else Some(worth) }

  /** Digits, a unit, and what follows, from `i` on. */
  lemma PartsStand(t: string, front: string, digits: string, unit: char, rest: string)
    requires t == front + digits + [unit] + rest && Digits(digits)
    ensures AllWithin(t, |front|, |front| + |digits|, IsDigit) && t[|front|..|front| + |digits|] == digits
    ensures |front| + |digits| < |t| && t[|front| + |digits|] == unit
    ensures t[|front| + |digits| + 1..] == rest
  {
    forall k | |front| <= k < |front| + |digits| ensures t[k] == digits[k - |front|] {}
  }

  lemma TimeEnds(t: string, e: nat)
    requires e <= |t| && EndsTime(t[e..])
    ensures TimeMayEnd(t, e)
  {
    if e < |t| { assert t[e..][0] == t[e]; }
    if e + 1 < |t| { assert t[e..][1] == t[e + 1]; }
  }

  lemma FrontStands(t: string, blanks: string, tail: string)
    requires t == blanks + "@" + tail && Blanks(blanks)
    ensures AllWithin(t, 0, |blanks|, IsBlank) && |blanks| < |t| && t[|blanks|] == '@'
  {
    forall k | 0 <= k < |blanks| ensures t[k] == blanks[k] {}
  }

  /** Blanks up to `at`, the sign, and digits up to `d`. */
  ghost predicate StartsTime(t: string, at: nat, d: nat, digits: string) {
    && AllWithin(t, 0, at, IsBlank) && at < d <= |t| && t[at] == '@'
    && AllWithin(t, at + 1, d, IsDigit) && t[at + 1..d] == digits
  }

  lemma TimeStarts(t: string, blanks: string, digits: string, unit: char, rest: string)
    requires t == blanks + "@" + (digits + [unit] + rest) && Blanks(blanks) && Digits(digits)
    ensures var d := |blanks| + 1 + |digits|;
      StartsTime(t, |blanks|, d, digits) && d < |t| && t[d] == unit && t[d + 1..] == rest
  {
    FrontStands(t, blanks, digits + [unit] + rest);
    assert t == (blanks + "@") + digits + [unit] + rest;
    PartsStand(t, blanks + "@", digits, unit, rest);
  }

  lemma RegexIsRead(t: string, at: nat, d: nat, m: nat, value: nat, end: nat)
    requires TimeRegex(t, 0, at, d, m, value, end)
    ensures TimeAt(t, 0) == (LoggedHundredths(value), end)
  {
    TimeScannerIsRegex(t, 0, at, d, m, value, end);
  }

  lemma HoursAt(t: string, at: nat, d: nat, hours: string)
    requires StartsTime(t, at, d, hours) && 1 <= |hours| <= 3 && Letter(t, d, 'h') && TimeMayEnd(t, d + 1)
    ensures TimeAt(t, 0) == (Logged(60 * Int(hours)), d + 1)
  {
    MinutesAreWorth(60 * Int(hours));
    RegexIsRead(t, at, d, d + 1, HoursOf(60 * Int(hours)), d + 1);
  }

  lemma MinutesAt(t: string, at: nat, d: nat, minutes: string)
    requires StartsTime(t, at, d, minutes) && 1 <= |minutes| <= 4 && Letter(t, d, 'm') && TimeMayEnd(t, d + 1)
    ensures TimeAt(t, 0) == (Logged(Int(minutes)), d + 1)
  {
    MinutesAreWorth(Int(minutes));
    RegexIsRead(t, at, d, d + 1, HoursOf(Int(minutes)), d + 1);
  }

  lemma HoursAndMinutesAt(t: string, at: nat, d: nat, hours: string, u: nat, minutes: string)
    requires StartsTime(t, at, d, hours) && 1 <= |hours| <= 3 && Letter(t, d, 'h')
    requires AllWithin(t, d + 1, u, IsDigit) && t[d + 1..u] == minutes && 1 <= |minutes| <= 4
    requires Letter(t, u, 'm') && TimeMayEnd(t, u + 1)
    ensures TimeAt(t, 0) == (Logged(60 * Int(hours) + Int(minutes)), u + 1)
  {
    MinutesAreWorth(60 * Int(hours) + Int(minutes));
    RegexIsRead(t, at, d, u, HoursOf(60 * Int(hours) + Int(minutes)), u + 1);
  }

  lemma DecimalAt(t: string, at: nat, d: nat, whole: string, u: nat, fraction: string)
    requires StartsTime(t, at, d, whole) && 1 <= |whole| <= 3 && d < |t| && t[d] == '.'
    requires AllWithin(t, d + 1, u, IsDigit) && t[d + 1..u] == fraction && 1 <= |fraction| <= 2
    requires Letter(t, u, 'h') && TimeMayEnd(t, u + 1)
    ensures TimeAt(t, 0) == (LoggedHundredths(HundredthsOf(whole, fraction)), u + 1)
  {
    RegexIsRead(t, at, d, u, HundredthsOf(whole, fraction), u + 1);
  }

  /** `@2h`. */
  lemma HoursAreRead(t: string, blanks: string, hours: string, h: char, rest: string)
    requires t == blanks + "@" + (hours + [h] + rest) && Blanks(blanks) && Digits(hours) && 1 <= |hours| <= 3
    requires (h == 'h' || h == 'H') && EndsTime(rest)
    ensures TimeAt(t, 0) == (Logged(60 * Int(hours)), |t| - |rest|)
  {
    TimeStarts(t, blanks, hours, h, rest);
    var d := |blanks| + 1 + |hours|;
    TimeEnds(t, d + 1);
    HoursAt(t, |blanks|, d, hours);
  }

  /** `@90m`. */
  lemma MinutesAreRead(t: string, blanks: string, minutes: string, m: char, rest: string)
    requires t == blanks + "@" + (minutes + [m] + rest) && Blanks(blanks) && Digits(minutes) && 1 <= |minutes| <= 4
    requires (m == 'm' || m == 'M') && EndsTime(rest)
    ensures TimeAt(t, 0) == (Logged(Int(minutes)), |t| - |rest|)
  {
    TimeStarts(t, blanks, minutes, m, rest);
    var d := |blanks| + 1 + |minutes|;
    TimeEnds(t, d + 1);
    MinutesAt(t, |blanks|, d, minutes);
  }

  /** The digits and the unit after the first unit, or after the point. */
  lemma SecondPart(t: string, i: nat, digits: string, unit: char, rest: string)
    requires i <= |t| && t[i..] == digits + [unit] + rest && Digits(digits) && EndsTime(rest)
    ensures var u := i + |digits|;
      && AllWithin(t, i, u, IsDigit) && t[i..u] == digits && u < |t| && t[u] == unit
      && |t| == u + 1 + |rest| && TimeMayEnd(t, u + 1)
  {
    var front := t[..i];
    assert t == front + digits + [unit] + rest;
    PartsStand(t, front, digits, unit, rest);
    TimeEnds(t, i + |digits| + 1);
  }

  /** `@1h30m`. */
  lemma HoursAndMinutesAreRead(t: string, blanks: string, hours: string, h: char, minutes: string, m: char,
                               rest: string)
    requires t == blanks + "@" + (hours + [h] + (minutes + [m] + rest)) && Blanks(blanks)
    requires Digits(hours) && 1 <= |hours| <= 3 && (h == 'h' || h == 'H')
    requires Digits(minutes) && 1 <= |minutes| <= 4 && (m == 'm' || m == 'M') && EndsTime(rest)
    ensures TimeAt(t, 0) == (Logged(60 * Int(hours) + Int(minutes)), |t| - |rest|)
  {
    TimeStarts(t, blanks, hours, h, minutes + [m] + rest);
    HoursThenMinutes(t, |blanks|, |blanks| + 1 + |hours|, hours, minutes, m, rest);
  }

  lemma HoursThenMinutes(t: string, at: nat, d: nat, hours: string, minutes: string, m: char, rest: string)
    requires StartsTime(t, at, d, hours) && 1 <= |hours| <= 3 && Letter(t, d, 'h')
    requires t[d + 1..] == minutes + [m] + rest && Digits(minutes) && 1 <= |minutes| <= 4
    requires (m == 'm' || m == 'M') && EndsTime(rest)
    ensures TimeAt(t, 0) == (Logged(60 * Int(hours) + Int(minutes)), |t| - |rest|)
  {
    SecondPart(t, d + 1, minutes, m, rest);
    HoursAndMinutesAt(t, at, d, hours, d + 1 + |minutes|, minutes);
  }

  /** `@1.5h`. */
  lemma DecimalIsRead(t: string, blanks: string, whole: string, fraction: string, h: char, rest: string)
    requires t == blanks + "@" + (whole + ['.'] + (fraction + [h] + rest)) && Blanks(blanks)
    requires Digits(whole) && 1 <= |whole| <= 3 && Digits(fraction) && 1 <= |fraction| <= 2
    requires (h == 'h' || h == 'H') && EndsTime(rest)
    ensures TimeAt(t, 0) == (LoggedHundredths(HundredthsOf(whole, fraction)), |t| - |rest|)
  {
    TimeStarts(t, blanks, whole, '.', fraction + [h] + rest);
    var d := |blanks| + 1 + |whole|;
    SecondPart(t, d + 1, fraction, h, rest);
    DecimalAt(t, |blanks|, d, whole, d + 1 + |fraction|, fraction);
  }

  // -------------------------------------------------------------------------
  // Nothing else is a time
  // -------------------------------------------------------------------------

  predicate UnitAt(t: string, i: nat, lower: char, upper: char) { i < |t| && (t[i] == lower || t[i] == upper) }

  /** `2h`, `1h30m`, `1.5h` or `90m` stands at `from..end`; its first digits end at `d`, and
      the second, if any, at `m`. */
  predicate SpelledAt(t: string, from: nat, d: nat, m: nat, end: nat) {
    && from <= d < m <= end <= |t| && Digits(t[from..d]) && d - from >= 1
    && ( || (UnitAt(t, d, 'h', 'H') && d - from <= 3 && m == end == d + 1)
         || (UnitAt(t, d, 'h', 'H') && d - from <= 3 && UnitAt(t, m, 'm', 'M') && end == m + 1
             && Digits(t[d + 1..m]) && 1 <= m - (d + 1) <= 4)
         || (t[d] == '.' && d - from <= 3 && UnitAt(t, m, 'h', 'H') && end == m + 1
             && Digits(t[d + 1..m]) && 1 <= m - (d + 1) <= 2)
         || (UnitAt(t, d, 'm', 'M') && d - from <= 4 && m == end == d + 1))
  }

  lemma DigitsOf(t: string, i: nat, e: nat)
    requires AllWithin(t, i, e, IsDigit)
    ensures Digits(t[i..e])
  {
    forall k | 0 <= k < e - i ensures '0' <= t[i..e][k] <= '9' { assert t[i..e][k] == t[i + k]; }
  }

  lemma TimeHasEnded(t: string, e: nat)
    requires e <= |t| && TimeMayEnd(t, e)
    ensures EndsTime(t[e..])
  {
    if e < |t| { assert t[e..][0] == t[e]; }
    if e + 1 < |t| { assert t[e..][1] == t[e + 1]; }
  }

  /** What is read as a time is blanks, `@` and one of the four spellings, in full: `@2h.5`
      and `@2hours` are no times. */
  lemma OnlyTimesAreRead(t: string, pos: nat) returns (at: nat, d: nat, m: nat)
    requires pos <= |t| && TimeMatch(t, pos).Some?
    ensures var end := TimeMatch(t, pos).value.end;
      && pos <= at < |t| && Blanks(t[pos..at]) && t[at] == '@'
      && SpelledAt(t, at + 1, d, m, end)
      && EndsTime(t[end..])
  {
    at, d, m := TimeRegexIsScanner(t, pos);
    var end := TimeMatch(t, pos).value.end;
    TimeHasEnded(t, end);
    DigitsOf(t, at + 1, d);
    if AllWithin(t, d + 1, m, IsDigit) { DigitsOf(t, d + 1, m); }
    forall k | 0 <= k < at - pos ensures IsBlank(t[pos..at][k]) { assert t[pos..at][k] == t[pos + k]; }
  }
}
