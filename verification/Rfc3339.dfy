/** Timestamps as RFC 3339 text, section 5.6. */
module Rfc3339 {
  import opened Text
  import opened Calendar
  import opened Cutoff

  const INT64_MIN: int := -0x8000_0000_0000_0000
  const INT64_MAX: int := 0x7FFF_FFFF_FFFF_FFFF

  /** The range of whole seconds the parser accepts: the 64-bit limits divided by 10^9, toward zero. */
  const MIN_SECONDS: int := -9_223_372_036
  const MAX_SECONDS: int := 9_223_372_036

  function Pow10(k: nat): (p: nat)
    ensures p > 0
  {
    if k == 0 then 1 else 10 * Pow10(k - 1)
  }

  // ----- formatting

  /** What `%0wu` prints for a number of at most `w` digits. */
  function Digits(n: nat, w: nat): (s: string)
    ensures |s| == w && AllDigits(s)
  {
    if w == 0 then "" else Digits(n / 10, w - 1) + [DigitChar(n % 10)]
  }

  function TrimZeros(s: string): (t: string)
    ensures t <= s
    ensures t != "" ==> t[|t| - 1] != '0'
  {
    if s != "" && s[|s| - 1] == '0' then TrimZeros(s[..|s| - 1]) else s
  }

  function FractionText(nanoseconds: nat): string {
    if nanoseconds == 0 then "" else "." + TrimZeros(Digits(nanoseconds, 9))
  }

  function TimeText(h: nat, m: nat, s: nat): string {
    Digits(h, 2) + ":" + Digits(m, 2) + ":" + Digits(s, 2)
  }

  function DateText(d: Date): string
    requires IsDate(d) && 0 <= d.year
  {
    Digits(d.year, 4) + "-" + Digits(d.month, 2) + "-" + Digits(d.day, 2)
  }

  predicate IsInt64(ts: Timestamp) {
    INT64_MIN <= ts <= INT64_MAX
  }

  /** `ch_license_format_rfc3339`. */
  function Format(ts: Timestamp): string
    requires IsInt64(ts)
  {
    FourDigitYear(ts);
    var seconds := ts / SECOND;
    var ofDay := seconds % 86400;
    DateText(CivilFromDays(seconds / 86400)) + "T" + TimeText(ofDay / 3600, ofDay % 3600 / 60, ofDay % 60)
    + FractionText(ts % SECOND) + "Z"
  }

  /** Every 64-bit timestamp lies in a year of four digits. */
  lemma FourDigitYear(ts: Timestamp)
    requires IsInt64(ts)
    ensures var d := CivilFromDays(ts / SECOND / 86400);
            IsDate(d) && 0 <= d.year <= 9999
  {
    hide CivilFromDays, DaysFromCivil;
    var n := ts / SECOND / 86400;
    DayRoundTrip(n);
    FarYears();
    OrderPreserved(CivilFromDays(n), Date(0, 1, 1));
    OrderPreserved(CivilFromDays(n), Date(10000, 1, 1));
  }

  lemma FarYears()
    ensures DaysFromCivil(Date(0, 1, 1)) < -200_000 && DaysFromCivil(Date(10000, 1, 1)) > 200_000
  {
  }

  // ----- parsing

  /** `ch_decimal_pair`: a number of two digits. */
  function Pair(s: string): Option<nat>
    requires |s| == 2
  {
    if IsDigit(s[0]) && IsDigit(s[1]) then Some(DigitValue(s[0]) * 10 + DigitValue(s[1])) else None
  }

  datatype Clock = Clock(hour: nat, minute: nat, second: nat)

  function ParseYear(s: string): Option<nat>
    requires |s| >= 4
  {
    if AllDigits(s[..4]) then Some(DecimalValue(s[..4])) else None
  }

  function ParseDate(s: string): Option<Date>
    requires |s| >= 20
  {
    match (ParseYear(s), Pair(s[5..7]), Pair(s[8..10]))
    case (Some(y), Some(m), Some(d)) =>
      if 1 <= m <= 12 && 1 <= d <= DaysInMonth(y, m) then Some(Date(y, m, d)) else None
    case _ => None
  }

  function ParseClock(s: string): Option<Clock>
    requires |s| >= 20
  {
    match (Pair(s[11..13]), Pair(s[14..16]), Pair(s[17..19]))
    case (Some(h), Some(m), Some(t)) => if h <= 23 && m <= 59 && t <= 59 then Some(Clock(h, m, t)) else None
    case _ => None
  }

  /** The nanoseconds of an optional fraction at the head of `s`, and what follows it. */
  function ParseFraction(s: string): Option<(nat, string)> {
    if s == "" || s[0] != '.' then Some((0, s))
    else
      var n := DigitRun(s[1..]);
      if n == 0 || n > 9 then None
      else Some((DecimalValue(s[1..][..n]) * Pow10(9 - n), s[1..][n..]))
  }

  /** The seconds east of Greenwich; `s` must be nothing but the zone. */
  function ParseZone(s: string): Option<int> {
    if s != "" && (s[0] == 'Z' || s[0] == 'z') then (if |s| == 1 then Some(0) else None)
    else if |s| == 6 && (s[0] == '+' || s[0] == '-') && s[3] == ':' then
      match (Pair(s[1..3]), Pair(s[4..6]))
      case (Some(h), Some(m)) =>
        var seconds: int := h * 3600 + m * 60;
        if h <= 23 && m <= 59 then Some(if s[0] == '+' then seconds else -seconds) else None
      case _ => None
    else None
  }

  predicate Separated(s: string) {
    && |s| >= 20 && s[4] == '-' && s[7] == '-' && (s[10] == 'T' || s[10] == 't') && s[13] == ':' && s[16] == ':'
  }

  /** What a well-formed text holds. */
  datatype Fields = Fields(date: Date, clock: Clock, nanoseconds: nat, offset: int)

  function ReadFields(s: string): Option<Fields> {
    if !Separated(s) then None
    else
      match (ParseDate(s), ParseClock(s), ParseFraction(s[19..]))
      case (Some(d), Some(c), Some((nanoseconds, zone))) =>
        (match ParseZone(zone)
         case None => None
         case Some(offset) => Some(Fields(d, c, nanoseconds, offset)))
      case _ => None
  }

  /** The whole seconds since the epoch. */
  function Seconds(f: Fields): int {
    DaysFromCivil(f.date) * 86400 + f.clock.hour * 3600 + f.clock.minute * 60 + f.clock.second - f.offset
  }

  function Assemble(f: Fields): Option<Timestamp> {
    if Seconds(f) > MAX_SECONDS || Seconds(f) < MIN_SECONDS then None else Some(Seconds(f) * SECOND + f.nanoseconds)
  }

  /** `ch_license_parse_rfc3339`. */
  function Parse(s: string): Option<Timestamp> {
    match ReadFields(s)
    case None => None
    case Some(f) => Assemble(f)
  }

  // ----- the round trip

  lemma PowStep(k: nat)
    requires k > 0
    ensures Pow10(k) == 10 * Pow10(k - 1)
  {
  }

  lemma PowNone()
    ensures Pow10(0) == 1
  {
  }

  lemma LastDigit(s: string, c: char)
    requires AllDigits(s) && IsDigit(c)
    ensures AllDigits(s + [c]) && DecimalValue(s + [c]) == DecimalValue(s) * 10 + DigitValue(c)
  {
    assert (s + [c])[..|s|] == s;
  }

  lemma {:induction false} DigitsValue(n: nat, w: nat)
    requires n < Pow10(w)
    ensures DecimalValue(Digits(n, w)) == n
  {
    hide Pow10;
    if w > 0 {
      PowStep(w);
      DigitsValue(n / 10, w - 1);
      LastDigit(Digits(n / 10, w - 1), DigitChar(n % 10));
    } else {
      PowNone();
    }
  }

  lemma {:induction false} TrimValue(s: string)
    requires AllDigits(s)
    ensures AllDigits(TrimZeros(s))
    ensures DecimalValue(s) == DecimalValue(TrimZeros(s)) * Pow10(|s| - |TrimZeros(s)|)
    decreases |s|
  {
    if s != "" && s[|s| - 1] == '0' {
      var t := s[..|s| - 1];
      TrimValue(t);
      var k := |t| - |TrimZeros(t)|;
      calc {
        DecimalValue(s);
      ==
        DecimalValue(t) * 10;
      ==
        DecimalValue(TrimZeros(t)) * Pow10(k) * 10;
      ==  { MulAssoc(DecimalValue(TrimZeros(t)), Pow10(k)); }
        DecimalValue(TrimZeros(t)) * Pow10(k + 1);
      }
    }
  }

  lemma MulAssoc(a: nat, b: nat)
    ensures a * b * 10 == a * (10 * b)
  {
  }

  lemma PairOf(n: nat)
    requires n < 100
    ensures Pair(Digits(n, 2)) == Some(n)
  {
    assert Digits(n / 10, 1) == "" + [DigitChar(n / 10 % 10)];
    assert Digits(n, 2)[0] == DigitChar(n / 10) && Digits(n, 2)[1] == DigitChar(n % 10);
  }

  lemma TrimmedFraction(nanoseconds: nat)
    requires 0 < nanoseconds < SECOND
    ensures var t := TrimZeros(Digits(nanoseconds, 9));
            0 < |t| <= 9 && AllDigits(t) && DecimalValue(t) * Pow10(9 - |t|) == nanoseconds
  {
    hide Digits, Pow10, TrimZeros;
    var all := Digits(nanoseconds, 9);
    Billion();
    DigitsValue(nanoseconds, 9);
    TrimValue(all);
    assert DecimalValue("") == 0;
  }

  lemma FractionReads(nanoseconds: nat)
    requires nanoseconds < SECOND
    ensures ParseFraction(FractionText(nanoseconds) + "Z") == Some((nanoseconds, "Z"))
  {
    hide Digits, Pow10, TrimZeros, DigitRun, DecimalValue;
    if nanoseconds == 0 {
      assert FractionText(0) + "Z" == "Z";
    } else {
      var t := TrimZeros(Digits(nanoseconds, 9));
      TrimmedFraction(nanoseconds);
      DigitRunOf(t, "Z");
      var s := FractionText(nanoseconds) + "Z";
      assert s[0] == '.' && s[1..] == t + "Z";
      assert (t + "Z")[..|t|] == t && (t + "Z")[|t|..] == "Z";
    }
  }

  lemma DateParts(d: Date)
    requires IsDate(d) && 0 <= d.year
    ensures var s := DateText(d);
            && |s| == 10 && s[..4] == Digits(d.year, 4) && s[4] == '-'
            && s[5..7] == Digits(d.month, 2) && s[7] == '-' && s[8..10] == Digits(d.day, 2)
  {
    hide Digits;
  }

  lemma TimeParts(h: nat, m: nat, t: nat)
    ensures var s := TimeText(h, m, t);
            && |s| == 8 && s[..2] == Digits(h, 2) && s[2] == ':'
            && s[3..5] == Digits(m, 2) && s[5] == ':' && s[6..8] == Digits(t, 2)
  {
    hide Digits;
    ThreePairs(Digits(h, 2), Digits(m, 2), Digits(t, 2));
  }

  lemma ThreePairs(a: string, b: string, c: string)
    requires |a| == 2 && |b| == 2 && |c| == 2
    ensures var s := a + ":" + b + ":" + c;
            |s| == 8 && s[..2] == a && s[2] == ':' && s[3..5] == b && s[5] == ':' && s[6..8] == c
  {
  }

  /** The fixed columns of a formatted timestamp. */
  lemma Columns(date: string, mark: char, time: string, rest: string)
    requires |date| == 10 && |time| == 8 && rest != ""
    ensures var s := date + [mark] + time + rest;
            && |s| >= 20 && s[10] == mark && s[19..] == rest
            && s[..4] == date[..4] && s[4] == date[4] && s[5..7] == date[5..7] && s[7] == date[7] && s[8..10] == date[8..10]
            && s[11..13] == time[..2] && s[13] == time[2] && s[14..16] == time[3..5] && s[16] == time[5] && s[17..19] == time[6..8]
  {
    var s := date + [mark] + time + rest;
    assert s[..10] == date && s[11..19] == time;
    assert s[5..7] == s[..10][5..7] && s[8..10] == s[..10][8..10] && s[..4] == s[..10][..4];
    assert s[11..13] == s[11..19][..2] && s[14..16] == s[11..19][3..5] && s[17..19] == s[11..19][6..8];
  }

  lemma DateReads(s: string, d: Date)
    requires |s| >= 20 && IsDate(d) && 0 <= d.year <= 9999
    requires s[..4] == Digits(d.year, 4) && s[5..7] == Digits(d.month, 2) && s[8..10] == Digits(d.day, 2)
    ensures ParseDate(s) == Some(d)
  {
    hide Digits, DecimalValue, Pair;
    Billion();
    DigitsValue(d.year, 4);
    PairOf(d.month);
    PairOf(d.day);
  }

  lemma ClockReads(s: string, h: nat, m: nat, t: nat)
    requires |s| >= 20 && h <= 23 && m <= 59 && t <= 59
    requires s[11..13] == Digits(h, 2) && s[14..16] == Digits(m, 2) && s[17..19] == Digits(t, 2)
    ensures ParseClock(s) == Some(Clock(h, m, t))
  {
    hide Digits, Pair;
    PairOf(h);
    PairOf(m);
    PairOf(t);
  }

  /** A date, a time, a fraction and a zone, written out, are read back. */
  lemma FieldsRead(d: Date, mark: char, c: Clock, rest: string, nanoseconds: nat, zone: string, offset: int)
    requires IsDate(d) && 0 <= d.year <= 9999 && c.hour <= 23 && c.minute <= 59 && c.second <= 59
    requires mark == 'T' || mark == 't'
    requires rest != "" && ParseFraction(rest) == Some((nanoseconds, zone)) && ParseZone(zone) == Some(offset)
    ensures ReadFields(DateText(d) + [mark] + TimeText(c.hour, c.minute, c.second) + rest)
         == Some(Fields(d, c, nanoseconds, offset))
  {
    hide Digits, DateText, TimeText, ParseDate, ParseClock, ParseFraction, ParseZone;
    var date, time := DateText(d), TimeText(c.hour, c.minute, c.second);
    var s := date + [mark] + time + rest;
    DateParts(d);
    TimeParts(c.hour, c.minute, c.second);
    Columns(date, mark, time, rest);
    DateReads(s, d);
    ClockReads(s, c.hour, c.minute, c.second);
  }

  /** What the formatted text of any 64-bit timestamp parses to. */
  lemma FormatReads(ts: Timestamp)
    requires IsInt64(ts)
    ensures Parse(Format(ts)) == if ts / SECOND < MIN_SECONDS then None else Some(ts)
  {
    hide Digits, CivilFromDays, DaysFromCivil, FractionText, DateText, TimeText, ReadFields;
    FourDigitYear(ts);
    var seconds := ts / SECOND;
    var ofDay := seconds % 86400;
    var d := CivilFromDays(seconds / 86400);
    var c := Clock(ofDay / 3600, ofDay % 3600 / 60, ofDay % 60);
    var date, time, rest := DateText(d), TimeText(c.hour, c.minute, c.second), FractionText(ts % SECOND) + "Z";
    assert Format(ts) == date + "T" + time + rest;
    FractionReads(ts % SECOND);
    DayRoundTrip(seconds / 86400);
    FieldsRead(d, 'T', c, rest, ts % SECOND, "Z", 0);
    Reassembles(ts, d);
  }

  lemma Reassembles(ts: Timestamp, d: Date)
    requires IsInt64(ts) && DaysFromCivil(d) == ts / SECOND / 86400
    ensures var ofDay := ts / SECOND % 86400;
            Assemble(Fields(d, Clock(ofDay / 3600, ofDay % 3600 / 60, ofDay % 60), ts % SECOND, 0))
            == if ts / SECOND < MIN_SECONDS then None else Some(ts)
  {
    hide DaysFromCivil;
    var ofDay := ts / SECOND % 86400;
    SplitsDay(ofDay);
  }

  lemma SplitsDay(ofDay: nat)
    ensures ofDay / 3600 * 3600 + ofDay % 3600 / 60 * 60 + ofDay % 60 == ofDay
  {
    assert ofDay % 60 == ofDay % 3600 % 60;
  }

  /** Formatting and parsing back gives the timestamp exactly from -9223372036 x 10^9 ns upward. */
  lemma RoundTrip(ts: Timestamp)
    requires -0x8000_0000_0000_0000 <= ts <= 0x7FFF_FFFF_FFFF_FFFF
    ensures Parse(Format(ts)) == Some(ts) <==> -9_223_372_036_000_000_000 <= ts
    ensures ts < -9_223_372_036_000_000_000 ==> Parse(Format(ts)) == None
  {
    hide Format, Parse;
    FormatReads(ts);
  }

  // ----- texts past the end of 64-bit time

  /** The last second that is accepted, with a fraction that no 64-bit timestamp has. */
  predicate IsPastEnd(f: Fields) {
    Seconds(f) == MAX_SECONDS && f.nanoseconds > 854_775_807
  }

  lemma {:induction false} DigitsBelow(s: string)
    requires AllDigits(s)
    ensures DecimalValue(s) < Pow10(|s|)
  {
    hide Pow10;
    if s != "" {
      PowStep(|s|);
      DigitsBelow(s[..|s| - 1]);
    } else {
      PowNone();
    }
  }

  lemma TenTimes(p: nat, q: nat)
    ensures 10 * (p * q) == 10 * p * q
  {
  }

  lemma {:induction false} PowersMultiply(a: nat, b: nat)
    ensures Pow10(a + b) == Pow10(a) * Pow10(b)
  {
    hide Pow10;
    if a > 0 {
      PowStep(a);
      PowStep(a + b);
      PowersMultiply(a - 1, b);
      TenTimes(Pow10(a - 1), Pow10(b));
    } else {
      PowNone();
    }
  }

  lemma Scaled(a: nat, p: nat, q: nat)
    requires a < p && q > 0
    ensures a * q < p * q
  {
  }

  /** A fraction is less than a second. */
  lemma FractionBelowSecond(s: string)
    requires ParseFraction(s).Some?
    ensures ParseFraction(s).value.0 < SECOND
  {
    hide DigitRun, DecimalValue, Pow10;
    if s != "" && s[0] == '.' {
      var n := DigitRun(s[1..]);
      DigitsBelow(s[1..][..n]);
      Scaled(DecimalValue(s[1..][..n]), Pow10(n), Pow10(9 - n));
      PowersMultiply(n, 9 - n);
      Billion();
    }
  }

  /** The instant of an accepted text is a 64-bit timestamp exactly when the text is not past the end. */
  lemma ParseFits(s: string)
    requires Parse(s).Some?
    ensures ReadFields(s).Some? && (IsInt64(Parse(s).value) <==> !IsPastEnd(ReadFields(s).value))
  {
    hide ParseDate, ParseClock, ParseFraction, ParseZone, DaysFromCivil;
    FractionBelowSecond(s[19..]);
  }

  lemma NineTenths()
    ensures ParseFraction(".9Z") == Some((900_000_000, "Z"))
  {
    hide DigitRun, Pow10;
    var s := ".9Z";
    assert s[1..] == "9" + "Z";
    DigitRunOf("9", "Z");
    assert s[1..][..1] == "9" && s[1..][1..] == "Z";
    assert DecimalValue("9") == 9;
    Billion();
  }

  lemma TwoDigits(n: nat, text: string)
    requires n < 100 && text == [DigitChar(n / 10), DigitChar(n % 10)]
    ensures Digits(n, 2) == text
  {
    assert Digits(n / 10, 1) == [DigitChar(n / 10)];
  }

  lemma FourDigits(n: nat, text: string)
    requires n < 10000 && text == [DigitChar(n / 1000), DigitChar(n / 100 % 10), DigitChar(n / 10 % 10), DigitChar(n % 10)]
    ensures Digits(n, 4) == text
  {
    hide DigitChar;
    assert n / 10 / 10 == n / 100 && n / 100 / 10 == n / 1000;
    TwoDigits(n / 100, text[..2]);
    assert Digits(n / 10, 3) == text[..3];
  }

  lemma LastSecondText()
    ensures DateText(Date(2262, 4, 11)) == "2262-04-11" && TimeText(23, 47, 16) == "23:47:16"
  {
    hide Digits;
    FourDigits(2262, "2262");
    TwoDigits(4, "04");
    TwoDigits(11, "11");
    TwoDigits(23, "23");
    TwoDigits(47, "47");
    TwoDigits(16, "16");
  }

  /** Such a text: nine tenths into the last second. */
  lemma PastEndText()
    ensures var s := "2262-04-11T23:47:16.9Z";
            ReadFields(s).Some? && IsPastEnd(ReadFields(s).value) && Parse(s) == Some(9_223_372_036_900_000_000)
  {
    hide ReadFields, DateText, TimeText, ParseFraction, ParseDate;
    var d, c := Date(2262, 4, 11), Clock(23, 47, 16);
    LastSecondText();
    NineTenths();
    FieldsRead(d, 'T', c, ".9Z", 900_000_000, "Z", 0);
    assert "2262-04-11T23:47:16.9Z" == DateText(d) + "T" + TimeText(c.hour, c.minute, c.second) + ".9Z";
    assert DaysFromCivil(d) == 106_751;
  }

  lemma Billion()
    ensures Pow10(9) == SECOND && Pow10(8) == 100_000_000 && Pow10(4) == 10000
  {
    assert Pow10(3) == 1000;
    assert Pow10(6) == 1_000_000 by {
      assert Pow10(4) == 10_000;
      assert Pow10(5) == 100_000;
    }
    assert Pow10(7) == 10_000_000;
    assert Pow10(8) == 100_000_000;
  }

  // ----- the program

  method ReadYear(text: string) returns (year: Option<nat>)
    requires |text| >= 4
    ensures year == ParseYear(text)
  {
    var value := 0;
    for index := 0 to 4
      invariant AllDigits(text[..index]) && value == DecimalValue(text[..index])
    {
      if !IsDigit(text[index]) {
        assert text[..4][index] == text[index];
        return None;
      }
      assert text[..index + 1][..index] == text[..index];
      value := value * 10 + DigitValue(text[index]);
    }
    return Some(value);
  }

  /** The loop over the fraction's digits, and the one that scales it to nine places. */
  method ReadFraction(text: string, start: nat) returns (r: Option<(nat, nat)>)
    requires start < |text| && text[start] == '.'
    ensures match r
            case None => ParseFraction(text[start..]) == None
            case Some((fractional, cursor)) =>
              start < cursor <= |text| && ParseFraction(text[start..]) == Some((fractional, text[cursor..]))
  {
    hide DecimalValue, Pow10;
    var fractional, digits, cursor := 0, 0, start + 1;
    ghost var s := text[start + 1..];
    ghost var run := DigitRun(s);
    EmptyValue();
    while cursor < |text| && IsDigit(text[cursor])
      invariant cursor == start + 1 + digits && digits <= run
      invariant digits <= 9 ==> fractional == DecimalValue(s[..digits])
    {
      assert text[cursor] == s[digits];
      RunGoesOn(s, digits);
      if digits < 9 {
        PrefixValue(s, digits);
        fractional := fractional * 10 + DigitValue(text[cursor]);
      }
      digits, cursor := digits + 1, cursor + 1;
    }
    assert digits == run by {
      assert cursor < |text| ==> text[cursor] == s[digits];
      RunEnds(s, digits);
    }
    assert text[start..][1..] == s;
    if digits == 0 || digits > 9 {
      return None;
    }
    ghost var value := fractional;
    var places := digits;
    while places < 9
      invariant digits <= places <= 9 && fractional * Pow10(9 - places) == value * Pow10(9 - digits)
    {
      Scale(fractional, 9 - places);
      fractional := fractional * 10;
      places := places + 1;
    }
    Scale(0, 1);
    assert s[run..] == text[cursor..];
    return Some((fractional, cursor));
  }

  lemma EmptyValue()
    ensures DecimalValue("") == 0 && Pow10(0) == 1
  {
  }

  lemma Scale(f: nat, k: nat)
    requires k > 0
    ensures f * Pow10(k) == (f * 10) * Pow10(k - 1) && Pow10(0) == 1
  {
  }

  lemma RunGoesOn(s: string, i: nat)
    requires i < |s| && i <= DigitRun(s) && IsDigit(s[i])
    ensures i < DigitRun(s)
  {
  }

  lemma RunEnds(s: string, i: nat)
    requires i <= DigitRun(s) && (i < |s| ==> !IsDigit(s[i]))
    ensures i == DigitRun(s)
  {
    assert forall k :: 0 <= k < DigitRun(s) ==> s[k] == s[..DigitRun(s)][k];
  }

  lemma PrefixValue(s: string, i: nat)
    requires i < DigitRun(s)
    ensures AllDigits(s[..i]) && AllDigits(s[..i + 1]) && IsDigit(s[i])
    ensures DecimalValue(s[..i + 1]) == DecimalValue(s[..i]) * 10 + DigitValue(s[i])
  {
    var run := s[..DigitRun(s)];
    assert forall k :: 0 <= k <= i ==> s[k] == run[k];
    assert s[..i + 1][..i] == s[..i];
  }

  /** `ch_license_parse_rfc3339`, step by step. */
  method ParseText(text: string) returns (timestamp: Option<Timestamp>)
    ensures timestamp == Parse(text)
    ensures timestamp.Some? ==> ReadFields(text).Some? && (IsInt64(timestamp.value) <==> !IsPastEnd(ReadFields(text).value))
  {
    hide ParseYear, Pair, ParseFraction, DaysInMonth, ParseZone, Assemble;
    if !Separated(text) {
      return None;
    }
    var year := ReadYear(text);
    var month, day := Pair(text[5..7]), Pair(text[8..10]);
    var hour, minute, second := Pair(text[11..13]), Pair(text[14..16]), Pair(text[17..19]);
    if year.None? || month.None? || day.None? || hour.None? || minute.None? || second.None? {
      return None;
    }
    if month.value < 1 || month.value > 12 || day.value < 1 || day.value > DaysInMonth(year.value, month.value) ||
       hour.value > 23 || minute.value > 59 || second.value > 59
    {
      return None;
    }
    var fractional, cursor := 0, 19;
    NoFraction(text[19..]);
    if text[19] == '.' {
      var fraction := ReadFraction(text, 19);
      if fraction.None? {
        return None;
      }
      fractional, cursor := fraction.value.0, fraction.value.1;
    }
    var offset := ParseZone(text[cursor..]);
    if offset.None? {
      return None;
    }
    timestamp := Assemble(Fields(Date(year.value, month.value, day.value), Clock(hour.value, minute.value, second.value),
                                 fractional, offset.value));
    if timestamp.Some? {
      ParseFits(text);
    }
  }

  lemma NoFraction(s: string)
    ensures s == "" || s[0] != '.' ==> ParseFraction(s) == Some((0, s))
  {
  }

  /** The loop that drops trailing zeros. */
  method FractionOf(nanoseconds: nat) returns (fraction: string)
    ensures fraction == FractionText(nanoseconds)
  {
    if nanoseconds == 0 {
      return "";
    }
    var digits := Digits(nanoseconds, 9);
    var end := |digits|;
    assert digits[..end] == digits;
    while end > 0 && digits[end - 1] == '0'
      invariant end <= |digits| && TrimZeros(digits[..end]) == TrimZeros(digits)
    {
      assert digits[..end][..end - 1] == digits[..end - 1];
      end := end - 1;
    }
    fraction := "." + digits[..end];
  }

  /** `ch_license_format_rfc3339`, step by step. */
  method FormatText(ts: Timestamp) returns (text: string)
    requires IsInt64(ts)
    ensures text == Format(ts)
  {
    hide CivilFromDays, FractionText, DateText, TimeText;
    FloorDivs(ts);
    FourDigitYear(ts);
    var seconds := FloorDiv(ts, SECOND);
    var nanoseconds := ts - seconds * SECOND;
    var days := FloorDiv(seconds, 86400);
    var ofDay := seconds - days * 86400;
    var fraction := FractionOf(nanoseconds);
    text := DateText(CivilFromDays(days)) + "T" + TimeText(ofDay / 3600, ofDay % 3600 / 60, ofDay % 60) + fraction + "Z";
  }

  lemma FloorDivs(ts: int)
    ensures FloorDiv(ts, SECOND) == ts / SECOND && FloorDiv(ts / SECOND, 86400) == ts / SECOND / 86400
  {
  }
}
