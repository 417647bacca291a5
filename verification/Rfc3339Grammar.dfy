/** RFC 3339 timestamps as they may be written, with any zone, and that exactly those within range are parsed. */
module Rfc3339Grammar {
  import opened Text
  import opened Calendar
  import opened Rfc3339

  /** Greenwich time, or a number of hours and minutes ahead of it or behind. */
  datatype Zone = Greenwich(letter: char) | Ahead(hours: nat, minutes: nat) | Behind(hours: nat, minutes: nat)

  /** `digits` are those of the fraction, if there is one. */
  datatype Stamp = Stamp(date: Date, mark: char, clock: Clock, digits: string, zone: Zone)

  predicate IsZone(z: Zone) {
    if z.Greenwich? then z.letter == 'Z' || z.letter == 'z' else z.hours <= 23 && z.minutes <= 59
  }

  predicate IsStamp(st: Stamp) {
    && IsDate(st.date) && 0 <= st.date.year <= 9999 && (st.mark == 'T' || st.mark == 't')
    && st.clock.hour <= 23 && st.clock.minute <= 59 && st.clock.second <= 59
    && |st.digits| <= 9 && AllDigits(st.digits) && IsZone(st.zone)
  }

  function SpellZone(z: Zone): string {
    match z
    case Greenwich(c) => [c]
    case Ahead(h, m) => "+" + (Digits(h, 2) + (":" + Digits(m, 2)))
    case Behind(h, m) => "-" + (Digits(h, 2) + (":" + Digits(m, 2)))
  }

  function SpellFraction(digits: string): string {
    if digits == "" then "" else "." + digits
  }

  function SpellStamp(st: Stamp): string
    requires IsStamp(st)
  {
    DateText(st.date) + [st.mark] + TimeText(st.clock.hour, st.clock.minute, st.clock.second)
    + (SpellFraction(st.digits) + SpellZone(st.zone))
  }

  /** The seconds by which local time is ahead. */
  function Lead(z: Zone): int {
    match z
    case Greenwich(_) => 0
    case Ahead(h, m) => 3600 * h + 60 * m
    case Behind(h, m) => -(3600 * h + 60 * m)
  }

  /** Seconds since 1 January 1970 in Greenwich: what a local clock says, less its lead. */
  function Instant(st: Stamp): int {
    86400 * DaysFromCivil(st.date) + 3600 * st.clock.hour + 60 * st.clock.minute + st.clock.second - Lead(st.zone)
  }

  /** The nanoseconds of a fraction. */
  function Nanoseconds(digits: string): nat
    requires AllDigits(digits) && |digits| <= 9
  {
    DecimalValue(digits) * Pow10(9 - |digits|)
  }

  // ----- what is written is parsed

  lemma OffsetReads(sign: char, h: nat, m: nat)
    requires h <= 23 && m <= 59 && (sign == '+' || sign == '-')
    ensures ParseZone([sign] + (Digits(h, 2) + (":" + Digits(m, 2))))
         == Some(if sign == '+' then 3600 * h + 60 * m else -(3600 * h + 60 * m))
  {
    hide Digits, Pair;
    var s := [sign] + (Digits(h, 2) + (":" + Digits(m, 2)));
    assert |s| == 6 && s[0] == sign && s[3] == ':' && s[1..3] == Digits(h, 2) && s[4..6] == Digits(m, 2);
    PairOf(h);
    PairOf(m);
  }

  lemma ZoneReads(z: Zone)
    requires IsZone(z)
    ensures ParseZone(SpellZone(z)) == Some(Lead(z)) && SpellZone(z) != ""
    ensures !IsDigit(SpellZone(z)[0]) && SpellZone(z)[0] != '.'
  {
    hide Digits;
    match z
    case Greenwich(_) =>
    case Ahead(h, m) => OffsetReads('+', h, m);
    case Behind(h, m) => OffsetReads('-', h, m);
  }

  lemma DigitsRead(digits: string, zone: string)
    requires |digits| <= 9 && AllDigits(digits) && zone != "" && !IsDigit(zone[0]) && zone[0] != '.'
    ensures ParseFraction(SpellFraction(digits) + zone) == Some((Nanoseconds(digits), zone))
  {
    hide Pow10, DigitRun, DecimalValue;
    var s := SpellFraction(digits) + zone;
    if digits == "" {
      assert s == zone;
      NoDigits();
    } else {
      DigitRunOf(digits, zone);
      assert s[0] == '.' && s[1..] == digits + zone;
      assert (digits + zone)[..|digits|] == digits && (digits + zone)[|digits|..] == zone;
    }
  }

  lemma NoDigits()
    ensures Nanoseconds("") == 0
  {
  }

  /** A timestamp in any zone is parsed to its instant, unless that is out of range. */
  lemma StampParses(st: Stamp)
    requires IsStamp(st)
    ensures Parse(SpellStamp(st)) == if -9_223_372_036 <= Instant(st) <= 9_223_372_036
                                     then Some(Instant(st) * 1_000_000_000 + Nanoseconds(st.digits)) else None
  {
    hide DateText, TimeText, ParseFraction, ParseZone, SpellFraction, SpellZone, ReadFields, Nanoseconds, DaysFromCivil;
    ZoneReads(st.zone);
    DigitsRead(st.digits, SpellZone(st.zone));
    FieldsRead(st.date, st.mark, st.clock, SpellFraction(st.digits) + SpellZone(st.zone),
               Nanoseconds(st.digits), SpellZone(st.zone), Lead(st.zone));
  }

  // ----- and nothing else is

  lemma {:induction false} DigitsOf(s: string)
    requires AllDigits(s)
    ensures Digits(DecimalValue(s), |s|) == s
  {
    if s != "" {
      var init, last := s[..|s| - 1], s[|s| - 1];
      DigitsOf(init);
      assert DecimalValue(s) / 10 == DecimalValue(init) && DecimalValue(s) % 10 == DigitValue(last);
      assert s == init + [last];
    }
  }

  lemma PairSpelled(s: string)
    requires |s| == 2 && Pair(s).Some?
    ensures Digits(Pair(s).value, 2) == s
  {
    var n, a, b := Pair(s).value, DigitValue(s[0]), DigitValue(s[1]);
    assert n == 10 * a + b && n / 10 == a && n % 10 == b;
    assert s == [DigitChar(a), DigitChar(b)];
    TwoDigits(n, s);
  }

  lemma ZoneSpelled(s: string) returns (z: Zone)
    requires ParseZone(s).Some?
    ensures IsZone(z) && SpellZone(z) == s
  {
    hide Pair, Digits;
    if s[0] == 'Z' || s[0] == 'z' {
      z := Greenwich(s[0]);
    } else {
      var h, m := Pair(s[1..3]).value, Pair(s[4..6]).value;
      PairSpelled(s[1..3]);
      PairSpelled(s[4..6]);
      assert s == [s[0]] + (s[1..3] + ([s[3]] + s[4..6]));
      z := if s[0] == '+' then Ahead(h, m) else Behind(h, m);
    }
  }

  lemma FractionSpelled(s: string) returns (digits: string)
    requires ParseFraction(s).Some?
    ensures |digits| <= 9 && AllDigits(digits) && s == SpellFraction(digits) + ParseFraction(s).value.1
  {
    hide Pow10, DigitRun, DecimalValue;
    if s == "" || s[0] != '.' {
      digits := "";
      assert "" + s == s;
    } else {
      var n := DigitRun(s[1..]);
      digits := s[1..][..n];
      assert s == "." + s[1..] && s[1..] == digits + s[1..][n..];
      Regroup(".", digits, s[1..][n..], "");
    }
  }

  lemma DateSpelled(s: string)
    requires |s| >= 20 && s[4] == '-' && s[7] == '-' && ParseDate(s).Some?
    ensures var d := ParseDate(s).value; IsDate(d) && 0 <= d.year <= 9999 && DateText(d) == s[..10]
  {
    hide Pair, Digits, DecimalValue;
    DigitsOf(s[..4]);
    DigitsBelow(s[..4]);
    Billion();
    PairSpelled(s[5..7]);
    PairSpelled(s[8..10]);
    assert s[..10] == s[..4] + "-" + s[5..7] + "-" + s[8..10];
  }

  lemma ClockSpelled(s: string)
    requires |s| >= 20 && s[13] == ':' && s[16] == ':' && ParseClock(s).Some?
    ensures var c := ParseClock(s).value;
            c.hour <= 23 && c.minute <= 59 && c.second <= 59 && TimeText(c.hour, c.minute, c.second) == s[11..19]
  {
    hide Pair, Digits;
    PairSpelled(s[11..13]);
    PairSpelled(s[14..16]);
    PairSpelled(s[17..19]);
    assert s[11..19] == s[11..13] + ":" + s[14..16] + ":" + s[17..19];
  }

  lemma StampSpelled(s: string) returns (st: Stamp)
    requires ReadFields(s).Some?
    ensures IsStamp(st) && SpellStamp(st) == s
  {
    hide ParseDate, ParseClock, ParseFraction, ParseZone, DateText, TimeText, SpellFraction, SpellZone, AllDigits, IsZone;
    DateSpelled(s);
    ClockSpelled(s);
    var digits := FractionSpelled(s[19..]);
    var z := ZoneSpelled(ParseFraction(s[19..]).value.1);
    st := Stamp(ParseDate(s).value, s[10], ParseClock(s).value, digits, z);
    assert s == s[..10] + [s[10]] + s[11..19] + s[19..];
  }

  /** A text is accepted if and only if it is written so and its instant is within the range of 64-bit nanoseconds. */
  lemma ParseExactly(s: string)
    ensures Parse(s).Some? <==> exists st :: IsStamp(st) && SpellStamp(st) == s && -9_223_372_036 <= Instant(st) <= 9_223_372_036
  {
    hide SpellStamp, IsStamp, ReadFields, Instant;
    if Parse(s).Some? {
      var st := StampSpelled(s);
      StampParses(st);
    }
    if st :| IsStamp(st) && SpellStamp(st) == s && -9_223_372_036 <= Instant(st) <= 9_223_372_036 {
      StampParses(st);
    }
  }
}
