/** The licence code's conversion between day numbers and Gregorian dates. */
module Calendar {

  /** Integer division as C does it, toward zero. */
  function CDiv(a: int, b: int): int
    requires b > 0
  {
    if a >= 0 then a / b else -(-a / b)
  }

  function CMod(a: int, b: int): int
    requires b > 0
  {
    a - CDiv(a, b) * b
  }

  datatype Date = Date(year: int, month: int, day: int)

  predicate IsLeap(y: int) {
    y % 4 == 0 && (y % 100 != 0 || y % 400 == 0)
  }

  function DaysInMonth(y: int, m: int): int
    requires 1 <= m <= 12
  {
    if m == 2 then (if IsLeap(y) then 29 else 28) else if m == 4 || m == 6 || m == 9 || m == 11 then 30 else 31
  }

  predicate IsDate(d: Date) {
    1 <= d.month <= 12 && 1 <= d.day <= DaysInMonth(d.year, d.month)
  }

  predicate Before(a: Date, b: Date) {
    a.year < b.year || (a.year == b.year && (a.month < b.month || (a.month == b.month && a.day < b.day)))
  }

  /** The day after. */
  function Next(d: Date): Date
    requires IsDate(d)
  {
    if d.day < DaysInMonth(d.year, d.month) then Date(d.year, d.month, d.day + 1)
    else if d.month < 12 then Date(d.year, d.month + 1, 1)
    else Date(d.year + 1, 1, 1)
  }

  // ----- the code

  /** The day of a year counted from 1 March on which month `mp` starts. */
  function MonthStart(mp: int): int {
    (153 * mp + 2) / 5
  }

  /** `ch_days_from_civil`. */
  function DaysFromCivil(d: Date): int {
    var year := d.year - (if d.month <= 2 then 1 else 0);
    var era := CDiv(if year >= 0 then year else year - 399, 400);
    var yoe := year - era * 400;
    var mp := if d.month > 2 then d.month - 3 else d.month + 9;
    var doy := MonthStart(mp) + d.day - 1;
    var doe := yoe * 365 + yoe / 4 - yoe / 100 + doy;
    era * 146097 + doe - 719468
  }

  function YearOfEra(doe: int): int {
    (doe - doe / 1460 + doe / 36524 - doe / 146096) / 365
  }

  /** The date of a day of an era. */
  function DateInEra(era: int, doe: int): Date {
    var yoe := YearOfEra(doe);
    var doy := doe - (365 * yoe + yoe / 4 - yoe / 100);
    var mp := (5 * doy + 2) / 153;
    var day := doy - MonthStart(mp) + 1;
    var month := mp + (if mp < 10 then 3 else -9);
    Date(yoe + era * 400 + (if month <= 2 then 1 else 0), month, day)
  }

  /** `ch_civil_from_days`. */
  function CivilFromDays(n: int): Date {
    var days := n + 719468;
    var era := CDiv(if days >= 0 then days else days - 146096, 146097);
    DateInEra(era, days - era * 146097)
  }

  // ----- years that start on 1 March

  lemma FloorEra(year: int)
    ensures CDiv(if year >= 0 then year else year - 399, 400) == year / 400
  {
  }

  lemma FloorDays(days: int)
    ensures CDiv(if days >= 0 then days else days - 146096, 146097) == days / 146097
  {
  }

  /** A year of the 400-year era, as centuries, four-year groups and single years. */
  predicate InEra(c: int, q: int, r: int) {
    0 <= c <= 3 && 0 <= q <= 24 && 0 <= r <= 3
  }

  /** Whether the year that starts on 1 March of year 100c + 4q + r of an era ends with a 29 February. */
  predicate EndsLong(c: int, q: int, r: int) {
    r == 3 && (q < 24 || c == 3)
  }

  function DayOfEra(c: int, q: int, r: int, doy: int): int {
    36524 * c + 1461 * q + 365 * r + doy
  }

  predicate DayInYear(c: int, q: int, r: int, doy: int) {
    InEra(c, q, r) && 0 <= doy <= (if EndsLong(c, q, r) then 365 else 364)
  }

  lemma GroupsMakeYear(c: int, q: int, r: int, doy: int)
    requires InEra(c, q, r)
    ensures var yoe := 100 * c + 4 * q + r;
            && yoe / 4 == 25 * c + q && yoe / 100 == c && 0 <= yoe < 400
            && DayOfEra(c, q, r, doy) == yoe * 365 + yoe / 4 - yoe / 100 + doy
  {
  }

  /** The year is recovered from the day of the era. */
  lemma YearRecovered(c: int, q: int, r: int, doy: int)
    requires DayInYear(c, q, r, doy)
    ensures YearOfEra(DayOfEra(c, q, r, doy)) == 100 * c + 4 * q + r
    ensures 0 <= DayOfEra(c, q, r, doy) <= 146096
  {
    var doe := DayOfEra(c, q, r, doy);
    var s := 24 * c + q + 365 * r + doy;
    var over := if s >= 1460 then 1 else 0;
    assert doe == 1460 * (25 * c + q + over) + (s - 1460 * over);
    assert doe / 1460 == 25 * c + q + over;
    var last := if doe == 146096 then 1 else 0;
    assert doe / 36524 == c + last && doe / 146096 == last;
    assert doe - doe / 1460 + doe / 36524 - doe / 146096 == 365 * (100 * c + 4 * q + r) + (doy - over);
  }

  /** Every day of the era lies in one of its years. */
  lemma DaySplits(doe: int) returns (c: int, q: int, r: int, doy: int)
    requires 0 <= doe <= 146096
    ensures DayInYear(c, q, r, doy) && DayOfEra(c, q, r, doy) == doe
  {
    c := if doe == 146096 then 3 else doe / 36524;
    var inCentury := doe - 36524 * c;
    q := inCentury / 1461;
    var inGroup := inCentury - 1461 * q;
    r := if inGroup == 1460 then 3 else inGroup / 365;
    doy := inGroup - 365 * r;
  }

  /** Every year of the era is a sum of groups. */
  lemma YearSplits(yoe: int) returns (c: int, q: int, r: int)
    requires 0 <= yoe < 400
    ensures InEra(c, q, r) && yoe == 100 * c + 4 * q + r
  {
    c := yoe / 100;
    q := (yoe - 100 * c) / 4;
    r := yoe - 100 * c - 4 * q;
  }

  /** The 29 February at the end of a March year is that of the next civil year. */
  lemma LongIsLeap(era: int, c: int, q: int, r: int)
    requires InEra(c, q, r)
    ensures EndsLong(c, q, r) <==> IsLeap(400 * era + 100 * c + 4 * q + r + 1)
  {
    var y := 400 * era + 100 * c + 4 * q + r + 1;
    MultipleOf4(y, 100 * era + 25 * c + q, r + 1);
    if r == 3 {
      MultipleOf100(y, 4 * era + c, 4 * q + 4);
      MultipleOf400(y, era, 100 * c + 4 * q + 4);
    }
  }

  lemma MultipleOf4(y: int, k: int, x: int)
    requires y == 4 * k + x && 0 < x <= 4
    ensures y % 4 == 0 <==> x == 4
  {
  }

  lemma MultipleOf100(y: int, k: int, x: int)
    requires y == 100 * k + x && 0 < x <= 100
    ensures y % 100 == 0 <==> x == 100
  {
  }

  lemma MultipleOf400(y: int, k: int, x: int)
    requires y == 400 * k + x && 0 < x <= 400
    ensures y % 400 == 0 <==> x == 400
  {
  }

  // ----- months

  /** The month and day of a day of the March year. */
  lemma MonthRecovered(doy: int)
    requires 0 <= doy <= 365
    ensures var mp := (5 * doy + 2) / 153;
            0 <= mp <= 11 && MonthStart(mp) <= doy && (mp < 11 ==> doy < MonthStart(mp + 1))
  {
  }

  lemma MonthUnique(mp: int, doy: int)
    requires 0 <= mp <= 11 && MonthStart(mp) <= doy <= 365 && (mp < 11 ==> doy < MonthStart(mp + 1))
    ensures (5 * doy + 2) / 153 == mp
  {
    assert 0 <= 5 * doy + 2 - 153 * mp < 153;
  }

  function MarchMonth(m: int): int {
    if m > 2 then m - 3 else m + 9
  }

  lemma MonthLengths(y: int, m: int)
    requires 1 <= m <= 12
    ensures var mp := MarchMonth(m);
            && 0 <= mp <= 11
            && (mp < 11 ==> MonthStart(mp + 1) == MonthStart(mp) + DaysInMonth(y, m))
            && (mp == 11 ==> MonthStart(mp) == 337 && m == 2)
  {
  }

  // ----- the laws

  /** A March year, split, with a day in it: what both conversions go through. */
  datatype Place = Place(era: int, c: int, q: int, r: int, doy: int)

  predicate IsPlace(p: Place) {
    DayInYear(p.c, p.q, p.r, p.doy)
  }

  function DayNumber(p: Place): int {
    p.era * 146097 + DayOfEra(p.c, p.q, p.r, p.doy) - 719468
  }

  function MarchYear(p: Place): int {
    400 * p.era + 100 * p.c + 4 * p.q + p.r
  }

  function DateAt(p: Place): Date {
    var mp := (5 * p.doy + 2) / 153;
    var month := mp + (if mp < 10 then 3 else -9);
    Date(MarchYear(p) + (if month <= 2 then 1 else 0), month, p.doy - MonthStart(mp) + 1)
  }

  lemma PlaceToDate(p: Place)
    requires IsPlace(p)
    ensures CivilFromDays(DayNumber(p)) == DateAt(p)
  {
    hide DateInEra, CDiv, DayOfEra, DateAt, YearOfEra;
    var days := DayNumber(p) + 719468;
    YearRecovered(p.c, p.q, p.r, p.doy);
    FloorDays(days);
    EraOf(days, p.era, DayOfEra(p.c, p.q, p.r, p.doy));
    PlaceInEra(p);
  }

  lemma PlaceInEra(p: Place)
    requires IsPlace(p)
    ensures DateInEra(p.era, DayOfEra(p.c, p.q, p.r, p.doy)) == DateAt(p)
  {
    hide MonthStart, YearOfEra, DayOfEra;
    YearRecovered(p.c, p.q, p.r, p.doy);
    GroupsMakeYear(p.c, p.q, p.r, p.doy);
  }

  lemma EraOf(days: int, era: int, doe: int)
    requires days == era * 146097 + doe && 0 <= doe < 146097
    ensures days / 146097 == era
  {
  }

  lemma DateAtIsValid(p: Place)
    requires IsPlace(p)
    ensures IsDate(DateAt(p))
  {
    var d := DateAt(p);
    MonthRecovered(p.doy);
    MonthLengths(d.year, d.month);
    LongIsLeap(p.era, p.c, p.q, p.r);
  }

  function MarchYearOf(d: Date): int {
    d.year - (if d.month <= 2 then 1 else 0)
  }

  /** Days before the March year `y`. */
  function YearDays(y: int): int {
    365 * y + y / 4 - y / 100 + y / 400
  }

  /** The conversion without eras. */
  lemma ClosedForm(d: Date)
    ensures DaysFromCivil(d) == YearDays(MarchYearOf(d)) + MonthStart(MarchMonth(d.month)) + d.day - 1 - 719468
  {
    hide MonthStart, CDiv;
    var year := MarchYearOf(d);
    FloorEra(year);
    EraYear(year / 400, year % 400);
  }

  lemma EraYear(era: int, yoe: int)
    requires 0 <= yoe < 400
    ensures YearDays(400 * era + yoe) == era * 146097 + yoe * 365 + yoe / 4 - yoe / 100
  {
    var y := 400 * era + yoe;
    assert y / 4 == 100 * era + yoe / 4;
    assert y / 100 == 4 * era + yoe / 100;
  }

  /** Where a date lies. */
  lemma DatePlace(d: Date) returns (p: Place)
    requires IsDate(d)
    ensures IsPlace(p) && DateAt(p) == d && DaysFromCivil(d) == DayNumber(p)
  {
    hide DaysFromCivil, YearDays, DayOfEra;
    var year := MarchYearOf(d);
    var mp := MarchMonth(d.month);
    var doy := MonthStart(mp) + d.day - 1;
    var c, q, r := YearSplits(year % 400);
    p := Place(year / 400, c, q, r, doy);
    MonthLengths(d.year, d.month);
    LongIsLeap(p.era, c, q, r);
    GroupsMakeYear(c, q, r, doy);
    MonthUnique(mp, doy);
    ClosedForm(d);
    EraYear(year / 400, year % 400);
  }

  lemma DayPlace(n: int) returns (p: Place)
    ensures IsPlace(p) && DayNumber(p) == n
  {
    var days := n + 719468;
    var c, q, r, doy := DaySplits(days % 146097);
    p := Place(days / 146097, c, q, r, doy);
  }

  /** A place is determined by its date. */
  lemma PlaceDays(p: Place)
    requires IsPlace(p)
    ensures DaysFromCivil(DateAt(p)) == DayNumber(p)
  {
    hide DaysFromCivil, YearDays, DayOfEra;
    var d := DateAt(p);
    MonthRecovered(p.doy);
    GroupsMakeYear(p.c, p.q, p.r, p.doy);
    ClosedForm(d);
    EraYear(p.era, 100 * p.c + 4 * p.q + p.r);
  }

  /** From a date to its day number and back. */
  lemma DateRoundTrip(d: Date)
    requires IsDate(d)
    ensures CivilFromDays(DaysFromCivil(d)) == d
  {
    var p := DatePlace(d);
    PlaceToDate(p);
  }

  /** From a day number to its date and back; the date is always valid. */
  lemma DayRoundTrip(n: int)
    ensures IsDate(CivilFromDays(n)) && DaysFromCivil(CivilFromDays(n)) == n
  {
    var p := DayPlace(n);
    PlaceToDate(p);
    DateAtIsValid(p);
    PlaceDays(p);
  }

  lemma YearStep(y: int)
    ensures YearDays(y + 1) == YearDays(y) + (if IsLeap(y + 1) then 366 else 365)
  {
    hide IsLeap;
    StepOf4(y);
    StepOf100(y);
    StepOf400(y);
    LeapRule(y + 1);
  }

  lemma LeapRule(y: int)
    ensures (if IsLeap(y) then 1 else 0)
         == (if y % 4 == 0 then 1 else 0) - (if y % 100 == 0 then 1 else 0) + (if y % 400 == 0 then 1 else 0)
  {
    Divides(y);
  }

  lemma Divides(y: int)
    ensures y % 100 == 0 ==> y % 4 == 0
    ensures y % 400 == 0 ==> y % 100 == 0
  {
  }

  lemma StepOf4(y: int)
    ensures (y + 1) / 4 == y / 4 + (if (y + 1) % 4 == 0 then 1 else 0)
  {
  }

  lemma StepOf100(y: int)
    ensures (y + 1) / 100 == y / 100 + (if (y + 1) % 100 == 0 then 1 else 0)
  {
  }

  lemma StepOf400(y: int)
    ensures (y + 1) / 400 == y / 400 + (if (y + 1) % 400 == 0 then 1 else 0)
  {
  }

  /** Consecutive dates have consecutive day numbers, and 1 January 1970 is day 0: the conversion counts days. */
  lemma CountsDays(d: Date)
    requires IsDate(d)
    ensures IsDate(Next(d)) && DaysFromCivil(Next(d)) == DaysFromCivil(d) + 1
    ensures DaysFromCivil(Date(1970, 1, 1)) == 0
  {
    hide DaysFromCivil, YearDays, IsLeap;
    var e := Next(d);
    ClosedForm(d);
    ClosedForm(e);
    MonthLengths(d.year, d.month);
    YearStep(MarchYearOf(d));
    Epoch();
  }

  lemma Epoch()
    ensures DaysFromCivil(Date(1970, 1, 1)) == 0
  {
  }

  lemma {:induction false} YearsGrow(y: int, z: int)
    requires y < z
    ensures YearDays(y) + (if IsLeap(y + 1) then 366 else 365) <= YearDays(z)
    decreases z - y
  {
    hide YearDays, IsLeap;
    YearStep(y);
    if y + 1 < z {
      YearsGrow(y + 1, z);
    }
  }

  /** A day of the March year stays inside it. */
  lemma DayInMarchYear(d: Date)
    requires IsDate(d)
    ensures 0 <= MonthStart(MarchMonth(d.month)) + d.day - 1 < (if IsLeap(MarchYearOf(d) + 1) then 366 else 365)
  {
    hide IsLeap;
    MonthLengths(d.year, d.month);
  }

  /** Order is preserved both ways. */
  lemma OrderPreserved(a: Date, b: Date)
    requires IsDate(a) && IsDate(b)
    ensures Before(a, b) <==> DaysFromCivil(a) < DaysFromCivil(b)
  {
    if Before(a, b) {
      Earlier(a, b);
    } else if a != b {
      Earlier(b, a);
    }
  }

  lemma Earlier(a: Date, b: Date)
    requires IsDate(a) && IsDate(b) && Before(a, b)
    ensures DaysFromCivil(a) < DaysFromCivil(b)
  {
    hide DaysFromCivil, YearDays, IsLeap;
    ClosedForm(a);
    ClosedForm(b);
    DayInMarchYear(a);
    DayInMarchYear(b);
    if MarchYearOf(a) < MarchYearOf(b) {
      YearsGrow(MarchYearOf(a), MarchYearOf(b));
    } else {
      MonthLengths(a.year, a.month);
      assert MarchYearOf(a) == MarchYearOf(b);
    }
  }
}
