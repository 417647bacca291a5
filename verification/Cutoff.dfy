/** Month arithmetic on timestamps and the date up to which a licence includes updates. */
module Cutoff {
  import opened Text
  import opened Arithmetic
  import opened Calendar

  /** Nanoseconds since 1 January 1970. */
  type Timestamp = int

  const SECOND: int := 1_000_000_000
  const DAY: int := 86_400 * SECOND
  const INCLUDED_UPDATE_YEARS: int := 1

  /** `ch_floor_div`. */
  function FloorDiv(n: int, d: int): int
    requires d > 0
  {
    if CMod(n, d) != 0 && CMod(n, d) < 0 then CDiv(n, d) - 1 else CDiv(n, d)
  }

  lemma FloorDivDay(n: int)
    ensures FloorDiv(n, DAY) == n / DAY
  {
  }

  function UtcDate(d: Date): Timestamp {
    DaysFromCivil(d) * DAY
  }

  /** `ch_add_months_clamped`. */
  function AddMonths(ts: Timestamp, months: int): Timestamp {
    var days := FloorDiv(ts, DAY);
    UtcDate(Moved(CivilFromDays(days), months)) + (ts - days * DAY)
  }

  /** The date that many months on, its day clamped to the month's last. */
  function Moved(d: Date, months: int): Date {
    var total := d.month - 1 + months;
    var negative := CMod(total, 12) < 0;
    var year := d.year + CDiv(total, 12) - (if negative then 1 else 0);
    var month := CMod(total, 12) + (if negative then 12 else 0) + 1;
    CModRange(total);
    Date(year, month, Min(d.day, DaysInMonth(year, month)))
  }

  lemma MovedMeaning(d: Date, months: int)
    requires IsDate(d)
    ensures var r := Moved(d, months);
            IsDate(r) && MonthIndex(r) == MonthIndex(d) + months && r.day == Min(d.day, DaysInMonth(r.year, r.month))
  {
    hide CMod, CDiv, DaysInMonth;
    CModRange(d.month - 1 + months);
    var r := Moved(d, months);
    MonthsAreLong(r.year, r.month);
  }

  lemma CModRange(total: int)
    ensures -12 < CMod(total, 12) < 12
    ensures var negative := CMod(total, 12) < 0;
            && total == 12 * (CDiv(total, 12) - (if negative then 1 else 0)) + CMod(total, 12) + (if negative then 12 else 0)
  {
  }

  function DateOf(ts: Timestamp): Date {
    CivilFromDays(ts / DAY)
  }

  function MonthIndex(d: Date): int {
    12 * d.year + d.month - 1
  }

  /** Adding months moves the month by that many, clamps the day to the month's last and keeps the time of day. */
  lemma AddMonthsMeaning(ts: Timestamp, months: int)
    ensures var d, r := DateOf(ts), DateOf(AddMonths(ts, months));
            && IsDate(d) && IsDate(r)
            && MonthIndex(r) == MonthIndex(d) + months
            && r.day == Min(d.day, DaysInMonth(r.year, r.month))
            && AddMonths(ts, months) == DaysFromCivil(r) * DAY + ts % DAY
  {
    hide CivilFromDays, DaysFromCivil, DaysInMonth, FloorDiv, Moved, IsDate, MonthIndex;
    FloorDivDay(ts);
    DayRoundTrip(ts / DAY);
    var d := CivilFromDays(ts / DAY);
    var r := Moved(d, months);
    MovedMeaning(d, months);
    DateRoundTrip(r);
    WholeDays(DaysFromCivil(r), ts % DAY);
  }

  lemma MonthsAreLong(y: int, m: int)
    requires 1 <= m <= 12
    ensures DaysInMonth(y, m) >= 28
  {
  }

  lemma WholeDays(n: int, t: int)
    requires 0 <= t < DAY
    ensures (n * DAY + t) / DAY == n
  {
  }

  /** Two timestamps compare as their dates, then as their times of day. */
  lemma CompareByDate(x: Timestamp, y: Timestamp)
    ensures IsDate(DateOf(x)) && IsDate(DateOf(y))
    ensures x < y <==> Before(DateOf(x), DateOf(y)) || (DateOf(x) == DateOf(y) && x % DAY < y % DAY)
  {
    hide CivilFromDays, DaysFromCivil;
    DayRoundTrip(x / DAY);
    DayRoundTrip(y / DAY);
    OrderPreserved(DateOf(x), DateOf(y));
    CompareDays(x, y);
  }

  lemma CompareDays(x: int, y: int)
    ensures x < y <==> x / DAY < y / DAY || (x / DAY == y / DAY && x % DAY < y % DAY)
  {
  }

  // ----- one year more

  predicate IsLeapDay(d: Date) {
    d.month == 2 && d.day == 29
  }

  lemma LeapYearsApart(y: int)
    ensures !(IsLeap(y) && IsLeap(y + 1))
  {
  }

  lemma OneYear(ts: Timestamp)
    ensures var d, r := DateOf(ts), DateOf(AddMonths(ts, 12));
            && IsDate(d) && IsDate(r) && r.year == d.year + 1 && r.month == d.month
            && r.day == (if IsLeapDay(d) then 28 else d.day)
            && AddMonths(ts, 12) % DAY == ts % DAY
  {
    hide CivilFromDays, DaysFromCivil, AddMonths;
    AddMonthsMeaning(ts, 12);
    var d, r := DateOf(ts), DateOf(AddMonths(ts, 12));
    assert MonthIndex(r) == 12 * (d.year + 1) + (d.month - 1);
    LeapYearsApart(d.year);
    TimeOfDay(DaysFromCivil(r), ts % DAY);
  }

  lemma TimeOfDay(n: int, t: int)
    requires 0 <= t < DAY
    ensures (n * DAY + t) % DAY == t
  {
  }

  /** A year later is never 29 February, and always later. */
  lemma YearLater(ts: Timestamp)
    ensures !IsLeapDay(DateOf(AddMonths(ts, 12))) && ts < AddMonths(ts, 12)
  {
    hide AddMonths, DateOf;
    OneYear(ts);
    CompareByDate(ts, AddMonths(ts, 12));
  }

  /** The one way a year reverses two times: from late on 28 February to earlier on 29 February of the same year. */
  predicate Reverses(x: Timestamp, y: Timestamp) {
    IsLeapDay(DateOf(y)) && DateOf(x) == Date(DateOf(y).year, 2, 28) && x % DAY > y % DAY
  }

  /** Adding a year keeps the order of two times exactly when they are not such a pair. */
  lemma YearKeepsOrderExactly(x: Timestamp, y: Timestamp)
    requires x <= y
    ensures AddMonths(x, 12) <= AddMonths(y, 12) <==> !Reverses(x, y)
  {
    hide AddMonths, DateOf;
    OneYear(x);
    OneYear(y);
    CompareByDate(y, x);
    CompareByDate(AddMonths(y, 12), AddMonths(x, 12));
  }

  /** In particular when the later of the two is not on 29 February. */
  lemma YearKeepsOrder(x: Timestamp, y: Timestamp)
    requires x <= y && !IsLeapDay(DateOf(y))
    ensures AddMonths(x, 12) <= AddMonths(y, 12)
  {
    hide AddMonths, DateOf;
    YearKeepsOrderExactly(x, y);
  }

  /** On 29 February it need not: one hour into the 29th comes before the last hour of the 28th, a year on. */
  lemma YearIsNotMonotone()
    ensures var x, y := UtcDate(Date(2028, 2, 28)) + 23 * 3600 * SECOND, UtcDate(Date(2028, 2, 29)) + 3600 * SECOND;
            x < y && AddMonths(x, 12) > AddMonths(y, 12)
  {
    hide AddMonths, DaysFromCivil, CivilFromDays;
    var a, b := Date(2028, 2, 28), Date(2028, 2, 29);
    var x, y := UtcDate(a) + 23 * 3600 * SECOND, UtcDate(b) + 3600 * SECOND;
    WholeDays(DaysFromCivil(a), 23 * 3600 * SECOND);
    WholeDays(DaysFromCivil(b), 3600 * SECOND);
    TimeOfDay(DaysFromCivil(a), 23 * 3600 * SECOND);
    TimeOfDay(DaysFromCivil(b), 3600 * SECOND);
    DateRoundTrip(a);
    DateRoundTrip(b);
    CompareByDate(x, y);
    OneYear(x);
    OneYear(y);
    CompareByDate(AddMonths(y, 12), AddMonths(x, 12));
  }

  // ----- the cutoff

  const UPDATE_PRODUCT: string := "org.jpfchang.clambhook.feature_update"

  datatype Transaction = Transaction(product: Option<string>, purchase: Timestamp, revoked: bool)

  /** `ch_is_paid_update_product`: the product itself or one of its dotted variants. */
  predicate IsUpdateProduct(product: Option<string>) {
    match product
    case None => false
    case Some(id) => id == UPDATE_PRODUCT || (UPDATE_PRODUCT < id && id[|UPDATE_PRODUCT|] == '.')
  }

  function UpdateDates(transactions: seq<Transaction>): seq<Timestamp> {
    if transactions == [] then []
    else
      var t := transactions[0];
      (if !t.revoked && IsUpdateProduct(t.product) then [t.purchase] else []) + UpdateDates(transactions[1..])
  }

  predicate IsSorted(s: seq<int>) {
    |s| <= 1 || (s[0] <= s[1] && IsSorted(s[1..]))
  }

  function Insert(x: int, s: seq<int>): seq<int> {
    if s == [] || x <= s[0] then [x] + s else [s[0]] + Insert(x, s[1..])
  }

  /** What `qsort` leaves: the dates in order. */
  function Sort(s: seq<int>): seq<int> {
    if s == [] then [] else Insert(s[0], Sort(s[1..]))
  }

  function Extend(cutoff: Timestamp, dates: seq<Timestamp>): Timestamp
    decreases |dates|
  {
    if dates == [] then cutoff else Extend(AddMonths(Max(dates[0], cutoff), 12), dates[1..])
  }

  function CutoffFor(purchase: Timestamp, transactions: seq<Transaction>): Timestamp {
    Extend(AddMonths(purchase, 12 * INCLUDED_UPDATE_YEARS), Sort(UpdateDates(transactions)))
  }

  lemma ConsMultiset(x: int, s: seq<int>)
    ensures multiset([x] + s) == multiset{x} + multiset(s)
    ensures ([x] + s)[1..] == s
  {
  }

  lemma {:induction false} InsertKeeps(x: int, s: seq<int>)
    requires IsSorted(s)
    ensures IsSorted(Insert(x, s)) && multiset(Insert(x, s)) == multiset{x} + multiset(s)
    ensures Insert(x, s) != [] && Insert(x, s)[0] == if s == [] || x <= s[0] then x else s[0]
    decreases |s|
  {
    if s == [] || x <= s[0] {
      ConsMultiset(x, s);
    } else {
      InsertKeeps(x, s[1..]);
      ConsMultiset(s[0], Insert(x, s[1..]));
      ConsMultiset(s[0], s[1..]);
      assert s == [s[0]] + s[1..];
    }
  }

  lemma {:induction false} SortKeeps(s: seq<int>)
    ensures IsSorted(Sort(s)) && multiset(Sort(s)) == multiset(s)
  {
    if s != [] {
      SortKeeps(s[1..]);
      InsertKeeps(s[0], Sort(s[1..]));
      ConsMultiset(s[0], s[1..]);
      assert s == [s[0]] + s[1..];
    }
  }

  lemma {:induction false} HeadIsLeast(s: seq<int>, x: int)
    requires IsSorted(s) && x in multiset(s)
    ensures s != [] && s[0] <= x
    decreases |s|
  {
    ConsMultiset(s[0], s[1..]);
    assert s == [s[0]] + s[1..];
    if x != s[0] {
      HeadIsLeast(s[1..], x);
    }
  }

  lemma Cancel(x: int, a: multiset<int>, b: multiset<int>)
    requires multiset{x} + a == multiset{x} + b
    ensures a == b
  {
    assert a == (multiset{x} + a) - multiset{x};
    assert b == (multiset{x} + b) - multiset{x};
  }

  /** The least elements agree, and so do the rests. */
  lemma SameHead(s: seq<int>, t: seq<int>)
    requires IsSorted(s) && IsSorted(t) && multiset(s) == multiset(t) && s != []
    ensures t != [] && s[0] == t[0] && multiset(s[1..]) == multiset(t[1..])
  {
    hide IsSorted;
    assert s == [s[0]] + s[1..];
    ConsMultiset(s[0], s[1..]);
    assert s[0] in multiset(t);
    HeadIsLeast(t, s[0]);
    assert t == [t[0]] + t[1..];
    ConsMultiset(t[0], t[1..]);
    HeadIsLeast(s, t[0]);
    Cancel(s[0], multiset(s[1..]), multiset(t[1..]));
  }

  lemma {:induction false} SortedUnique(s: seq<int>, t: seq<int>)
    requires IsSorted(s) && IsSorted(t) && multiset(s) == multiset(t)
    ensures s == t
    decreases |s|
  {
    if s != [] {
      SameHead(s, t);
      SortedUnique(s[1..], t[1..]);
      assert s == [s[0]] + s[1..] && t == [t[0]] + t[1..];
    }
  }

  // ----- which transactions matter

  /** An unrevoked purchase of the update product, or of one named by it, a dot and any more. */
  ghost predicate IsUpdate(t: Transaction) {
    && !t.revoked && t.product.Some?
    && (t.product.value == "org.jpfchang.clambhook.feature_update"
        || exists more: string :: t.product.value == "org.jpfchang.clambhook.feature_update" + ("." + more))
  }

  lemma IsUpdateTested(t: Transaction)
    ensures IsUpdate(t) <==> !t.revoked && IsUpdateProduct(t.product)
  {
    if t.product.Some? {
      var id, n := t.product.value, |UPDATE_PRODUCT|;
      if UPDATE_PRODUCT < id && id[n] == '.' {
        assert id == UPDATE_PRODUCT + ("." + id[n + 1..]);
      }
      if more: string :| id == UPDATE_PRODUCT + ("." + more) {
        assert id[n] == '.';
      }
    }
  }

  lemma {:induction false} DatesJoin(a: seq<Transaction>, b: seq<Transaction>)
    ensures UpdateDates(a + b) == UpdateDates(a) + UpdateDates(b)
  {
    hide IsUpdateProduct;
    if a == [] {
      assert a + b == b;
    } else {
      assert (a + b)[1..] == a[1..] + b;
      DatesJoin(a[1..], b);
    }
  }

  lemma DatesAround(a: seq<Transaction>, t: Transaction, b: seq<Transaction>)
    ensures UpdateDates(a + [t] + b) == UpdateDates(a) + ((if IsUpdate(t) then [t.purchase] else []) + UpdateDates(b))
    ensures UpdateDates(a + b) == UpdateDates(a) + UpdateDates(b)
  {
    hide IsUpdateProduct, IsUpdate;
    assert a + [t] + b == a + ([t] + b);
    DatesJoin(a, [t] + b);
    DatesJoin(a, b);
    assert ([t] + b)[1..] == b;
    IsUpdateTested(t);
  }

  /** A transaction that is revoked, or of another product, changes nothing, wherever it is. */
  lemma OthersDoNotMatter(purchase: Timestamp, a: seq<Transaction>, t: Transaction, b: seq<Transaction>)
    requires !IsUpdate(t)
    ensures CutoffFor(purchase, a + [t] + b) == CutoffFor(purchase, a + b)
  {
    hide IsUpdate, Extend, Sort, AddMonths;
    DatesAround(a, t, b);
    assert [] + UpdateDates(b) == UpdateDates(b);
  }

  /** How many updates were bought at that time. */
  ghost function Bought(ts: seq<Transaction>, x: Timestamp): nat {
    |set i | 0 <= i < |ts| && IsUpdate(ts[i]) && ts[i].purchase == x|
  }

  lemma BoughtMore(ts: seq<Transaction>, t: Transaction, x: Timestamp)
    ensures Bought(ts + [t], x) == Bought(ts, x) + (if IsUpdate(t) && t.purchase == x then 1 else 0)
  {
    hide IsUpdate;
    var all := ts + [t];
    var before := set i | 0 <= i < |ts| && IsUpdate(ts[i]) && ts[i].purchase == x;
    var after := set i | 0 <= i < |all| && IsUpdate(all[i]) && all[i].purchase == x;
    assert forall i :: 0 <= i < |ts| ==> all[i] == ts[i];
    if IsUpdate(t) && t.purchase == x {
      assert after == before + {|ts|};
    } else {
      assert after == before;
    }
  }

  /** The collected dates are those of the unrevoked update purchases, each as often as it was bought. */
  lemma {:induction false} DatesCounted(ts: seq<Transaction>, x: Timestamp)
    ensures multiset(UpdateDates(ts))[x] == Bought(ts, x)
    decreases |ts|
  {
    hide IsUpdate, UpdateDates, Bought;
    if ts == [] {
      NothingBought(x);
    } else {
      var rest, t := ts[..|ts| - 1], ts[|ts| - 1];
      assert ts == rest + [t] && rest + [t] + [] == rest + [t];
      DatesCounted(rest, x);
      BoughtMore(rest, t, x);
      DatesAround(rest, t, []);
      NothingBought(x);
      assert multiset(UpdateDates(rest) + [t.purchase]) == multiset(UpdateDates(rest)) + multiset{t.purchase};
      assert [t.purchase] + [] == [t.purchase] && UpdateDates(rest) + ([] + []) == UpdateDates(rest);
    }
  }

  lemma NothingBought(x: Timestamp)
    ensures UpdateDates([]) == [] && Bought([], x) == 0
  {
  }

  /** The cutoff depends only on how many updates were bought at each time, not on their order. */
  lemma CutoffIgnoresOrder(purchase: Timestamp, a: seq<Transaction>, b: seq<Transaction>)
    requires forall x :: Bought(a, x) == Bought(b, x)
    ensures CutoffFor(purchase, a) == CutoffFor(purchase, b)
  {
    hide Bought, Extend, UpdateDates, AddMonths;
    forall x: Timestamp
      ensures multiset(UpdateDates(a))[x] == multiset(UpdateDates(b))[x]
    {
      DatesCounted(a, x);
      DatesCounted(b, x);
    }
    assert multiset(UpdateDates(a)) == multiset(UpdateDates(b));
    SortKeeps(UpdateDates(a));
    SortKeeps(UpdateDates(b));
    SortedUnique(Sort(UpdateDates(a)), Sort(UpdateDates(b)));
  }

  /** Without updates the cutoff is a year after the purchase. */
  lemma {:induction false} NoUpdates(purchase: Timestamp, ts: seq<Transaction>)
    requires forall i :: 0 <= i < |ts| ==> !IsUpdate(ts[i])
    ensures CutoffFor(purchase, ts) == AddMonths(purchase, 12)
    decreases |ts|
  {
    hide IsUpdate, AddMonths;
    if ts != [] {
      assert [] + [ts[0]] + ts[1..] == ts && [] + ts[1..] == ts[1..];
      OthersDoNotMatter(purchase, [], ts[0], ts[1..]);
      NoUpdates(purchase, ts[1..]);
    }
  }

  lemma {:induction false} ExtendLast(c: Timestamp, s: seq<Timestamp>, x: Timestamp)
    ensures Extend(c, s + [x]) == AddMonths(Max(x, Extend(c, s)), 12)
    decreases |s|
  {
    hide AddMonths;
    if s == [] {
      assert s + [x] == [x] && [x][1..] == [];
    } else {
      assert (s + [x])[1..] == s[1..] + [x] && (s + [x])[0] == s[0];
      ExtendLast(AddMonths(Max(s[0], c), 12), s[1..], x);
    }
  }

  lemma {:induction false} SortedLast(s: seq<int>, x: int)
    requires IsSorted(s) && forall i :: 0 <= i < |s| ==> s[i] <= x
    ensures IsSorted(s + [x])
    decreases |s|
  {
    var all := s + [x];
    if s != [] {
      assert all[1..] == s[1..] + [x] && all[0] == s[0] && all[1] == if |s| == 1 then x else s[1];
      SortedLast(s[1..], x);
    }
  }

  /** An update bought last gives a year from then, or from the cutoff so far if that is later. */
  lemma LatestExtends(purchase: Timestamp, a: seq<Transaction>, t: Transaction, b: seq<Transaction>)
    requires IsUpdate(t)
    requires forall i :: 0 <= i < |a + b| && IsUpdate((a + b)[i]) ==> (a + b)[i].purchase <= t.purchase
    ensures CutoffFor(purchase, a + [t] + b) == AddMonths(Max(t.purchase, CutoffFor(purchase, a + b)), 12)
  {
    hide IsUpdate, Extend, Sort, UpdateDates, AddMonths;
    var x, dates := t.purchase, UpdateDates(a + b);
    var s, all := Sort(dates), UpdateDates(a + [t] + b);
    SortKeeps(dates);
    SortKeeps(all);
    DatesAround(a, t, b);
    PutBetween(UpdateDates(a), x, UpdateDates(b));
    assert multiset(s + [x]) == multiset(all);
    forall i | 0 <= i < |s|
      ensures s[i] <= x
    {
      assert s[i] in multiset(s) && s[i] in dates;
      DatesComeFrom(a + b, s[i]);
    }
    SortedLast(s, x);
    SortedUnique(s + [x], Sort(all));
    ExtendLast(AddMonths(purchase, 12), s, x);
  }

  lemma {:induction false} DatesComeFrom(ts: seq<Transaction>, y: Timestamp)
    requires y in UpdateDates(ts)
    ensures exists i :: 0 <= i < |ts| && IsUpdate(ts[i]) && ts[i].purchase == y
    decreases |ts|
  {
    hide IsUpdateProduct, IsUpdate;
    IsUpdateTested(ts[0]);
    if !(IsUpdate(ts[0]) && ts[0].purchase == y) {
      DatesComeFrom(ts[1..], y);
      var i :| 0 <= i < |ts[1..]| && IsUpdate(ts[1..][i]) && ts[1..][i].purchase == y;
      assert ts[i + 1] == ts[1..][i];
    }
  }

  lemma {:induction false} ExtendMonotone(c: Timestamp, d: Timestamp, dates: seq<Timestamp>)
    requires c <= d && !IsLeapDay(DateOf(c)) && !IsLeapDay(DateOf(d))
    ensures Extend(c, dates) <= Extend(d, dates)
    decreases |dates|
  {
    hide AddMonths, DateOf;
    if dates != [] {
      var x, y := Max(dates[0], c), Max(dates[0], d);
      if y == d {
        YearKeepsOrder(x, y);
      }
      YearLater(x);
      YearLater(y);
      ExtendMonotone(AddMonths(x, 12), AddMonths(y, 12), dates[1..]);
    }
  }

  lemma {:induction false} InsertHelps(c: Timestamp, x: Timestamp, dates: seq<Timestamp>)
    requires !IsLeapDay(DateOf(c))
    ensures Extend(c, dates) <= Extend(c, Insert(x, dates))
    decreases |dates|
  {
    hide AddMonths, DateOf;
    if dates == [] || x <= dates[0] {
      YearLater(Max(x, c));
      assert ([x] + dates)[1..] == dates;
      ExtendMonotone(c, AddMonths(Max(x, c), 12), dates);
    } else {
      var next := AddMonths(Max(dates[0], c), 12);
      YearLater(Max(dates[0], c));
      assert ([dates[0]] + Insert(x, dates[1..]))[1..] == Insert(x, dates[1..]);
      InsertHelps(next, x, dates[1..]);
    }
  }

  lemma PutBetween(a: seq<int>, x: int, b: seq<int>)
    ensures multiset(a + ([x] + b)) == multiset(a + b) + multiset{x}
  {
  }

  lemma SortInserts(before: seq<int>, after: seq<int>, x: int)
    requires multiset(after) == multiset(before) + multiset{x}
    ensures Sort(after) == Insert(x, Sort(before))
  {
    hide Sort, Insert, IsSorted;
    SortKeeps(before);
    SortKeeps(after);
    InsertKeeps(x, Sort(before));
    SortedUnique(Insert(x, Sort(before)), Sort(after));
  }

  /** One more update purchase, wherever it falls, never moves the cutoff earlier. */
  lemma PurchaseNeverHurts(purchase: Timestamp, a: seq<Transaction>, t: Transaction, b: seq<Transaction>)
    requires IsUpdate(t)
    ensures CutoffFor(purchase, a + b) <= CutoffFor(purchase, a + [t] + b)
  {
    hide AddMonths, DateOf, Extend, IsUpdate, UpdateDates, IsLeapDay, Sort, Insert;
    var x, before := t.purchase, UpdateDates(a + b);
    DatesAround(a, t, b);
    PutBetween(UpdateDates(a), x, UpdateDates(b));
    SortInserts(before, UpdateDates(a + [t] + b), x);
    YearLater(purchase);
    InsertHelps(AddMonths(purchase, 12), x, Sort(before));
  }

  /** The unrevoked update purchases, in the order of the snapshot. */
  method CollectUpdates(transactions: seq<Transaction>) returns (updates: seq<Timestamp>)
    ensures updates == UpdateDates(transactions)
  {
    hide IsUpdateProduct;
    updates := [];
    for index := 0 to |transactions|
      invariant updates + UpdateDates(transactions[index..]) == UpdateDates(transactions)
    {
      var t := transactions[index];
      ghost var rest := UpdateDates(transactions[index + 1..]);
      assert transactions[index..][1..] == transactions[index + 1..];
      if !t.revoked && IsUpdateProduct(t.product) {
        assert updates + ([t.purchase] + rest) == (updates + [t.purchase]) + rest;
        updates := updates + [t.purchase];
      } else {
        assert [] + rest == rest;
      }
    }
    assert updates + [] == updates;
  }

  /** `ch_update_cutoff`. */
  method UpdateCutoff(purchase: Timestamp, transactions: seq<Transaction>) returns (cutoff: Timestamp)
    ensures cutoff == CutoffFor(purchase, transactions)
  {
    hide AddMonths, Sort;
    cutoff := AddMonths(purchase, 12 * INCLUDED_UPDATE_YEARS);
    var updates := CollectUpdates(transactions);
    var sorted := Sort(updates);
    assert sorted[0..] == sorted;
    for index := 0 to |sorted|
      invariant Extend(cutoff, sorted[index..]) == CutoffFor(purchase, transactions)
    {
      var start := if sorted[index] > cutoff then sorted[index] else cutoff;
      assert sorted[index..][1..] == sorted[index + 1..];
      cutoff := AddMonths(start, 12);
    }
    assert sorted[|sorted|..] == [];
  }
}
