/** The paged event query, with a cursor on the sequence numbers and cursors on the shards' Lamport times. */
module Queries {
  import opened Text
  import opened Events
  import opened Paging

  const UINT64_MAX: nat := 0xFFFF_FFFF_FFFF_FFFF

  type Int63 = n: int | 0 <= n < 0x8000_0000_0000_0000

  /** A cursor of a request: the last Lamport time seen of a shard, or something unreadable. */
  datatype Cursor = Seen(shard: Int63, lamport: Int63) | Unreadable

  datatype Request = Request(after: Option<nat>, since: seq<Cursor>, limit: nat)

  /** The first cursor of a shard counts. */
  function CursorOf(cursors: seq<Cursor>, shard: nat): Option<nat> {
    if cursors == [] then None
    else if cursors[0].Seen? && cursors[0].shard == shard then Some(cursors[0].lamport)
    else CursorOf(cursors[1..], shard)
  }

  /** New to the asker by its number or by its shard's time. */
  predicate Eligible(q: Request, e: Event) {
    || (q.after.Some? && e.sequence > q.after.value)
    || (CursorOf(q.since, e.shard).Some? && e.lamport > CursorOf(q.since, e.shard).value)
  }

  function Asked(q: Request, matches: Event -> bool): Event -> bool {
    (e: Event) => Eligible(q, e) && matches(e)
  }

  /** The number that a scan has reached: that of the last eligible event, if numbers were asked for. */
  function Reached(events: seq<Event>, q: Request): nat {
    if q.after.None? then 0
    else if events == [] then q.after.value
    else
      var last := events[|events| - 1];
      if Eligible(q, last) then last.sequence else Reached(events[..|events| - 1], q)
  }

  /** The shard's oldest held event comes right after what was seen of it, or before that. */
  predicate Covered(events: seq<Event>, c: Cursor) {
    c.Seen? && exists i :: 0 <= i < |events| && events[i].shard == c.shard && events[i].lamport <= c.lamport + 1
  }

  predicate AllCovered(events: seq<Event>, cursors: seq<Cursor>) {
    forall i :: 0 <= i < |cursors| ==> Covered(events, cursors[i])
  }

  predicate NoGap(events: seq<Event>, after: Option<nat>) {
    after.Some? && events != [] ==> events[0].sequence <= after.value + 1
  }

  /** The place of an event in a run of consecutive ones. */
  function Place(events: seq<Event>, e: Event): (i: nat)
    requires Consecutive(events) && e in events
    ensures i < |events| && events[i] == e
  {
    e.sequence - events[0].sequence
  }

  function Reply(events: seq<Event>, total: nat, q: Request, matches: Event -> bool): Page
    requires Consecutive(events)
  {
    var asked := Filter(events, Asked(q, matches));
    if |asked| > q.limit then
      Page(asked[..q.limit], false, Reached(events[..Place(events, asked[q.limit])], q))
    else
      Page(asked, NoGap(events, q.after) && AllCovered(events, q.since), total)
  }

  // ----- the loops

  method FindCursor(cursors: seq<Cursor>, shard: nat) returns (found: Option<nat>)
    ensures found == CursorOf(cursors, shard)
  {
    for index := 0 to |cursors|
      invariant CursorOf(cursors, shard) == CursorOf(cursors[index..], shard)
    {
      var c := cursors[index];
      if c.Seen? && c.shard == shard {
        return Some(c.lamport);
      }
    }
    return None;
  }

  /** The oldest Lamport time held of a shard; the largest 64-bit number when there is none. */
  method Oldest(events: seq<Event>, shard: nat) returns (oldest: nat)
    ensures forall i :: 0 <= i < |events| && events[i].shard == shard ==> oldest <= events[i].lamport
    ensures oldest <= UINT64_MAX
    ensures oldest < UINT64_MAX ==> exists i :: 0 <= i < |events| && events[i].shard == shard && events[i].lamport == oldest
  {
    oldest := UINT64_MAX;
    for index := 0 to |events|
      invariant forall i :: 0 <= i < index && events[i].shard == shard ==> oldest <= events[i].lamport
      invariant oldest <= UINT64_MAX
      invariant oldest < UINT64_MAX ==> exists i :: 0 <= i < index && events[i].shard == shard && events[i].lamport == oldest
    {
      if events[index].shard == shard && events[index].lamport < oldest {
        oldest := events[index].lamport;
      }
    }
  }

  method CheckCursors(events: seq<Event>, cursors: seq<Cursor>) returns (complete: bool)
    ensures complete == AllCovered(events, cursors)
  {
    complete := true;
    for index := 0 to |cursors|
      invariant complete == forall i :: 0 <= i < index ==> Covered(events, cursors[i])
    {
      var c := cursors[index];
      if c.Unreadable? {
        complete := false;
        continue;
      }
      var oldest := Oldest(events, c.shard);
      assert Covered(events, c) <==> oldest <= c.lamport + 1;
      if oldest == UINT64_MAX || (oldest > 0 && oldest > c.lamport + 1) {
        complete := false;
      }
    }
  }

  /** The body of `ch_event_ring_query_json`, over a snapshot and a total read after it. */
  method Query(events: seq<Event>, total: nat, q: Request, matches: Event -> bool) returns (page: Page)
    requires Consecutive(events)
    ensures page == Reply(events, total, q, matches)
  {
    hide Filter, Reached, AllCovered, CursorOf, Reply;
    var complete := CheckCursors(events, q.since);
    var cursor := if q.after.Some? then q.after.value else 0;
    if q.after.Some? && |events| > 0 && events[0].sequence > cursor + 1 {
      complete := false;
    }
    var output, lastScanned := [], cursor;
    ghost var keep := Asked(q, matches);
    FilterNothing(keep);
    ReachedNothing(q);
    for index := 0 to |events|
      invariant output == Filter(events[..index], keep) && |output| <= q.limit
      invariant lastScanned == Reached(events[..index], q)
    {
      var e := events[index];
      FilterNext(events, keep, index);
      ReachedNext(events, q, index);
      var since := FindCursor(q.since, e.shard);
      if !((q.after.Some? && e.sequence > cursor) || (since.Some? && e.lamport > since.value)) {
        continue;
      }
      if !matches(e) {
        if q.after.Some? {
          lastScanned := e.sequence;
        }
        continue;
      }
      if |output| == q.limit {
        CutAt(events, total, q, matches, index);
        return Page(output, false, lastScanned);
      }
      output := output + [e];
      if q.after.Some? {
        lastScanned := e.sequence;
      }
    }
    assert events[..|events|] == events;
    NotCut(events, total, q, matches);
    return Page(output, complete, total);
  }

  lemma CutAt(events: seq<Event>, total: nat, q: Request, matches: Event -> bool, i: nat)
    requires Consecutive(events) && i < |events| && Asked(q, matches)(events[i])
    requires |Filter(events[..i], Asked(q, matches))| == q.limit
    ensures Reply(events, total, q, matches) == Page(Filter(events[..i], Asked(q, matches)), false, Reached(events[..i], q))
  {
    hide Filter, Reached, Eligible;
    FilterPrefix(events, Asked(q, matches), i);
  }

  lemma NotCut(events: seq<Event>, total: nat, q: Request, matches: Event -> bool)
    requires Consecutive(events) && |Filter(events, Asked(q, matches))| <= q.limit
    ensures Reply(events, total, q, matches)
         == Page(Filter(events, Asked(q, matches)), NoGap(events, q.after) && AllCovered(events, q.since), total)
  {
  }

  lemma ReachedNothing(q: Request)
    ensures Reached([], q) == if q.after.Some? then q.after.value else 0
  {
  }

  lemma ReachedNext(events: seq<Event>, q: Request, i: nat)
    requires i < |events|
    ensures Reached(events[..i + 1], q)
         == if q.after.Some? && Eligible(q, events[i]) then events[i].sequence else Reached(events[..i], q)
  {
    assert events[..i + 1][..i] == events[..i];
  }

  // ----- where a page ends

  predicate SomeEligible(events: seq<Event>, q: Request, number: nat) {
    exists i :: 0 <= i < |events| && Eligible(q, events[i]) && events[i].sequence == number
  }

  predicate NoneEligible(events: seq<Event>, q: Request) {
    forall i :: 0 <= i < |events| ==> !Eligible(q, events[i])
  }

  lemma {:induction false} ReachedIsLast(events: seq<Event>, q: Request)
    requires q.after.Some? && Consecutive(events)
    ensures forall i :: 0 <= i < |events| && Eligible(q, events[i]) ==> events[i].sequence <= Reached(events, q)
    ensures if NoneEligible(events, q) then Reached(events, q) == q.after.value else SomeEligible(events, q, Reached(events, q))
    decreases |events|
  {
    hide Eligible;
    if events != [] {
      var n := |events| - 1;
      var rest := events[..n];
      ReachedIsLast(rest, q);
      assert forall i :: 0 <= i < n ==> rest[i] == events[i];
      if Eligible(q, events[n]) {
        assert SomeEligible(events, q, events[n].sequence);
      }
    }
  }

  lemma FilterHas(events: seq<Event>, keep: Event -> bool, i: nat)
    requires i < |events| && keep(events[i])
    ensures events[i] in Filter(events, keep)
  {
    hide Filter;
    FilterPrefix(events, keep, i);
  }

  predicate IsCut(events: seq<Event>, q: Request, matches: Event -> bool) {
    |Filter(events, Asked(q, matches))| > q.limit
  }

  /** The events before the first one left out: the page is what was asked for among them. */
  function Scanned(events: seq<Event>, q: Request, matches: Event -> bool): (s: seq<Event>)
    requires Consecutive(events) && IsCut(events, q, matches)
    ensures |s| < |events| && s == events[..|s|] && events[|s|] == Filter(events, Asked(q, matches))[q.limit]
  {
    events[..Place(events, Filter(events, Asked(q, matches))[q.limit])]
  }

  lemma PageIsScanned(events: seq<Event>, total: nat, q: Request, matches: Event -> bool)
    requires Consecutive(events) && IsCut(events, q, matches)
    ensures var s, page := Scanned(events, q, matches), Reply(events, total, q, matches);
            page.events == Filter(s, Asked(q, matches)) && |page.events| == q.limit && page.next == Reached(s, q)
  {
    hide Filter, Reached;
    var keep := Asked(q, matches);
    var i := FilterPosition(events, keep, q.limit);
    assert i == Place(events, events[i]);
    FilterPrefix(events, keep, i);
  }

  lemma ScannedHasEligible(events: seq<Event>, total: nat, q: Request, matches: Event -> bool)
    requires Consecutive(events) && IsCut(events, q, matches) && q.limit > 0
    ensures !NoneEligible(Scanned(events, q, matches), q)
  {
    hide Filter, Reached, Eligible;
    PageIsScanned(events, total, q, matches);
    var s := Scanned(events, q, matches);
    assert Filter(s, Asked(q, matches))[0] in s;
  }

  /** The next cursor tells what is on the page from what is left for later. */
  lemma NextTellsApart(events: seq<Event>, total: nat, q: Request, matches: Event -> bool, e: Event)
    requires Consecutive(events) && q.after.Some? && q.limit > 0 && e in Filter(events, Asked(q, matches))
    requires forall i :: 0 <= i < |events| ==> events[i].sequence <= total
    ensures var page := Reply(events, total, q, matches);
            e in page.events <==> e.sequence <= page.next
  {
    hide Filter, Reached, Eligible, Scanned;
    if IsCut(events, q, matches) {
      var keep, s := Asked(q, matches), Scanned(events, q, matches);
      PageIsScanned(events, total, q, matches);
      ScannedHasEligible(events, total, q, matches);
      ReachedIsLast(s, q);
      if e.sequence <= Reached(s, q) {
        var i := Place(events, e);
        assert i < |s| && s[i] == e;
        FilterHas(s, keep, i);
      }
    }
  }

  /** A page cut short moves the cursor back exactly when it ends among events that only a shard's cursor asks for. */
  lemma GoesBackExactly(events: seq<Event>, total: nat, q: Request, matches: Event -> bool)
    requires Consecutive(events) && q.after.Some? && q.limit > 0 && IsCut(events, q, matches)
    ensures var first := Filter(events, Asked(q, matches))[q.limit].sequence;
            Reply(events, total, q, matches).next < q.after.value <==>
            first <= q.after.value || (first == q.after.value + 1 && !SomeEligible(events, q, q.after.value))
  {
    hide Filter, Reached, Scanned;
    var s := Scanned(events, q, matches);
    PageIsScanned(events, total, q, matches);
    ScannedHasEligible(events, total, q, matches);
    ReachedIsLast(s, q);
    var first, after, next := events[|s|].sequence, q.after.value, Reached(s, q);
    assert s[|s| - 1].sequence == first - 1;
    if first > after + 1 {
      assert Eligible(q, s[|s| - 1]);
    } else if first == after + 1 && SomeEligible(events, q, after) {
      var i :| 0 <= i < |events| && Eligible(q, events[i]) && events[i].sequence == after;
      assert s[i] == events[i];
    }
  }

  /** Two matching events of a shard of which nothing was seen, asked for one at a time after number 2. */
  lemma GoesBack(first: Event, second: Event, total: nat, matches: Event -> bool)
    requires first.sequence == 1 && first.lamport > 0 && matches(first)
    requires second.sequence == 2 && second.lamport > 0 && matches(second) && first.shard == second.shard == 0
    ensures Consecutive([first, second]) && Reply([first, second], total, Request(Some(2), [Seen(0, 0)], 1), matches).next == 1
  {
    var events, q := [first, second], Request(Some(2), [Seen(0, 0)], 1);
    assert CursorOf(q.since, 0) == Some(0);
    assert events[..1] == [first] && events[..0] == [];
    FilterNext(events, Asked(q, matches), 0);
    CutAt(events, total, q, matches, 1);
    ReachedNext(events, q, 0);
  }

  /**
    Shard cursors alone: the next number is 0 exactly when the page is cut short or nothing was ever appended. Going on
    from it asks for every held event again after a page that is cut short, and for none of them after any other.
   */
  lemma SinceAloneRestarts(events: seq<Event>, total: nat, q: Request, matches: Event -> bool)
    requires Consecutive(events) && q.after.None?
    requires forall i :: 0 <= i < |events| ==> 0 < events[i].sequence <= total
    ensures var next, cut := Reply(events, total, q, matches).next, IsCut(events, q, matches);
            && (next == 0 <==> cut || total == 0)
            && Filter(events, Asked(Request(Some(next), [], q.limit), matches)) == if cut then Filter(events, matches) else []
  {
    hide Filter;
    var next := Reply(events, total, q, matches).next;
    var again := Asked(Request(Some(next), [], q.limit), matches);
    if IsCut(events, q, matches) {
      FilterSame(events, again, matches);
    } else {
      FilterNone(events, again);
    }
  }

  // ----- which events a page is made of

  /** New to the asker: of a later number, or later than the first cursor for its shard says was seen. */
  predicate IsNew(q: Request, e: Event) {
    || (q.after.Some? && q.after.value < e.sequence)
    || exists i :: 0 <= i < |q.since| && IsCursorFor(q.since, i, e.shard) && q.since[i].lamport < e.lamport
  }

  predicate IsCursorFor(cursors: seq<Cursor>, i: nat, shard: nat)
    requires i < |cursors|
  {
    && cursors[i].Seen? && cursors[i].shard == shard
    && forall j :: 0 <= j < i ==> !(cursors[j].Seen? && cursors[j].shard == shard)
  }

  lemma {:induction false} CursorIsFirst(cursors: seq<Cursor>, shard: nat)
    ensures CursorOf(cursors, shard).Some? ==>
              exists i :: 0 <= i < |cursors| && IsCursorFor(cursors, i, shard) && cursors[i].lamport == CursorOf(cursors, shard).value
    ensures CursorOf(cursors, shard).None? ==> forall i :: 0 <= i < |cursors| ==> !(cursors[i].Seen? && cursors[i].shard == shard)
    decreases |cursors|
  {
    if cursors != [] {
      var rest := cursors[1..];
      if cursors[0].Seen? && cursors[0].shard == shard {
        assert IsCursorFor(cursors, 0, shard);
      } else {
        CursorIsFirst(rest, shard);
        assert forall i :: 0 < i < |cursors| ==> cursors[i] == rest[i - 1];
        if CursorOf(rest, shard).Some? {
          var i :| 0 <= i < |rest| && IsCursorFor(rest, i, shard) && rest[i].lamport == CursorOf(rest, shard).value;
          assert IsCursorFor(cursors, i + 1, shard);
        }
      }
    }
  }

  lemma OneCursor(cursors: seq<Cursor>, i: nat, j: nat, shard: nat)
    requires i < |cursors| && j < |cursors| && IsCursorFor(cursors, i, shard) && IsCursorFor(cursors, j, shard)
    ensures i == j
  {
  }

  lemma EligibleIsNew(q: Request, e: Event)
    ensures Eligible(q, e) <==> IsNew(q, e)
  {
    hide CursorOf;
    CursorIsFirst(q.since, e.shard);
    var c := CursorOf(q.since, e.shard);
    if c.Some? {
      var i :| 0 <= i < |q.since| && IsCursorFor(q.since, i, e.shard) && q.since[i].lamport == c.value;
      if j :| 0 <= j < |q.since| && IsCursorFor(q.since, j, e.shard) && q.since[j].lamport < e.lamport {
        OneCursor(q.since, i, j, e.shard);
      }
    } else {
      NoCursorFor(q.since, e.shard);
    }
  }

  lemma NoCursorFor(cursors: seq<Cursor>, shard: nat)
    requires forall i :: 0 <= i < |cursors| ==> !(cursors[i].Seen? && cursors[i].shard == shard)
    ensures forall i :: 0 <= i < |cursors| ==> !IsCursorFor(cursors, i, shard)
  {
  }

  lemma FilterIn(events: seq<Event>, keep: Event -> bool, e: Event)
    ensures e in Filter(events, keep) <==> e in events && keep(e)
  {
    hide Filter;
    if e in events && keep(e) {
      var i :| 0 <= i < |events| && events[i] == e;
      FilterHas(events, keep, i);
    }
  }

  /** A page holds the matching events that are new to the asker; one cut short those up to its next number. */
  lemma PageHolds(events: seq<Event>, total: nat, q: Request, matches: Event -> bool, e: Event)
    requires Consecutive(events) && q.limit > 0
    requires forall i :: 0 <= i < |events| ==> events[i].sequence <= total
    ensures var page := Reply(events, total, q, matches);
            && (!IsCut(events, q, matches) ==> (e in page.events <==> e in events && matches(e) && IsNew(q, e)))
            && (q.after.Some? ==> (e in page.events <==> e in events && matches(e) && IsNew(q, e) && e.sequence <= page.next))
            && (e in page.events ==> e in events && matches(e) && IsNew(q, e))
  {
    hide Filter, Reached, Eligible, IsNew;
    EligibleIsNew(q, e);
    FilterIn(events, Asked(q, matches), e);
    if e in Filter(events, Asked(q, matches)) && q.after.Some? {
      NextTellsApart(events, total, q, matches, e);
    }
  }

  /** A page is complete exactly when it is not cut short, the ring starts no later than the number, and covers all cursors. */
  lemma CompleteExactly(events: seq<Event>, total: nat, q: Request, matches: Event -> bool)
    requires Consecutive(events)
    ensures Reply(events, total, q, matches).complete <==>
            && !IsCut(events, q, matches)
            && (q.after.Some? && events != [] ==> events[0].sequence <= q.after.value + 1)
            && forall c :: c in q.since ==> Covered(events, c)
  {
    hide Filter, Reached, Covered;
  }

  // ----- what completeness means for a shard

  function OfShard(events: seq<Event>, shard: nat): seq<Event> {
    Filter(events, (e: Event) => e.shard == shard)
  }

  /** What a ring of that capacity has evicted. */
  function Evicted(history: seq<Event>, capacity: nat): seq<Event> {
    history[..|history| - |Suffix(history, capacity)|]
  }

  predicate ShardKept(history: seq<Event>, capacity: nat, c: Cursor)
    requires c.Seen?
  {
    forall e :: e in Evicted(history, capacity) && e.shard == c.shard ==> e.lamport <= c.lamport
  }

  /**
    A shard whose times rise has lost nothing later than a covered cursor. Without gaps, a cursor is covered exactly when
    nothing later was lost and something of the shard is still held.
   */
  lemma CoveredMeans(history: seq<Event>, capacity: nat, c: Cursor)
    requires c.Seen?
    ensures var held, all := Suffix(history, capacity), OfShard(history, c.shard);
            && (Rising(all) && Covered(held, c) ==> ShardKept(history, capacity, c))
            && (Gapless(all) ==> (Covered(held, c) <==> ShardKept(history, capacity, c) && OfShard(held, c.shard) != []))
  {
    hide Filter, Suffix;
    var held, gone := Suffix(history, capacity), Evicted(history, capacity);
    var h, g := OfShard(held, c.shard), OfShard(gone, c.shard);
    SuffixSplits(history, capacity);
    FilterJoin(gone, held, (e: Event) => e.shard == c.shard);
    CoveredIs(held, c);
    KeptIs(gone, c);
    JoinedTimes(g, h, c.lamport);
  }

  /** A shard without events: nothing is lost, and no cursor is covered. */
  lemma EmptyShard(history: seq<Event>, capacity: nat, c: Cursor)
    requires c.Seen? && forall i :: 0 <= i < |history| ==> history[i].shard != c.shard
    ensures !Covered(Suffix(history, capacity), c) && ShardKept(history, capacity, c)
  {
    SuffixSplits(history, capacity);
    var held := Suffix(history, capacity);
    assert forall i :: 0 <= i < |held| ==> held[i] in history;
  }

  lemma SuffixSplits(history: seq<Event>, capacity: nat)
    ensures history == Evicted(history, capacity) + Suffix(history, capacity)
  {
  }

  predicate SomeUpTo(events: seq<Event>, time: nat) {
    exists i :: 0 <= i < |events| && events[i].lamport <= time
  }

  predicate AllUpTo(events: seq<Event>, time: nat) {
    forall i :: 0 <= i < |events| ==> events[i].lamport <= time
  }

  lemma CoveredIs(held: seq<Event>, c: Cursor)
    requires c.Seen?
    ensures Covered(held, c) <==> SomeUpTo(OfShard(held, c.shard), c.lamport + 1)
  {
    hide Filter;
    var mine := OfShard(held, c.shard);
    if Covered(held, c) {
      var i :| 0 <= i < |held| && held[i].shard == c.shard && held[i].lamport <= c.lamport + 1;
      FilterHas(held, (e: Event) => e.shard == c.shard, i);
    }
    if SomeUpTo(mine, c.lamport + 1) {
      var i :| 0 <= i < |mine| && mine[i].lamport <= c.lamport + 1;
      assert mine[i] in held && mine[i].shard == c.shard;
    }
  }

  lemma KeptIs(gone: seq<Event>, c: Cursor)
    requires c.Seen?
    ensures (forall e :: e in gone && e.shard == c.shard ==> e.lamport <= c.lamport) <==> AllUpTo(OfShard(gone, c.shard), c.lamport)
  {
    hide Filter;
    var mine := OfShard(gone, c.shard);
    forall i | 0 <= i < |gone| && gone[i].shard == c.shard
      ensures gone[i] in mine
    {
      FilterHas(gone, (e: Event) => e.shard == c.shard, i);
    }
    assert forall i :: 0 <= i < |mine| ==> mine[i] in gone && mine[i].shard == c.shard;
  }

  lemma JoinedTimes(gone: seq<Event>, held: seq<Event>, time: nat)
    ensures Rising(gone + held) && SomeUpTo(held, time + 1) ==> AllUpTo(gone, time)
    ensures Gapless(gone + held) ==> (SomeUpTo(held, time + 1) <==> AllUpTo(gone, time) && held != [])
  {
    var all := gone + held;
    assert forall i :: 0 <= i < |gone| ==> all[i] == gone[i];
    assert forall i :: 0 <= i < |held| ==> all[|gone| + i] == held[i];
    if Gapless(all) && held != [] {
      assert held[0].lamport == all[0].lamport + |gone|;
      if gone != [] {
        assert gone[|gone| - 1].lamport == all[0].lamport + |gone| - 1;
      }
    }
  }
}
