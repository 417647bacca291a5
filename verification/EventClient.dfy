/** The WebSocket client that polls the event query: its shard cursors go with the first poll, its number with all. */
module EventClient {
  import opened Text
  import opened Events
  import opened Paging
  import opened Queries
  import PagingRuns

  function AppendAll(history: seq<Event>, events: seq<Event>): seq<Event> {
    if events == [] then history else Append(AppendAll(history, events[..|events| - 1]), events[|events| - 1])
  }

  method AddAll(ring: Ring, events: seq<Event>)
    requires ring.Valid()
    modifies ring, ring.slots
    ensures ring.Valid()
    ensures ring.history == AppendAll(old(ring.history), events)
  {
    for i := 0 to |events|
      invariant ring.Valid()
      invariant ring.history == AppendAll(old(ring.history), events[..i])
    {
      assert events[..i + 1][..i] == events[..i];
      ring.Add(events[i]);
    }
    assert events[..|events|] == events;
  }

  class Client {
    var next: nat
    var initialized: bool
    const since: seq<Cursor>

    constructor (baseline: nat, since: seq<Cursor>)
      ensures next == baseline && !initialized && this.since == since
    {
      next, initialized, this.since := baseline, false, since;
    }

    function Asks(limit: nat): Request
      reads this
    {
      Request(Some(next), if initialized then [] else since, limit)
    }

    /** One poll; `meanwhile` is what others append between its two critical sections. */
    method Poll(ring: Ring, meanwhile: seq<Event>, limit: nat, matches: Event -> bool) returns (page: Page)
      requires ring.Valid() && limit > 0
      modifies this, ring, ring.slots
      ensures ring.Valid() && ring.history == AppendAll(old(ring.history), meanwhile)
      ensures Consecutive(old(ring.Contents()))
      ensures page == Reply(old(ring.Contents()), |ring.history|,
                            Request(Some(old(next)), if old(initialized) then [] else since, limit), matches)
      ensures old(initialized) ==> page == Answer(old(ring.Contents()), |ring.history|, old(next), limit, matches)
      ensures next == page.next && initialized
    {
      hide Reply, Answer;
      var q := Asks(limit);
      var events := ring.Snapshot();
      HeldAreConsecutive(ring.history, ring.capacity);
      AddAll(ring, meanwhile);
      var total := ring.Total();
      page := Query(events, total, q, matches);
      if initialized {
        ReplyIsAnswer(events, total, q, matches);
      }
      next, initialized := page.next, true;
    }
  }

  lemma HeldAreConsecutive(history: seq<Event>, capacity: nat)
    requires Numbered(history)
    ensures Consecutive(Suffix(history, capacity))
  {
  }

  /** Without shard cursors, the page is the one that whole runs are made of. */
  lemma ReplyIsAnswer(events: seq<Event>, total: nat, q: Request, matches: Event -> bool)
    requires Consecutive(events) && q.after.Some? && q.since == [] && q.limit > 0
    ensures Reply(events, total, q, matches) == Answer(events, total, q.after.value, q.limit, matches)
  {
    hide Filter, Reached, Scanned;
    FilterSame(events, Asked(q, matches), Wanted(q.after.value, matches));
    if IsCut(events, q, matches) {
      var s := Scanned(events, q, matches);
      PageIsScanned(events, total, q, matches);
      ScannedHasEligible(events, total, q, matches);
      ReachedIsLast(s, q);
      assert s[|s| - 1].sequence == events[|s|].sequence - 1;
      assert Eligible(q, s[|s| - 1]);
    }
  }

  /**
    A first poll with shard cursors, and any run after it: what it asked for and found in the ring is delivered by its
    page or by the run, unless it is still ahead of the cursor or was evicted or passed over since.
   */
  lemma ReplayIsDelivered(g: PagingRuns.Setting, history: seq<Event>, seen: nat, q: Request, steps: seq<PagingRuns.Step>, e: Event)
    requires PagingRuns.Sound(g) && Numbered(history) && q.limit == g.limit
    requires seen <= |history| && q.after.Some? && q.after.value <= |history|
    requires e in Filter(Suffix(history[..seen], g.capacity), Asked(q, g.matches))
    ensures var held := Suffix(history[..seen], g.capacity);
            && Consecutive(held)
            && var page := Reply(held, |history|, q, g.matches);
            && page.next <= |history|
            && var st := PagingRuns.Run(g, PagingRuns.Begin(history, page.next), steps);
            || e in page.events
            || e in PagingRuns.Output(st.polls)
            || e.sequence > st.cursor
            || e.sequence in PagingRuns.LeftOut(g, st.polls)
  {
    hide Filter, Reply;
    var held := Suffix(history[..seen], g.capacity);
    HeldAreConsecutive(history[..seen], g.capacity);
    NextIsBounded(held, |history|, q, g.matches);
    var page := Reply(held, |history|, q, g.matches);
    NextTellsApart(held, |history|, q, g.matches, e);
    assert e in held && e in history && g.matches(e);
    RunDelivers(g, history, page.next, steps, e);
  }

  lemma NextIsBounded(events: seq<Event>, total: nat, q: Request, matches: Event -> bool)
    requires Consecutive(events) && q.after.Some? && q.after.value <= total
    requires forall i :: 0 <= i < |events| ==> events[i].sequence <= total
    ensures Reply(events, total, q, matches).next <= total
  {
    hide Filter, Reached, Eligible, Scanned;
    if IsCut(events, q, matches) {
      PageIsScanned(events, total, q, matches);
      ReachedIsLast(Scanned(events, q, matches), q);
    }
  }

  /** A run delivers every matching event between its start and its cursor that it does not leave out. */
  lemma RunDelivers(g: PagingRuns.Setting, history: seq<Event>, start: nat, steps: seq<PagingRuns.Step>, e: Event)
    requires PagingRuns.Sound(g) && Numbered(history) && start <= |history| && e in history && g.matches(e)
    ensures var st := PagingRuns.Run(g, PagingRuns.Begin(history, start), steps);
            start < e.sequence <= st.cursor && e.sequence !in PagingRuns.LeftOut(g, st.polls) ==> e in PagingRuns.Output(st.polls)
  {
    hide Filter, PagingRuns.Run, PagingRuns.Output, PagingRuns.LeftOut;
    var st := PagingRuns.Run(g, PagingRuns.Begin(history, start), steps);
    PagingRuns.PagesExact(g, history, start, steps);
    RunExtends(g, PagingRuns.Begin(history, start), steps);
    var out := PagingRuns.LeftOut(g, st.polls);
    if start < e.sequence <= st.cursor && e.sequence !in out {
      var i := e.sequence - 1;
      assert st.history[i] == history[i] == e;
      assert st.history[start..st.cursor][i - start] == e;
      FilterHas(st.history[start..st.cursor], PagingRuns.Kept(g, out), i - start);
    }
  }

  lemma {:induction false} RunExtends(g: PagingRuns.Setting, st: PagingRuns.State, steps: seq<PagingRuns.Step>)
    ensures st.history <= PagingRuns.Run(g, st, steps).history
    decreases |steps|
  {
    hide PagingRuns.AnswerOf;
    if steps != [] {
      RunExtends(g, PagingRuns.Next(g, st, steps[0]), steps[1..]);
    }
  }
}
