/**
  Whole runs of appends and polls. A poll takes its snapshot and reads the total in two critical sections, so it is two
  steps, and events may be appended between them.
 */
module PagingRuns {
  import opened Text
  import opened Events
  import opened Paging

  datatype Step = Appended(event: Event) | Snapshotted | Answered

  /** One finished poll: its cursor, the lengths of the history at its two steps, and its page. */
  datatype Poll = Poll(from: nat, seen: nat, total: nat, page: Page)

  /** The history, the client's cursor, the polls so far and, inside a poll, how long the history was at its snapshot. */
  datatype State = State(history: seq<Event>, cursor: nat, polls: seq<Poll>, snapshot: Option<nat>)

  /** What a run is given: the ring's capacity, the page limit and the filter. */
  datatype Setting = Setting(capacity: nat, limit: nat, matches: Event -> bool)

  predicate Sound(g: Setting) {
    g.capacity > 0 && g.limit > 0
  }

  /** The answer to a poll: the ring as it was at the snapshot, the total as it is now. */
  function AnswerOf(g: Setting, history: seq<Event>, seen: nat, from: nat): Page
    requires seen <= |history|
  {
    Answer(Suffix(history[..seen], g.capacity), |history|, from, g.limit, g.matches)
  }

  /** A step; one that is not possible here leaves the state alone. */
  function Next(g: Setting, st: State, step: Step): State {
    match step
    case Appended(e) => st.(history := Append(st.history, e))
    case Snapshotted => if st.snapshot.None? then st.(snapshot := Some(|st.history|)) else st
    case Answered =>
      if st.snapshot.None? || st.snapshot.value > |st.history| then st
      else
        var page := AnswerOf(g, st.history, st.snapshot.value, st.cursor);
        State(st.history, page.next, st.polls + [Poll(st.cursor, st.snapshot.value, |st.history|, page)], None)
  }

  function Run(g: Setting, st: State, steps: seq<Step>): State
    decreases |steps|
  {
    if steps == [] then st else Run(g, Next(g, st, steps[0]), steps[1..])
  }

  /** The pages, one after the other. */
  function Output(polls: seq<Poll>): seq<Event> {
    if polls == [] then [] else Output(polls[..|polls| - 1]) + polls[|polls| - 1].page.events
  }

  // ----- what a poll leaves out

  /** Event number `n` was in the ring at the snapshot. */
  predicate Held(g: Setting, p: Poll, n: nat) {
    n <= p.seen < n + g.capacity
  }

  /** It had not been reached, and was evicted from the ring before the snapshot. */
  predicate IsMissed(g: Setting, p: Poll, n: nat) {
    p.from < n <= p.seen && !Held(g, p, n)
  }

  /** The cursor passed over it although it was neither in the snapshot nor evicted before it. */
  predicate IsSilent(g: Setting, p: Poll, n: nat) {
    p.from < n <= p.page.next && !Held(g, p, n) && !IsMissed(g, p, n)
  }

  /** It was appended between the two steps of the poll. */
  predicate IsBetween(p: Poll, n: nat) {
    p.seen < n <= p.total
  }

  function Missed(g: Setting, p: Poll): set<nat> {
    set n: nat | n <= p.seen && IsMissed(g, p, n)
  }

  function Silent(g: Setting, p: Poll): set<nat> {
    set n: nat | n <= p.page.next && IsSilent(g, p, n)
  }

  function Between(p: Poll): set<nat> {
    set n: nat | n <= p.total && IsBetween(p, n)
  }

  function Truncated(g: Setting, history: seq<Event>, p: Poll): bool
    requires p.seen <= |history|
  {
    |Filter(Suffix(history[..p.seen], g.capacity), Wanted(p.from, g.matches))| > g.limit
  }

  function LeftOut(g: Setting, polls: seq<Poll>): set<nat> {
    if polls == [] then {}
    else LeftOut(g, polls[..|polls| - 1]) + Missed(g, polls[|polls| - 1]) + Silent(g, polls[|polls| - 1])
  }

  function Kept(g: Setting, out: set<nat>): Event -> bool {
    (e: Event) => e.sequence !in out && g.matches(e)
  }

  /** The events after `lo` up to `hi` that match and were not left out, in order. */
  function Select(g: Setting, history: seq<Event>, lo: nat, hi: nat, out: set<nat>): seq<Event>
    requires lo <= hi <= |history|
  {
    Filter(history[lo..hi], Kept(g, out))
  }

  // ----- one poll

  predicate PollHeld(history: seq<Event>, p: Poll) {
    p.from <= p.seen <= p.total <= |history|
  }

  /** The first sequence number the snapshot holds, less one; or the cursor if that is later. */
  function Floor(g: Setting, p: Poll): nat {
    if p.from + g.capacity < p.seen then p.seen - g.capacity else p.from
  }

  /** The wanted events of the snapshot are the matching events of the history above the floor. */
  lemma WantedAre(g: Setting, history: seq<Event>, p: Poll)
    requires Sound(g) && Numbered(history) && PollHeld(history, p)
    ensures Filter(Suffix(history[..p.seen], g.capacity), Wanted(p.from, g.matches))
         == Filter(history[Floor(g, p)..p.seen], g.matches)
  {
    hide Filter;
    var held := Suffix(history[..p.seen], g.capacity);
    var base := p.seen - |held|;
    var floor := Floor(g, p);
    var keep := Wanted(p.from, g.matches);
    var low, high := history[base..floor], history[floor..p.seen];
    assert held == low + high;
    FilterJoin(low, high, keep);
    forall i | 0 <= i < |low|
      ensures !keep(low[i])
    {
      assert low[i] == history[base + i];
    }
    FilterNone(low, keep);
    forall i | 0 <= i < |high|
      ensures keep(high[i]) == g.matches(high[i])
    {
      assert high[i] == history[floor + i];
    }
    FilterSame(high, keep, g.matches);
    assert [] + Filter(high, keep) == Filter(high, keep);
  }

  predicate IsAnswer(g: Setting, history: seq<Event>, p: Poll)
    requires PollHeld(history, p)
  {
    p.page == AnswerOf(g, history[..p.total], p.seen, p.from)
  }

  lemma SamePast(history: seq<Event>, seen: nat, total: nat)
    requires seen <= total <= |history|
    ensures history[..total][..seen] == history[..seen]
  {
  }

  /** Stopping before the kept event at place `k` is stopping at the number before its own. */
  lemma Cut(history: seq<Event>, lo: nat, hi: nat, matches: Event -> bool, k: nat)
    requires Numbered(history) && lo <= hi <= |history| && k < |Filter(history[lo..hi], matches)|
    ensures var wanted := Filter(history[lo..hi], matches);
            var next := wanted[k].sequence - 1;
            lo <= next < hi && wanted[..k] == Filter(history[lo..next], matches)
  {
    hide Filter;
    var s := history[lo..hi];
    var i := FilterPosition(s, matches, k);
    FilterPrefix(s, matches, i);
    assert s[i] == history[lo + i] && s[..i] == history[lo..lo + i];
  }

  /** The page is a prefix of the wanted events; the cursor stops where it ends, or goes to the total. */
  lemma PageIs(g: Setting, history: seq<Event>, p: Poll)
    requires Sound(g) && Numbered(history) && PollHeld(history, p) && IsAnswer(g, history, p)
    ensures Floor(g, p) <= p.page.next <= p.total
    ensures Truncated(g, history, p) ==> p.page.next < p.seen
                                         && p.page.events == Filter(history[Floor(g, p)..p.page.next], g.matches)
    ensures !Truncated(g, history, p) ==> p.page.next == p.total
                                          && p.page.events == Filter(history[Floor(g, p)..p.seen], g.matches)
    ensures p.page.complete <==> !Truncated(g, history, p) && Missed(g, p) == {}
  {
    hide Filter, Missed, Suffix, Numbered;
    SamePast(history, p.seen, p.total);
    WantedAre(g, history, p);
    GapIsMiss(g, history, p);
    if Truncated(g, history, p) {
      Cut(history, Floor(g, p), p.seen, g.matches, g.limit);
    }
  }

  /** The snapshot starts past the cursor exactly when something was missed. */
  lemma GapIsMiss(g: Setting, history: seq<Event>, p: Poll)
    requires Sound(g) && Numbered(history) && PollHeld(history, p)
    ensures var held := Suffix(history[..p.seen], g.capacity);
            held != [] && held[0].sequence > p.from + 1 <==> Missed(g, p) != {}
  {
    if p.from + g.capacity < p.seen {
      assert IsMissed(g, p, p.from + 1);
      assert p.from + 1 in Missed(g, p);
    }
  }

  /** A truncated page passes over nothing; any other passes over exactly what was appended between the two steps. */
  lemma SilentExactly(g: Setting, history: seq<Event>, p: Poll)
    requires Sound(g) && Numbered(history) && PollHeld(history, p) && IsAnswer(g, history, p)
    ensures Silent(g, p) == if Truncated(g, history, p) then {} else Between(p)
    ensures Silent(g, p) == {} <==> Truncated(g, history, p) || p.total == p.seen
  {
    hide Truncated, IsAnswer;
    PageIs(g, history, p);
    if !Truncated(g, history, p) && p.seen < p.total {
      assert IsBetween(p, p.total);
      assert p.total in Between(p);
    }
  }

  lemma NothingKept(g: Setting, history: seq<Event>, lo: nat, hi: nat, out: set<nat>)
    requires Numbered(history) && lo <= hi <= |history|
    requires forall n :: lo < n <= hi ==> n in out
    ensures Select(g, history, lo, hi, out) == []
  {
    var s := history[lo..hi];
    forall i | 0 <= i < |s|
      ensures !Kept(g, out)(s[i])
    {
      assert s[i] == history[lo + i];
    }
    FilterNone(s, Kept(g, out));
  }

  lemma AllKept(g: Setting, history: seq<Event>, lo: nat, hi: nat, out: set<nat>)
    requires Numbered(history) && lo <= hi <= |history|
    requires forall n :: lo < n <= hi ==> n !in out
    ensures Select(g, history, lo, hi, out) == Filter(history[lo..hi], g.matches)
  {
    var s := history[lo..hi];
    forall i | 0 <= i < |s|
      ensures Kept(g, out)(s[i]) == g.matches(s[i])
    {
      assert s[i] == history[lo + i];
    }
    FilterSame(s, Kept(g, out), g.matches);
  }

  lemma SelectSplit(g: Setting, history: seq<Event>, lo: nat, mid: nat, hi: nat, out: set<nat>)
    requires lo <= mid <= hi <= |history|
    ensures Select(g, history, lo, hi, out) == Select(g, history, lo, mid, out) + Select(g, history, mid, hi, out)
  {
    assert history[lo..hi] == history[lo..mid] + history[mid..hi];
    FilterJoin(history[lo..mid], history[mid..hi], Kept(g, out));
  }

  lemma SelectSame(g: Setting, history: seq<Event>, lo: nat, hi: nat, out: set<nat>, out': set<nat>)
    requires Numbered(history) && lo <= hi <= |history|
    requires forall n :: lo < n <= hi ==> (n in out <==> n in out')
    ensures Select(g, history, lo, hi, out) == Select(g, history, lo, hi, out')
  {
    var s := history[lo..hi];
    forall i | 0 <= i < |s|
      ensures Kept(g, out)(s[i]) == Kept(g, out')(s[i])
    {
      assert s[i] == history[lo + i];
    }
    FilterSame(s, Kept(g, out), Kept(g, out'));
  }

  /** A page holds exactly the matching events between the cursors that were neither missed nor passed over. */
  lemma PageExact(g: Setting, history: seq<Event>, p: Poll)
    requires Sound(g) && Numbered(history) && PollHeld(history, p) && IsAnswer(g, history, p)
    ensures p.from <= p.page.next <= p.total
    ensures p.page.events == Select(g, history, p.from, p.page.next, Missed(g, p) + Silent(g, p))
  {
    hide Truncated, IsAnswer, Select;
    PageIs(g, history, p);
    var floor, next, out := Floor(g, p), p.page.next, Missed(g, p) + Silent(g, p);
    var top := if Truncated(g, history, p) then next else p.seen;
    SelectSplit(g, history, p.from, floor, next, out);
    NothingKept(g, history, p.from, floor, out);
    SelectSplit(g, history, floor, top, next, out);
    AllKept(g, history, floor, top, out);
    NothingKept(g, history, top, next, out);
    var middle := Filter(history[floor..top], g.matches);
    assert [] + (middle + []) == middle;
  }

  // ----- runs

  /** What every reachable state keeps. */
  predicate Inv(g: Setting, start: nat, st: State) {
    && Numbered(st.history) && start <= st.cursor <= |st.history|
    && (st.snapshot.Some? ==> st.cursor <= st.snapshot.value <= |st.history|)
    && (forall i :: 0 <= i < |st.polls| ==> PollHeld(st.history, st.polls[i]) && IsAnswer(g, st.history, st.polls[i]))
    && (forall n :: n in LeftOut(g, st.polls) ==> n <= st.cursor)
    && Output(st.polls) == Select(g, st.history, start, st.cursor, LeftOut(g, st.polls))
  }

  lemma AppendKeeps(g: Setting, start: nat, st: State, e: Event)
    requires Sound(g) && Inv(g, start, st)
    ensures Inv(g, start, Next(g, st, Appended(e)))
  {
    hide Filter, Output, LeftOut;
    var h, h' := st.history, Append(st.history, e);
    forall i | 0 <= i < |st.polls|
      ensures PollHeld(h', st.polls[i]) && IsAnswer(g, h', st.polls[i])
    {
      assert h'[..st.polls[i].total] == h[..st.polls[i].total];
    }
    assert h'[start..st.cursor] == h[start..st.cursor];
  }

  lemma AnswerKeeps(g: Setting, start: nat, st: State)
    requires Sound(g) && Inv(g, start, st) && st.snapshot.Some?
    ensures Inv(g, start, Next(g, st, Answered))
  {
    hide Select, AnswerOf;
    var h := st.history;
    var page := AnswerOf(g, h, st.snapshot.value, st.cursor);
    var p := Poll(st.cursor, st.snapshot.value, |h|, page);
    var polls := st.polls + [p];
    assert h[..|h|] == h;
    assert polls[..|polls| - 1] == st.polls && polls[|polls| - 1] == p;
    PageExact(g, h, p);
    var before, out := LeftOut(g, st.polls), LeftOut(g, polls);
    SelectSplit(g, h, start, st.cursor, page.next, out);
    SelectSame(g, h, start, st.cursor, before, out);
    SelectSame(g, h, st.cursor, page.next, Missed(g, p) + Silent(g, p), out);
    MissedBelow(g, h, p);
  }

  lemma MissedBelow(g: Setting, history: seq<Event>, p: Poll)
    requires Sound(g) && Numbered(history) && PollHeld(history, p) && IsAnswer(g, history, p)
    ensures forall n :: n in Missed(g, p) || n in Silent(g, p) ==> p.from < n <= p.page.next
  {
    hide Truncated, IsAnswer;
    PageIs(g, history, p);
  }

  lemma {:induction false} RunKeeps(g: Setting, start: nat, st: State, steps: seq<Step>)
    requires Sound(g) && Inv(g, start, st)
    ensures Inv(g, start, Run(g, st, steps))
    decreases |steps|
  {
    hide Inv;
    if steps != [] {
      StepKeeps(g, start, st, steps[0]);
      RunKeeps(g, start, Next(g, st, steps[0]), steps[1..]);
    }
  }

  lemma StepKeeps(g: Setting, start: nat, st: State, step: Step)
    requires Sound(g) && Inv(g, start, st)
    ensures Inv(g, start, Next(g, st, step))
  {
    match step
    case Appended(e) => AppendKeeps(g, start, st, e);
    case Snapshotted =>
      hide Output, LeftOut, Select, IsAnswer, Numbered;
    case Answered =>
      if st.snapshot.Some? {
        AnswerKeeps(g, start, st);
      }
  }

  /** A client that starts at `start`, before any poll. */
  function Begin(history: seq<Event>, start: nat): State {
    State(history, start, [], None)
  }

  /**
    Over any run the concatenated pages are exactly the matching events after the start, in order and once each, except
    those evicted before being reached and those passed over between the two steps of a poll.
   */
  lemma PagesExact(g: Setting, history: seq<Event>, start: nat, steps: seq<Step>)
    requires Sound(g) && Numbered(history) && start <= |history|
    ensures var st := Run(g, Begin(history, start), steps);
            && start <= st.cursor <= |st.history|
            && Output(st.polls) == Select(g, st.history, start, st.cursor, LeftOut(g, st.polls))
  {
    BeginHolds(g, history, start);
    RunKeeps(g, start, Begin(history, start), steps);
  }

  lemma BeginHolds(g: Setting, history: seq<Event>, start: nat)
    requires Sound(g) && Numbered(history) && start <= |history|
    ensures Inv(g, start, Begin(history, start))
  {
    assert history[start..start] == [];
  }

  /** Every poll of a run that misses an evicted event, or is cut short, says it is incomplete, and no other does. */
  lemma MissesAreReported(g: Setting, history: seq<Event>, start: nat, steps: seq<Step>, i: nat)
    requires Sound(g) && Numbered(history) && start <= |history|
    requires i < |Run(g, Begin(history, start), steps).polls|
    ensures var st := Run(g, Begin(history, start), steps);
            var p := st.polls[i];
            && p.seen <= |st.history|
            && (p.page.complete <==> Missed(g, p) == {} && !Truncated(g, st.history, p))
            && Silent(g, p) == (if Truncated(g, st.history, p) then {} else Between(p))
  {
    hide Run;
    BeginHolds(g, history, start);
    RunKeeps(g, start, Begin(history, start), steps);
    var st := Run(g, Begin(history, start), steps);
    PageIs(g, st.history, st.polls[i]);
    SilentExactly(g, st.history, st.polls[i]);
  }

  // ----- atomic polls

  /** Nothing is appended between the two steps of any poll. */
  predicate Atomic(steps: seq<Step>) {
    forall i :: 0 <= i < |steps| && steps[i].Snapshotted? ==> i + 1 < |steps| && steps[i + 1].Answered?
  }

  function MissedBy(g: Setting, polls: seq<Poll>): set<nat> {
    if polls == [] then {} else MissedBy(g, polls[..|polls| - 1]) + Missed(g, polls[|polls| - 1])
  }

  predicate NoneBetween(polls: seq<Poll>) {
    forall i :: 0 <= i < |polls| ==> polls[i].seen == polls[i].total
  }

  lemma {:induction false} AtomicRun(g: Setting, start: nat, st: State, steps: seq<Step>)
    requires NoneBetween(st.polls) && Atomic(steps)
    requires st.snapshot.Some? ==> steps != [] && steps[0].Answered? && st.snapshot.value == |st.history|
    ensures NoneBetween(Run(g, st, steps).polls) && Run(g, st, steps).snapshot.None?
    decreases |steps|
  {
    hide AnswerOf;
    if steps != [] {
      assert forall i :: 0 <= i < |steps[1..]| ==> steps[1..][i] == steps[i + 1];
      AtomicRun(g, start, Next(g, st, steps[0]), steps[1..]);
    }
  }

  lemma {:induction false} OnlyMissed(g: Setting, history: seq<Event>, polls: seq<Poll>)
    requires Sound(g) && Numbered(history) && NoneBetween(polls)
    requires forall i :: 0 <= i < |polls| ==> PollHeld(history, polls[i]) && IsAnswer(g, history, polls[i])
    ensures LeftOut(g, polls) == MissedBy(g, polls)
    decreases |polls|
  {
    hide IsAnswer, Numbered;
    if polls != [] {
      var n := |polls| - 1;
      OnlyMissed(g, history, polls[..n]);
      SilentExactly(g, history, polls[n]);
    }
  }

  /** With atomic polls the pages leave out only events that were evicted before being reached. */
  lemma AtomicPagesExact(g: Setting, history: seq<Event>, start: nat, steps: seq<Step>)
    requires Sound(g) && Numbered(history) && start <= |history| && Atomic(steps)
    ensures var st := Run(g, Begin(history, start), steps);
            && start <= st.cursor <= |st.history|
            && Output(st.polls) == Select(g, st.history, start, st.cursor, MissedBy(g, st.polls))
  {
    hide Run, Select, LeftOut, Output;
    BeginHolds(g, history, start);
    RunKeeps(g, start, Begin(history, start), steps);
    AtomicRun(g, start, Begin(history, start), steps);
    var st := Run(g, Begin(history, start), steps);
    OnlyMissed(g, st.history, st.polls);
  }
}
