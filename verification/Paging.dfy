/** What the paged event query answers to a cursor on the sequence numbers. */
module Paging {
  import opened Events

  datatype Page = Page(events: seq<Event>, complete: bool, next: nat)

  /** The elements that satisfy `keep`, in order. */
  function Filter(s: seq<Event>, keep: Event -> bool): (t: seq<Event>)
    ensures |t| <= |s| && forall i :: 0 <= i < |t| ==> keep(t[i]) && t[i] in s
  {
    if s == [] then []
    else
      var n := |s| - 1;
      assert forall e :: e in s[..n] ==> e in s;
      Filter(s[..n], keep) + (if keep(s[n]) then [s[n]] else [])
  }

  /** A run of consecutively numbered events. */
  predicate Consecutive(s: seq<Event>) {
    forall i :: 0 <= i < |s| ==> s[i].sequence == s[0].sequence + i
  }

  function Wanted(after: nat, matches: Event -> bool): Event -> bool {
    (e: Event) => e.sequence > after && matches(e)
  }

  /** What a query answers: the first `limit` wanted events; the next cursor stops short of the first one left out. */
  function Answer(events: seq<Event>, total: nat, cursor: nat, limit: nat, matches: Event -> bool): Page {
    var wanted := Filter(events, Wanted(cursor, matches));
    var gap := events != [] && events[0].sequence > cursor + 1;
    if |wanted| > limit then
      Page(wanted[..limit], false, if wanted[limit].sequence == 0 then 0 else wanted[limit].sequence - 1)
    else Page(wanted, !gap, total)
  }

  lemma FilterNothing(keep: Event -> bool)
    ensures Filter([], keep) == []
  {
  }

  lemma FilterNext(s: seq<Event>, keep: Event -> bool, i: nat)
    requires i < |s|
    ensures Filter(s[..i + 1], keep) == Filter(s[..i], keep) + (if keep(s[i]) then [s[i]] else [])
  {
    assert s[..i + 1][..i] == s[..i];
  }

  lemma {:induction false} FilterJoin(a: seq<Event>, b: seq<Event>, keep: Event -> bool)
    ensures Filter(a + b, keep) == Filter(a, keep) + Filter(b, keep)
    decreases |b|
  {
    if b == [] {
      assert a + b == a;
    } else {
      var n := |b| - 1;
      assert (a + b)[..|a| + n] == a + b[..n];
      FilterJoin(a, b[..n], keep);
    }
  }

  /** The kept event at `i` comes right after those kept before it. */
  lemma FilterPrefix(s: seq<Event>, keep: Event -> bool, i: nat)
    requires i < |s| && keep(s[i])
    ensures var before := Filter(s[..i], keep);
            |before| < |Filter(s, keep)| && Filter(s, keep)[|before|] == s[i] && Filter(s, keep)[..|before|] == before
  {
    var before := Filter(s[..i], keep);
    assert s == s[..i + 1] + s[i + 1..] && s[..i + 1][..i] == s[..i];
    FilterJoin(s[..i + 1], s[i + 1..], keep);
    assert Filter(s[..i + 1], keep) == before + [s[i]];
  }

  lemma {:induction false} FilterSame(s: seq<Event>, f: Event -> bool, g: Event -> bool)
    requires forall i :: 0 <= i < |s| ==> f(s[i]) == g(s[i])
    ensures Filter(s, f) == Filter(s, g)
    decreases |s|
  {
    if s != [] {
      FilterSame(s[..|s| - 1], f, g);
    }
  }

  lemma {:induction false} FilterNone(s: seq<Event>, f: Event -> bool)
    requires forall i :: 0 <= i < |s| ==> !f(s[i])
    ensures Filter(s, f) == []
    decreases |s|
  {
    if s != [] {
      FilterNone(s[..|s| - 1], f);
    }
  }

  /** The kept elements of a consecutive run, found again at their own position. */
  lemma {:induction false} FilterPosition(s: seq<Event>, keep: Event -> bool, k: nat) returns (i: nat)
    requires Consecutive(s) && k < |Filter(s, keep)|
    ensures i < |s| && s[i] == Filter(s, keep)[k] && |Filter(s[..i], keep)| == k
    decreases |s|
  {
    var n := |s| - 1;
    if k < |Filter(s[..n], keep)| {
      i := FilterPosition(s[..n], keep, k);
      assert s[..n][..i] == s[..i];
    } else {
      i := n;
    }
  }
}
