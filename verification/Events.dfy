/** The event ring, refined to the history of all events appended. */
module Events {
  import opened Arithmetic

  datatype Event = Event(sequence: nat, shard: nat, lamport: nat, timestamp: int, kind: string, data: string)

  /** The last `n` elements. */
  function Suffix<T>(s: seq<T>, n: nat): (t: seq<T>)
    ensures |t| == if n < |s| then n else |s|
  {
    if n < |s| then s[|s| - n..] else s
  }

  /** Events are numbered from 1 in the order they were appended. */
  predicate Numbered(history: seq<Event>) {
    forall i :: 0 <= i < |history| ==> history[i].sequence == i + 1
  }

  function Append(history: seq<Event>, e: Event): seq<Event> {
    history + [e.(sequence := |history| + 1)]
  }

  /** A place counted round the ring. */
  function Slot(n: nat, c: nat): (s: nat)
    requires c > 0
    ensures s < c
  {
    n % c
  }

  class Ring {
    const capacity: nat
    const slots: array<Event>
    var head: nat
    var size: nat
    var total: nat
    ghost var history: seq<Event>

    /** The slot of the history's `i`-th event, for the events still held. */
    ghost predicate Valid()
      reads this, slots
    {
      && capacity > 0 && slots.Length == capacity
      && total == |history| && Numbered(history)
      && size == Min(total, capacity)
      && head == Slot(total, capacity)
      && forall i {:trigger history[i]} :: total - size <= i < total ==> slots[Slot(i, capacity)] == history[i]
    }

    /** What the ring still holds, oldest first. */
    ghost function Contents(): seq<Event>
      reads this
    {
      Suffix(history, capacity)
    }

    constructor (capacity: nat)
      requires capacity > 0
      ensures Valid() && this.capacity == capacity && history == [] && fresh(slots)
    {
      this.capacity := capacity;
      slots := new Event[capacity](_ => Event(0, 0, 0, 0, "", ""));
      head, size, total, history := 0, 0, 0, [];
    }

    /** `ch_event_ring_append`. */
    method Add(e: Event)
      requires Valid()
      modifies this, slots
      ensures Valid() && history == Append(old(history), e)
    {
      hide Slot;
      ghost var n := total;
      total := total + 1;
      slots[head] := e.(sequence := total);
      SlotsDistinct(n, capacity);
      NextSlot(n, capacity);
      head := Slot(head + 1, capacity);
      if size < capacity {
        size := size + 1;
      }
      history := Append(history, e);
    }

    /** Counting from the oldest slot walks through the held events in order. */
    lemma SlotHolds(offset: nat)
      requires Valid() && offset < size
      ensures |Contents()| == size
      ensures slots[Slot(Slot(head + capacity - size, capacity) + offset, capacity)] == Contents()[offset]
    {
      hide Slot;
      SlotIndex(total, size, offset, capacity);
      ghost var i := total - size + offset;
      assert history[i] == slots[Slot(i, capacity)];
      assert Contents()[offset] == history[i];
    }

    lemma HasRoom()
      requires Valid()
      ensures capacity > 0
    {
    }

    lemma HeldCount()
      requires Valid()
      ensures |Contents()| == size
    {
    }

    /** The held event that many places after the oldest. */
    method Held(offset: nat) returns (e: Event)
      requires Valid() && offset < size
      ensures offset < |Contents()| && e == Contents()[offset]
    {
      hide Suffix, Slot;
      SlotHolds(offset);
      var oldest := Slot(head + capacity - size, capacity);
      e := slots[Slot(oldest + offset, capacity)];
    }

    /** `ch_event_ring_snapshot`. */
    method Snapshot() returns (events: seq<Event>)
      requires Valid()
      ensures events == Contents()
    {
      hide Suffix, Valid;
      events := [];
      HeldCount();
      ghost var held := Contents();
      for offset := 0 to size
        invariant events == held[..offset]
      {
        var e := Held(offset);
        events := events + [e];
      }
      assert held[..size] == held;
    }

    method Total() returns (n: nat)
      requires Valid()
      ensures n == |history|
    {
      n := total;
    }

    /** `ch_event_ring_since`: the held events of a later Lamport time, and whether none that old has been evicted. */
    method Since(since: nat) returns (events: seq<Event>, complete: bool)
      requires Valid()
      ensures events == LaterThan(Contents(), since)
      ensures complete == IsComplete(Contents(), since)
      ensures Rising(history) && complete ==> NoneLost(history, capacity, since)
      ensures Gapless(history) ==> (complete <==> NoneLost(history, capacity, since))
    {
      hide LaterThan, Suffix, Valid, Rising, Gapless, NoneLost;
      HasRoom();
      CompleteMeans(history, capacity, since);
      events, complete := [], true;
      LaterThanNothing(since);
      HeldCount();
      if size == 0 {
        return;
      }
      var first := Held(0);
      complete := first.lamport <= since + 1;
      ghost var held := Contents();
      assert held[..0] == [];
      for offset := 0 to size
        invariant events == LaterThan(held[..offset], since)
      {
        var e := Held(offset);
        assert held[..offset + 1] == held[..offset] + [e];
        LaterThanSnoc(held[..offset], e, since);
        if e.lamport > since {
          events := events + [e];
        }
      }
      assert held[..size] == held;
    }
  }

  /** `ch_event_ring_create`: refuses a capacity of zero, and one whose array of events would not fit in a `size_t`. */
  method CreateRing(capacity: nat, eventSize: nat) returns (ring: Ring?)
    requires eventSize > 0
    ensures ring == null <==> capacity == 0 || capacity * eventSize > SIZE_MAX
    ensures ring != null ==> ring.Valid() && ring.capacity == capacity && ring.history == [] && fresh(ring) && fresh(ring.slots)
  {
    TooMany(capacity, eventSize);
    if capacity == 0 || capacity > SIZE_MAX / eventSize {
      return null;
    }
    ring := new Ring(capacity);
  }

  lemma TooMany(n: nat, size: nat)
    requires size > 0
    ensures n > SIZE_MAX / size <==> n * size > SIZE_MAX
  {
    var q := SIZE_MAX / size;
    assert SIZE_MAX == q * size + SIZE_MAX % size;
    if n > q {
      AtLeastOnce(n - q, size);
      assert n * size == (n - q) * size + q * size;
    } else {
      NotNegative(q - n, size);
      assert q * size == (q - n) * size + n * size;
    }
  }

  // ----- what a replay's completeness means

  /** Lamport times grow along the history. */
  predicate Rising(history: seq<Event>) {
    forall i, j :: 0 <= i < j < |history| ==> history[i].lamport < history[j].lamport
  }

  /** They start at 0 or 1 and grow by one. */
  predicate Gapless(history: seq<Event>) {
    forall i :: 0 <= i < |history| ==> history[0].lamport <= 1 && history[i].lamport == history[0].lamport + i
  }

  predicate IsComplete(held: seq<Event>, since: nat) {
    held == [] || held[0].lamport <= since + 1
  }

  /** No event later than `since` was evicted from a ring of that capacity. */
  predicate NoneLost(history: seq<Event>, capacity: nat, since: nat) {
    forall i :: 0 <= i < |history| - capacity ==> history[i].lamport <= since
  }

  /** A replay reported complete lost nothing; without gaps it is reported complete exactly when nothing was lost. */
  lemma CompleteMeans(history: seq<Event>, capacity: nat, since: nat)
    requires capacity > 0
    ensures Rising(history) && IsComplete(Suffix(history, capacity), since) ==> NoneLost(history, capacity, since)
    ensures Gapless(history) ==> (IsComplete(Suffix(history, capacity), since) <==> NoneLost(history, capacity, since))
  {
    var lost := |history| - capacity;
    if lost > 0 {
      assert Suffix(history, capacity)[0] == history[lost];
      var last := history[lost - 1];
      assert Gapless(history) ==> history[lost].lamport == last.lamport + 1;
    }
  }

  function LaterThan(events: seq<Event>, since: nat): seq<Event> {
    if events == [] then []
    else (if events[0].lamport > since then [events[0]] else []) + LaterThan(events[1..], since)
  }

  lemma LaterThanNothing(since: nat)
    ensures LaterThan([], since) == []
  {
  }

  lemma {:induction false} LaterThanSnoc(events: seq<Event>, e: Event, since: nat)
    ensures LaterThan(events + [e], since) == LaterThan(events, since) + (if e.lamport > since then [e] else [])
  {
    if events == [] {
      assert [e][1..] == [];
    } else {
      assert (events + [e])[1..] == events[1..] + [e];
      LaterThanSnoc(events[1..], e, since);
    }
  }

  // ----- slots of a ring

  lemma NextSlot(n: nat, c: nat)
    requires c > 0
    ensures Slot(Slot(n, c) + 1, c) == Slot(n + 1, c)
  {
    var q := Quotient(n, c);
    if n % c + 1 < c {
      RemainderUnique(n + 1, c, q, n % c + 1);
      RemainderUnique(n % c + 1, c, 0, n % c + 1);
    } else {
      RemainderUnique(n + 1, c, q + 1, 0);
      RemainderUnique(n % c + 1, c, 1, 0);
    }
  }

  /** The code's slot for an offset from the oldest event. */
  lemma SlotIndex(n: nat, size: nat, offset: nat, c: nat)
    requires c > 0 && size <= n && size <= c
    ensures Slot(Slot(Slot(n, c) + c - size, c) + offset, c) == Slot(n - size + offset, c)
  {
    hide Slot;
    Rotate(n, size, c);
    SlotAfter(n - size, offset, c);
  }

  lemma SlotAfter(n: nat, k: nat, c: nat)
    requires c > 0
    ensures Slot(Slot(n, c) + k, c) == Slot(n + k, c)
  {
    var q := Quotient(n, c);
    var p := Quotient(n % c + k, c);
    assert n + k == (q + p) * c + (n % c + k) % c;
    RemainderUnique(n + k, c, q + p, (n % c + k) % c);
  }

  /** The events still held lie in other slots than the one being overwritten. */
  lemma SlotsDistinct(n: nat, c: nat)
    requires c > 0
    ensures forall i: nat :: n < i + c && i < n ==> Slot(i, c) != Slot(n, c)
  {
    forall i: nat | n < i + c && i < n
      ensures Slot(i, c) != Slot(n, c)
    {
      if Slot(i, c) == Slot(n, c) {
        var q := Quotient(i, c);
        var p := Quotient(n, c);
        SmallMultiple(p, q, c, n - i);
      }
    }
  }

  lemma Rotate(total: nat, size: nat, c: nat)
    requires c > 0 && size <= total && size <= c
    ensures Slot(Slot(total, c) + c - size, c) == Slot(total - size, c)
  {
    var q := Quotient(total, c);
    var r := total % c;
    if size <= r {
      RemainderUnique(total - size, c, q, r - size);
      RemainderUnique(r + c - size, c, 1, r - size);
    } else {
      assert q >= 1;
      assert total - size == (q - 1) * c + (r + c - size);
      RemainderUnique(total - size, c, q - 1, r + c - size);
      RemainderUnique(r + c - size, c, 0, r + c - size);
    }
  }
}
