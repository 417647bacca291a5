/**
  The token bucket that limits a direction's rate, in real arithmetic. The clock may jump forward by any amount before
  each reading, and a sleep lasts at least as long as asked.
 */
module TokenBucket {

  const MIN_BURST: nat := 64 * 1024

  function Capacity(rate: nat): (c: nat)
    ensures c >= MIN_BURST && c >= rate
  {
    if rate < MIN_BURST then MIN_BURST else rate
  }

  /** A bucket holds a second's worth, and 64 KiB at least. */
  lemma CapacityIs(rate: nat)
    ensures Capacity(rate) == if rate < 65536 then 65536 else rate
  {
  }

  /** The tokens that a rate earns in so many nanoseconds. */
  function Earned(rate: nat, nanoseconds: nat): real {
    nanoseconds as real / 1000000000.0 * rate as real
  }

  /** So many tokens a second. */
  lemma EarnedMeans(rate: nat, nanoseconds: nat)
    ensures Earned(rate, nanoseconds) * 1000000000.0 == (rate * nanoseconds) as real
  {
    var x, r := nanoseconds as real / 1000000000.0, rate as real;
    assert x * 1000000000.0 == nanoseconds as real;
    assert x * r * 1000000000.0 == (x * 1000000000.0) * r;
    assert nanoseconds as real * r == (rate * nanoseconds) as real;
  }

  lemma EarnedSplits(rate: nat, a: nat, b: nat)
    ensures Earned(rate, a + b) == Earned(rate, a) + Earned(rate, b)
  {
    var x, y, r := a as real / 1000000000.0, b as real / 1000000000.0, rate as real;
    assert (a + b) as real / 1000000000.0 == x + y;
    assert (x + y) * r == x * r + y * r;
  }

  lemma EarnedGrows(rate: nat, a: nat, b: nat)
    requires a <= b
    ensures 0.0 <= Earned(rate, a) <= Earned(rate, b)
  {
    NotNegative(a as real / 1000000000.0, rate as real);
    NotNegative((b - a) as real / 1000000000.0, rate as real);
    EarnedSplits(rate, a, b - a);
  }

  lemma NotNegative(x: real, y: real)
    requires x >= 0.0 && y >= 0.0
    ensures x * y >= 0.0
  {
  }

  function Ceiling(x: real): (n: nat)
    requires x >= 0.0
    ensures x <= n as real < x + 1.0
  {
    if x.Floor as real == x then x.Floor else x.Floor + 1
  }

  /** How long it takes to earn what is missing. */
  function Pause(rate: nat, missing: real): (ns: nat)
    requires rate > 0 && missing > 0.0
  {
    Positive(missing, rate as real);
    Ceiling(missing / rate as real * 1000000000.0)
  }

  lemma Positive(x: real, y: real)
    requires x > 0.0 && y > 0.0
    ensures x / y > 0.0
  {
  }

  /** A pause is as short as one that earns what is missing can be. */
  lemma PauseEarns(rate: nat, missing: real)
    requires rate > 0 && missing > 0.0
    ensures Pause(rate, missing) > 0
    ensures Earned(rate, Pause(rate, missing) - 1) < missing <= Earned(rate, Pause(rate, missing))
  {
    Positive(missing, rate as real);
    var ns := Pause(rate, missing);
    Between(rate, missing, ns);
  }

  lemma Between(rate: nat, missing: real, ns: nat)
    requires rate > 0 && ns > 0 && (ns - 1) as real < missing / rate as real * 1000000000.0 <= ns as real
    ensures Earned(rate, ns - 1) < missing <= Earned(rate, ns)
  {
    var r := rate as real;
    var seconds, less, more := missing / r, (ns - 1) as real / 1000000000.0, ns as real / 1000000000.0;
    assert less < seconds <= more && seconds * r == missing;
    Pays(less, seconds, more, r, missing);
    assert Earned(rate, ns - 1) == less * r && Earned(rate, ns) == more * r;
  }

  lemma Pays(less: real, seconds: real, more: real, r: real, missing: real)
    requires less < seconds <= more && r > 0.0 && seconds * r == missing
    ensures less * r < missing <= more * r
  {
    MorePays(less, seconds, r);
    if seconds < more {
      MorePays(seconds, more, r);
    }
  }

  lemma MorePays(x: real, y: real, r: real)
    requires x < y && r > 0.0
    ensures x * r < y * r
  {
    assert y * r - x * r == (y - x) * r;
  }

  // ----- what has been granted

  /** A grant: when, how many bytes, and the tokens left after it. */
  datatype Grant = Grant(time: nat, bytes: nat, left: real)

  predicate Follows(rate: nat, g: Grant, h: Grant) {
    g.time <= h.time && h.bytes as real + h.left <= g.left + Earned(rate, h.time - g.time)
  }

  /** Each grant fits in the bucket, and is paid for by what the one before left and what was earned since. */
  predicate Paid(rate: nat, log: seq<Grant>) {
    && (forall i :: 0 <= i < |log| ==> 0.0 <= log[i].left && log[i].bytes as real + log[i].left <= Capacity(rate) as real)
    && (forall i :: 0 < i < |log| ==> Follows(rate, log[i - 1], log[i]))
  }

  function Total(log: seq<Grant>): nat {
    if log == [] then 0 else Total(log[..|log| - 1]) + log[|log| - 1].bytes
  }

  /** The bytes granted from time `a` to time `b`. */
  function Within(log: seq<Grant>, a: nat, b: nat): nat {
    if log == [] then 0
    else
      var g := log[|log| - 1];
      Within(log[..|log| - 1], a, b) + if a <= g.time <= b then g.bytes else 0
  }

  lemma PaidPrefix(rate: nat, log: seq<Grant>, n: nat)
    requires Paid(rate, log) && n <= |log|
    ensures Paid(rate, log[..n])
  {
  }

  /** Up to the last grant of a window, what was granted and what is left was in the bucket or earned. */
  lemma {:induction false} WindowTo(rate: nat, log: seq<Grant>, a: nat, b: nat)
    requires Paid(rate, log) && log != []
    requires a <= log[|log| - 1].time <= b
    ensures Within(log, a, b) as real + log[|log| - 1].left
         <= Capacity(rate) as real + Earned(rate, log[|log| - 1].time - a)
  {
    hide Capacity, Earned;
    var pre, g := log[..|log| - 1], log[|log| - 1];
    PaidPrefix(rate, log, |log| - 1);
    if pre != [] && a <= pre[|pre| - 1].time {
      var p := pre[|pre| - 1];
      assert Follows(rate, log[|log| - 2], log[|log| - 1]);
      WindowTo(rate, pre, a, b);
      EarnedSplits(rate, p.time - a, g.time - p.time);
    } else {
      NoneBefore(rate, pre, a, b);
      EarnedGrows(rate, 0, g.time - a);
      EarnedGrows(rate, 0, 0);
    }
  }

  lemma {:induction false} NoneBefore(rate: nat, log: seq<Grant>, a: nat, b: nat)
    requires Paid(rate, log) && (log == [] || log[|log| - 1].time < a)
    ensures Within(log, a, b) == 0
  {
    hide Capacity, Earned;
    if log != [] {
      var pre := log[..|log| - 1];
      PaidPrefix(rate, log, |log| - 1);
      if pre != [] {
        assert Follows(rate, log[|log| - 2], log[|log| - 1]);
      }
      NoneBefore(rate, pre, a, b);
    }
  }

  /** No window of time sees more than a full bucket, of at least 64 KiB, and so many bytes a second. */
  lemma WindowBound(rate: nat, log: seq<Grant>, a: nat, b: nat)
    requires Paid(rate, log) && a <= b
    ensures Within(log, a, b) * 1_000_000_000 <= (if rate < 65536 then 65536 else rate) * 1_000_000_000 + rate * (b - a)
  {
    hide Paid, Within;
    WindowHolds(rate, log, a, b);
    EarnedMeans(rate, b - a);
    var w, c, e := Within(log, a, b), Capacity(rate), Earned(rate, b - a);
    assert w as real * 1000000000.0 <= (c as real + e) * 1000000000.0;
    assert (w * 1_000_000_000) as real <= (c * 1_000_000_000 + rate * (b - a)) as real;
  }

  lemma {:induction false} WindowHolds(rate: nat, log: seq<Grant>, a: nat, b: nat)
    requires Paid(rate, log) && a <= b
    ensures Within(log, a, b) as real <= Capacity(rate) as real + Earned(rate, b - a)
  {
    hide Capacity, Earned;
    EarnedGrows(rate, 0, b - a);
    EarnedGrows(rate, 0, 0);
    if log != [] {
      var pre, g := log[..|log| - 1], log[|log| - 1];
      PaidPrefix(rate, log, |log| - 1);
      if a <= g.time <= b {
        WindowTo(rate, log, a, b);
        EarnedGrows(rate, g.time - a, b - a);
      } else {
        WindowHolds(rate, pre, a, b);
      }
    }
  }

  /** The next chunk of what remains. */
  function Chunk(rate: nat, remaining: nat): nat {
    if remaining > Capacity(rate) then Capacity(rate) else remaining
  }

  lemma TotalSnoc(log: seq<Grant>, g: Grant)
    ensures Total(log + [g]) == Total(log) + g.bytes
  {
    assert (log + [g])[..|log|] == log;
  }

  // ----- the code

  class Clock {
    const drift: nat -> nat
    var now: nat
    var readings: nat

    constructor (drift: nat -> nat, start: nat)
      requires start > 0
      ensures now == start
    {
      this.drift := drift;
      now, readings := start, 0;
    }

    method Read() returns (t: nat)
      modifies this
      ensures t == now == old(now) + drift(old(readings)) && readings == old(readings) + 1
    {
      now := now + drift(readings);
      readings := readings + 1;
      t := now;
    }

    method Sleep(nanoseconds: nat)
      modifies this
      ensures now == old(now) + nanoseconds && readings == old(readings)
    {
      now := now + nanoseconds;
    }
  }

  class Bucket {
    var tokens: real
    var last: nat
    ghost var log: seq<Grant>
    ghost var sleeps: nat

    constructor ()
      ensures Unused()
    {
      tokens, last, log, sleeps := 0.0, 0, [], 0;
    }

    ghost predicate Unused()
      reads this
    {
      last == 0 && log == [] && sleeps == 0
    }

    /** The tokens are in the bucket, and no more than the last grant left and what has been earned since. */
    ghost predicate Valid(rate: nat, now: nat)
      reads this
    {
      && Paid(rate, log) && last <= now
      && (last == 0 ==> log == [])
      && (last > 0 ==> 0.0 <= tokens <= Capacity(rate) as real)
      && (log != [] ==> var g := log[|log| - 1]; g.time <= last && tokens <= g.left + Earned(rate, last - g.time))
    }

    /** The bucket is filled up to the present. */
    method Refill(rate: nat, now: nat)
      requires now > 0 && Valid(rate, now)
      modifies this`tokens, this`last
      ensures Valid(rate, now) && last == now
      ensures old(last) == 0 ==> tokens == Capacity(rate) as real
      ensures old(last) > 0 ==>
                var earned := old(tokens) + Earned(rate, now - old(last));
                tokens == if earned > Capacity(rate) as real then Capacity(rate) as real else earned
    {
      hide Paid, Capacity, Earned;
      EarnedSplits(rate, 0, 0);
      EarnedGrows(rate, 0, now - last);
      if last == 0 {
        last := now;
        tokens := Capacity(rate) as real;
      } else if now > last {
        if log != [] {
          EarnedSplits(rate, last - log[|log| - 1].time, now - last);
        }
        tokens := tokens + Earned(rate, now - last);
        if tokens > Capacity(rate) as real {
          tokens := Capacity(rate) as real;
        }
        last := now;
      }
    }

    method Take(rate: nat, now: nat, chunk: nat)
      requires now > 0 && Valid(rate, now) && last == now && chunk as real <= tokens
      modifies this`tokens, this`log
      ensures Valid(rate, now) && log == old(log) + [Grant(now, chunk, tokens)]
    {
      hide Earned;
      EarnedSplits(rate, 0, 0);
      tokens := tokens - chunk as real;
      log := log + [Grant(now, chunk, tokens)];
    }

    /** What is in the bucket and what time has earned since covers a chunk. */
    ghost predicate Covers(rate: nat, now: nat, chunk: nat)
      requires last <= now
      reads this
    {
      last > 0 && tokens + Earned(rate, now - last) >= chunk as real
    }

    /** One turn of the loop: the chunk is granted, or a sleep makes sure that the next turn grants it. */
    method Attempt(clock: Clock, rate: nat, chunk: nat) returns (granted: bool)
      requires rate > 0 && chunk <= Capacity(rate) && clock.now > 0 && Valid(rate, clock.now)
      modifies this, clock
      ensures Valid(rate, clock.now) && clock.now >= old(clock.now)
      ensures granted ==> log == old(log) + [Grant(last, chunk, tokens)] && sleeps == old(sleeps)
      ensures !granted ==> log == old(log) && sleeps == old(sleeps) + 1 && Covers(rate, clock.now, chunk)
      ensures !granted ==> clock.now > last && !Covers(rate, clock.now - 1, chunk)
      ensures old(Covers(rate, clock.now, chunk)) ==> granted
    {
      hide Paid, Earned;
      ghost var before := clock.now;
      var now := clock.Read();
      if last > 0 {
        EarnedSplits(rate, before - last, now - before);
        EarnedGrows(rate, 0, now - before);
      }
      Refill(rate, now);
      if tokens < chunk as real {
        var wait := Pause(rate, chunk as real - tokens);
        PauseEarns(rate, chunk as real - tokens);
        clock.Sleep(wait);
        sleeps := sleeps + 1;
        return false;
      }
      Take(rate, now, chunk);
      return true;
    }

    /** `length` bytes are granted in chunks of at most a full bucket, each after at most one sleep. */
    method Wait(clock: Clock, rate: nat, length: nat)
      requires clock.now > 0 && Valid(rate, clock.now)
      modifies this, clock
      ensures Valid(rate, clock.now) && clock.now >= old(clock.now)
      ensures rate == 0 ==> log == old(log) && clock.now == old(clock.now)
      ensures |old(log)| <= |log| && log[..|old(log)|] == old(log)
      ensures rate > 0 ==> Total(log) == Total(old(log)) + length
      ensures forall i :: |old(log)| <= i < |log| - 1 ==> log[i].bytes == if rate < 65536 then 65536 else rate
      ensures sleeps - old(sleeps) <= |log| - |old(log)|
    {
      hide Paid, Earned, Covers, Capacity, Total;
      if rate == 0 || length == 0 {
        return;
      }
      var capacity := Capacity(rate);
      CapacityIs(rate);
      var remaining: nat := length;
      ghost var slept := false;
      while remaining > 0
        invariant clock.now > 0 && Valid(rate, clock.now) && clock.now >= old(clock.now)
        invariant |old(log)| <= |log| && log[..|old(log)|] == old(log)
        invariant remaining <= length && Total(log) + remaining == Total(old(log)) + length
        invariant forall i :: |old(log)| <= i < |log| - 1 ==> log[i].bytes == capacity
        invariant remaining > 0 && |log| > |old(log)| ==> log[|log| - 1].bytes == capacity
        invariant sleeps - old(sleeps) <= |log| - |old(log)| + if slept then 1 else 0
        invariant slept ==> remaining > 0 && last <= clock.now && Covers(rate, clock.now, Chunk(rate, remaining))
        decreases remaining, !slept
      {
        var chunk := remaining;
        if chunk > capacity {
          chunk := capacity;
        }
        ghost var was := log;
        var granted := Attempt(clock, rate, chunk);
        if !granted {
          slept := true;
          continue;
        }
        TotalSnoc(was, Grant(last, chunk, tokens));
        remaining := remaining - chunk;
        slept := false;
      }
    }
  }
}
