/**
  Capturing a response that arrives in chunks: the header block is gathered until it is complete, what follows is body.
  `parse` stands for whatever the header lines are read to.
 */
module Capture {
  import opened Text
  import opened Arithmetic
  import opened StatusLine

  const MAX_HEADER: nat := 1024 * 1024

  /** Where the first blank line starts, searched up to a terminator. */
  function FindEnd(s: string): (e: Option<nat>)
    ensures e.Some? ==> BlankAt(s, e.value) && forall i :: 0 <= i < e.value + 4 ==> s[i] != '\0'
  {
    if |s| < 4 || s[0] == '\0' then None
    else if BlankAt(s, 0) then Some(0)
    else
      match FindEnd(s[1..])
      case None => None
      case Some(e) =>
        assert forall i :: 0 < i < e + 5 ==> s[i] == s[1..][i - 1];
        Some(e + 1)
  }

  /** More text does not move the end of the header block. */
  lemma {:induction false} EndStays(a: string, b: string)
    requires FindEnd(a).Some?
    ensures FindEnd(a + b) == FindEnd(a)
  {
    if !BlankAt(a, 0) {
      assert (a + b)[1..] == a[1..] + b;
      EndStays(a[1..], b);
    }
  }

  /** The text up to the end is a header block. */
  lemma BlockAtEnd(s: string)
    requires FindEnd(s).Some?
    ensures IsBlock(s[..FindEnd(s).value + 4])
  {
    hide FindEnd;
  }

  // ----- the state, and one chunk

  /** A body: how much to keep, how much there was, and what was kept. */
  datatype Body = Body(limit: nat, size: nat, preview: string)

  datatype State<H> = State(
    limit: nat, buffer: string, overflow: bool, complete: bool, status: int, headers: Option<H>, body: Body)

  function Start<H>(limit: nat): State<H> {
    State(limit, "", false, false, 0, None, Body(limit, 0, ""))
  }

  function Write(body: Body, bytes: string): Body {
    var room := if |body.preview| >= body.limit then 0 else body.limit - |body.preview|;
    Body(body.limit, if SIZE_MAX - body.size < |bytes| then SIZE_MAX else body.size + |bytes|,
         body.preview + bytes[..Min(|bytes|, room)])
  }

  function Feed<H>(parse: string -> H, st: State<H>, chunk: string): State<H> {
    if chunk == "" then st
    else if st.complete then st.(body := Write(st.body, chunk))
    else if |chunk| > MAX_HEADER - |st.buffer| then st.(overflow := true)
    else
      var text := st.buffer + chunk;
      match FindEnd(text)
      case None => st.(buffer := text)
      case Some(e) => Complete(parse, st, text, e)
  }

  function Complete<H>(parse: string -> H, st: State<H>, text: string, e: nat): State<H>
    requires e + 4 <= |text|
  {
    st.(buffer := text, complete := true, status := StatusIn(text, st.status), headers := Some(parse(text[..e + 2])),
        body := Write(Body(st.limit, 0, ""), text[e + 4..]))
  }

  function FeedAll<H>(parse: string -> H, st: State<H>, chunks: seq<string>): State<H> {
    if chunks == [] then st else Feed(parse, FeedAll(parse, st, chunks[..|chunks| - 1]), chunks[|chunks| - 1])
  }

  function Concat(chunks: seq<string>): string {
    if chunks == [] then "" else Concat(chunks[..|chunks| - 1]) + chunks[|chunks| - 1]
  }

  // ----- any way of cutting the response

  /** While the headers are incomplete, the bytes so far stay within the limit. */
  predicate Fits(chunks: seq<string>) {
    forall k :: 0 <= k < |chunks| && FindEnd(Concat(chunks[..k])).None? ==> |Concat(chunks[..k + 1])| <= 1048576
  }

  lemma FitsPrefix(chunks: seq<string>, n: nat)
    requires Fits(chunks) && n <= |chunks|
    ensures Fits(chunks[..n])
  {
    hide Concat, FindEnd;
    forall k | 0 <= k < n && FindEnd(Concat(chunks[..n][..k])).None?
      ensures |Concat(chunks[..n][..k + 1])| <= MAX_HEADER
    {
      assert chunks[..n][..k] == chunks[..k] && chunks[..n][..k + 1] == chunks[..k + 1];
    }
  }

  /** The first `limit` bytes, and a count that stops at the largest 64-bit number. */
  function BodyOf(limit: nat, bytes: string): Body {
    Body(limit, Min(|bytes|, SIZE_MAX), bytes[..Min(|bytes|, limit)])
  }

  lemma WriteMore(limit: nat, a: string, b: string)
    ensures Write(BodyOf(limit, a), b) == BodyOf(limit, a + b)
  {
    var kept := Min(|a|, limit);
    if |a| >= limit {
      assert (a + b)[..limit] == a[..limit];
      assert b[..0] == "";
    } else {
      assert a[..kept] == a;
      assert (a + b)[..Min(|a + b|, limit)] == a + b[..Min(|b|, limit - |a|)];
    }
  }

  /** What the whole response `s` comes to, whichever way it was cut; `status` is left open. */
  predicate Captured<H(==)>(parse: string -> H, limit: nat, s: string, st: State<H>) {
    && st.limit == limit && !st.overflow
    && match FindEnd(s)
       case None => !st.complete && st.buffer == s && st.headers == None && st.status == 0 && st.body == BodyOf(limit, "")
       case Some(e) => st.complete && st.headers == Some(parse(s[..e + 2])) && st.body == BodyOf(limit, s[e + 4..])
  }

  lemma FeedCaptures<H>(parse: string -> H, limit: nat, s: string, st: State<H>, chunk: string)
    requires Captured(parse, limit, s, st) && (FindEnd(s).None? ==> |s + chunk| <= MAX_HEADER)
    ensures Captured(parse, limit, s + chunk, Feed(parse, st, chunk))
  {
    hide FindEnd, Write, BodyOf, StatusIn;
    if chunk == "" {
      assert s + chunk == s;
    } else if FindEnd(s).Some? {
      var e := FindEnd(s).value;
      EndStays(s, chunk);
      WriteMore(limit, s[e + 4..], chunk);
      assert (s + chunk)[e + 4..] == s[e + 4..] + chunk;
      assert (s + chunk)[..e + 2] == s[..e + 2];
    } else if FindEnd(s + chunk).Some? {
      var e := FindEnd(s + chunk).value;
      EmptyBody(limit);
      WriteMore(limit, "", (s + chunk)[e + 4..]);
      assert "" + (s + chunk)[e + 4..] == (s + chunk)[e + 4..];
    }
  }

  lemma EmptyBody(limit: nat)
    ensures BodyOf(limit, "") == Body(limit, 0, "")
  {
  }

  /** Headers, body preview and body size are those of the whole response. */
  lemma {:induction false} CaptureIsWhole<H>(parse: string -> H, limit: nat, chunks: seq<string>)
    requires Fits(chunks)
    ensures Captured(parse, limit, Concat(chunks), FeedAll(parse, Start(limit), chunks))
  {
    hide Captured, Feed, FindEnd;
    if chunks == [] {
      StartCaptured(parse, limit);
    } else {
      var n := |chunks| - 1;
      var pre, last := chunks[..n], chunks[n];
      FitsPrefix(chunks, n);
      CaptureIsWhole(parse, limit, pre);
      assert chunks[..n + 1] == chunks;
      assert FindEnd(Concat(chunks[..n])).None? ==> |Concat(chunks[..n + 1])| <= MAX_HEADER;
      FeedCaptures(parse, limit, Concat(pre), FeedAll(parse, Start(limit), pre), last);
    }
  }

  lemma StartCaptured<H>(parse: string -> H, limit: nat)
    ensures Captured(parse, limit, "", Start(limit))
  {
  }

  /** Two ways of cutting the same response give the same headers, preview and size. */
  lemma ChunkIndependent<H>(parse: string -> H, limit: nat, a: seq<string>, b: seq<string>)
    requires Fits(a) && Fits(b) && Concat(a) == Concat(b)
    ensures var x, y := FeedAll(parse, Start(limit), a), FeedAll(parse, Start(limit), b);
            x.complete == y.complete && x.headers == y.headers && x.body == y.body && x.overflow == y.overflow
  {
    hide FeedAll, FindEnd, BodyOf;
    CaptureIsWhole(parse, limit, a);
    CaptureIsWhole(parse, limit, b);
  }

  // ----- chunks that do not fit

  lemma FitsLast(chunks: seq<string>, n: nat)
    requires |chunks| == n + 1 && Fits(chunks[..n])
    requires FindEnd(Concat(chunks[..n])).None? ==> |Concat(chunks[..n]) + chunks[n]| <= MAX_HEADER
    ensures Fits(chunks)
  {
    hide Concat, FindEnd;
    forall k | 0 <= k < |chunks| && FindEnd(Concat(chunks[..k])).None?
      ensures |Concat(chunks[..k + 1])| <= MAX_HEADER
    {
      if k < n {
        assert chunks[..n][..k] == chunks[..k] && chunks[..n][..k + 1] == chunks[..k + 1];
      } else {
        assert chunks[..n + 1] == chunks;
        ConcatLast(chunks, n);
      }
    }
  }

  lemma ConcatLast(chunks: seq<string>, n: nat)
    requires |chunks| == n + 1
    ensures Concat(chunks) == Concat(chunks[..n]) + chunks[n]
  {
  }

  /** The chunks that are added: all but those that take unfinished headers over the limit. */
  function Kept(chunks: seq<string>): (kept: seq<string>)
    ensures |kept| <= |chunks|
  {
    if chunks == [] then []
    else
      var pre, last := Kept(chunks[..|chunks| - 1]), chunks[|chunks| - 1];
      if FindEnd(Concat(pre)).None? && |Concat(pre) + last| > 1048576 then pre else pre + [last]
  }

  lemma {:induction false} KeptFits(chunks: seq<string>)
    ensures Fits(Kept(chunks))
  {
    hide FindEnd;
    if chunks != [] {
      var n := |chunks| - 1;
      KeptFits(chunks[..n]);
      var pre := Kept(chunks[..n]);
      if Kept(chunks) != pre {
        assert (pre + [chunks[n]])[..|pre|] == pre;
        FitsLast(Kept(chunks), |pre|);
      }
    }
  }

  /** Dropping a chunk only raises the flag, and keeping one does not look at it. */
  lemma FeedKept<H>(parse: string -> H, limit: nat, pre: seq<string>, st: State<H>, flag: bool, last: string)
    requires Captured(parse, limit, Concat(pre), st)
    ensures var dropped := FindEnd(Concat(pre)).None? && |Concat(pre) + last| > MAX_HEADER;
            Feed(parse, st.(overflow := flag), last) ==
            if dropped && last != "" then st.(overflow := true) else Feed(parse, st, last).(overflow := flag)
  {
    hide FindEnd, Write, BodyOf, StatusIn, Concat;
  }

  lemma FitsSoFar(chunks: seq<string>)
    requires Fits(chunks) && FindEnd(Concat(chunks)).None?
    ensures |Concat(chunks)| <= MAX_HEADER
  {
    hide FindEnd;
    if chunks != [] {
      var n := |chunks| - 1;
      if FindEnd(Concat(chunks[..n])).Some? {
        EndStays(Concat(chunks[..n]), chunks[n]);
      }
      assert chunks[..n + 1] == chunks;
    }
  }

  /** One more chunk after those kept so far. */
  lemma KeptStep<H>(parse: string -> H, limit: nat, pre: seq<string>, flag: bool, last: string)
    requires Fits(pre)
    ensures var st := FeedAll(parse, Start(limit), pre);
            Feed(parse, st.(overflow := flag), last) ==
            if FindEnd(Concat(pre)).None? && |Concat(pre) + last| > MAX_HEADER then st.(overflow := true)
            else FeedAll(parse, Start(limit), pre + [last]).(overflow := flag)
  {
    hide FindEnd, Captured, Feed, FeedAll, Fits, Concat;
    CaptureIsWhole(parse, limit, pre);
    FeedKept(parse, limit, pre, FeedAll(parse, Start(limit), pre), flag, last);
    if FindEnd(Concat(pre)).None? {
      FitsSoFar(pre);
    }
    FeedLast(parse, limit, pre, last);
  }

  /** Whatever arrives, the capture is that of the chunks that are kept, and the flag says whether any was not. */
  lemma {:induction false} CaptureIsKept<H>(parse: string -> H, limit: nat, chunks: seq<string>)
    ensures Fits(Kept(chunks))
    ensures FeedAll(parse, Start(limit), chunks)
         == FeedAll(parse, Start(limit), Kept(chunks)).(overflow := Kept(chunks) != chunks)
  {
    hide FindEnd, Captured, Feed, Fits, Concat;
    KeptFits(chunks);
    if chunks != [] {
      var n := |chunks| - 1;
      var pre, last := Kept(chunks[..n]), chunks[n];
      CaptureIsKept(parse, limit, chunks[..n]);
      KeptStep(parse, limit, pre, pre != chunks[..n], last);
      assert chunks == chunks[..n] + [last];
      SameLast(pre, chunks[..n], last);
    }
  }

  lemma FeedLast<H>(parse: string -> H, limit: nat, pre: seq<string>, last: string)
    ensures FeedAll(parse, Start(limit), pre + [last]) == Feed(parse, FeedAll(parse, Start(limit), pre), last)
  {
    assert (pre + [last])[..|pre|] == pre;
  }

  lemma SameLast(a: seq<string>, b: seq<string>, x: string)
    ensures a + [x] == b + [x] <==> a == b
  {
    if a + [x] == b + [x] {
      assert a == (a + [x])[..|a|] && b == (b + [x])[..|b|];
    }
  }

  lemma {:induction false} FittingAreKept(chunks: seq<string>)
    requires Fits(chunks)
    ensures Kept(chunks) == chunks
  {
    hide FindEnd;
    if chunks != [] {
      var n := |chunks| - 1;
      FitsPrefix(chunks, n);
      FittingAreKept(chunks[..n]);
      assert chunks[..n + 1] == chunks && chunks == chunks[..n] + [chunks[n]];
    }
  }

  /** The error about too long headers appears just if the headers were too long before they were complete. */
  lemma OverflowExactly<H>(parse: string -> H, limit: nat, chunks: seq<string>)
    ensures FeedAll(parse, Start(limit), chunks).overflow <==> !Fits(chunks)
  {
    hide FeedAll, Fits, Kept;
    CaptureIsKept(parse, limit, chunks);
    if Fits(chunks) {
      FittingAreKept(chunks);
    }
  }

  /** A dropped chunk splices what was before it to what comes after: the headers are of a text that was never sent. */
  lemma Spliced<H>(parse: string -> H, limit: nat, a: string, big: string, b: string)
    requires FindEnd(a).None? && |a| <= MAX_HEADER && |a + big| > MAX_HEADER
    requires FindEnd(a + b).Some? && |a + b| <= MAX_HEADER
    requires b != "" && b[0] != big[0] && |a| < FindEnd(a + b).value + 2
    ensures var header := (a + b)[..FindEnd(a + b).value + 2];
            && FeedAll(parse, Start(limit), [a, big, b]).headers == Some(parse(header))
            && Concat([a, big, b]) == a + big + b && !(header <= a + big + b)
  {
    hide FindEnd, FeedAll, Captured, Fits;
    var chunks := [a, big, b];
    KeptOfThree(a, big, b);
    CaptureIsKept(parse, limit, chunks);
    CaptureIsWhole(parse, limit, [a, b]);
    HeadersOf(parse, limit, a + b, FeedAll(parse, Start(limit), [a, b]));
    assert (a + b)[|a|] == b[0] && (a + big + b)[|a|] == big[0];
  }

  lemma HeadersOf<H>(parse: string -> H, limit: nat, s: string, st: State<H>)
    requires Captured(parse, limit, s, st) && FindEnd(s).Some?
    ensures st.headers == Some(parse(s[..FindEnd(s).value + 2]))
  {
  }

  lemma KeptOfThree(a: string, big: string, b: string)
    requires FindEnd(a).None? && |a| <= MAX_HEADER && |a + big| > MAX_HEADER && |a + b| <= MAX_HEADER
    ensures Kept([a, big, b]) == [a, b] && Concat([a, b]) == a + b && Concat([a, big, b]) == a + big + b
  {
    hide FindEnd;
    var chunks := [a, big, b];
    assert chunks[..2] == [a, big] && [a, big][..1] == [a] && [a][..0] == [] && [a, b][..1] == [a];
    assert "" + a == a;
    assert Concat([a]) == a && Kept([a]) == [a];
    assert Kept([a, big]) == [a];
  }

  function Xs(n: nat): (s: string)
    ensures |s| == n && (n > 0 ==> s[0] == 'x')
  {
    if n == 0 then "" else "x" + Xs(n - 1)
  }

  /** Such chunks: "a", a megabyte of "x", and a blank line. */
  lemma SplicedChunks<H>(parse: string -> H, limit: nat)
    ensures var chunks := ["a", Xs(MAX_HEADER), "\r\n\r\n"];
            && FeedAll(parse, Start(limit), chunks).headers == Some(parse("a\r\n"))
            && !("a\r\n" <= Concat(chunks))
  {
    hide FeedAll, Xs, Concat;
    var a, big, b := "a", Xs(MAX_HEADER), "\r\n\r\n";
    ShortEnds();
    assert a + b == "a\r\n\r\n";
    Spliced(parse, limit, a, big, b);
    assert (a + b)[..3] == "a\r\n";
  }

  lemma ShortEnds()
    ensures FindEnd("a") == None && FindEnd("a\r\n\r\n") == Some(1)
  {
    var s := "a\r\n\r\n";
    assert s[1..] == "\r\n\r\n";
    assert FindEnd(s[1..]) == Some(0);
  }
}
