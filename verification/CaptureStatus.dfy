/** The captured status: where it comes from, and exactly when the way a response is cut does not matter to it. */
module CaptureStatus {
  import opened Text
  import opened StatusLine
  import opened Capture

  /** The status was scanned from some start of the response that holds the header block and is within the limit. */
  ghost predicate ScannedFrom<H>(s: string, st: State<H>) {
    match FindEnd(s)
    case None => st.status == 0
    case Some(e) => exists n: nat :: IsScanned(s, e, n, st.status)
  }

  predicate IsScanned(s: string, e: nat, n: nat, status: int) {
    e + 4 <= n <= |s| && n <= MAX_HEADER && status == StatusIn(s[..n], 0)
  }

  lemma FeedScans<H>(parse: string -> H, limit: nat, s: string, st: State<H>, chunk: string)
    requires Captured(parse, limit, s, st) && ScannedFrom(s, st) && (FindEnd(s).None? ==> |s + chunk| <= MAX_HEADER)
    ensures ScannedFrom(s + chunk, Feed(parse, st, chunk))
  {
    hide FindEnd, Write, BodyOf, StatusIn;
    var t := s + chunk;
    if chunk == "" {
      assert t == s;
    } else if FindEnd(s).Some? {
      EndStays(s, chunk);
      var n: nat :| IsScanned(s, FindEnd(s).value, n, st.status);
      assert t[..n] == s[..n];
      assert IsScanned(t, FindEnd(s).value, n, st.status);
    } else if FindEnd(t).Some? {
      assert t[..|t|] == t;
      assert IsScanned(t, FindEnd(t).value, |t|, StatusIn(t, 0));
    }
  }

  lemma {:induction false} StatusIsScanned<H>(parse: string -> H, limit: nat, chunks: seq<string>)
    requires Fits(chunks)
    ensures ScannedFrom(Concat(chunks), FeedAll(parse, Start(limit), chunks))
  {
    hide ScannedFrom, Captured, Feed, FindEnd;
    if chunks == [] {
      StartScanned<H>(limit);
    } else {
      var n := |chunks| - 1;
      var pre, last := chunks[..n], chunks[n];
      FitsPrefix(chunks, n);
      StatusIsScanned(parse, limit, pre);
      CaptureIsWhole(parse, limit, pre);
      assert chunks[..n + 1] == chunks;
      assert FindEnd(Concat(chunks[..n])).None? ==> |Concat(chunks[..n + 1])| <= MAX_HEADER;
      FeedScans(parse, limit, Concat(pre), FeedAll(parse, Start(limit), pre), last);
    }
  }

  lemma StartScanned<H>(limit: nat)
    ensures ScannedFrom<H>("", Start(limit))
  {
  }

  /** A header block on its own: what every response with it starts with. */
  predicate IsHeader(h: string) {
    |h| >= 4 && FindEnd(h) == Some(|h| - 4)
  }

  /** The status cannot depend on the cut: the block holds its place, or the limit leaves no room for one after it. */
  predicate Steady(h: string) {
    Decided(h) || |h| + Needed(h) > 1048576
  }

  lemma HeaderIsBlock(h: string)
    requires IsHeader(h)
    ensures IsBlock(h)
  {
    hide FindEnd;
    BlockAtEnd(h);
    assert h[..|h|] == h;
  }

  lemma ScansTheSame(h: string, x: string)
    requires IsHeader(h) && Steady(h) && |h + x| <= MAX_HEADER
    ensures StatusIn(h + x, 0) == StatusIn(h, 0)
  {
    hide FindEnd, StatusIn, Decided, Needed, IsBlock;
    HeaderIsBlock(h);
    if Decided(h) {
      StatusMore(h, x, 0);
    } else {
      StatusUnset(h, x);
      StatusUnset(h, "");
      assert h + "" == h;
    }
  }

  /** Every cut of a response with a steady block gives the block's own status. */
  lemma StatusIsWhole<H>(parse: string -> H, limit: nat, h: string, chunks: seq<string>)
    requires IsHeader(h) && Steady(h) && Fits(chunks) && h <= Concat(chunks)
    ensures FeedAll(parse, Start(limit), chunks).status == StatusIn(h, 0)
  {
    hide FindEnd, StatusIn, Steady, FeedAll, Fits, Concat;
    var s := Concat(chunks);
    assert s == h + s[|h|..];
    EndStays(h, s[|h|..]);
    StatusIsScanned(parse, limit, chunks);
    var st := FeedAll(parse, Start(limit), chunks);
    var n: nat :| IsScanned(s, |h| - 4, n, st.status);
    assert s[..n] == h + s[|h|..n];
    ScansTheSame(h, s[|h|..n]);
  }

  lemma FeedFirst<H>(parse: string -> H, limit: nat, text: string)
    requires FindEnd(text).Some? && |text| <= MAX_HEADER
    ensures Feed(parse, Start(limit), text).status == StatusIn(text, 0)
  {
    hide FindEnd, StatusIn, Write;
    assert "" + text == text && |text| >= 4;
  }

  lemma FirstChunk<H>(parse: string -> H, limit: nat, text: string)
    requires FindEnd(text).Some? && |text| <= MAX_HEADER
    ensures FeedAll(parse, Start(limit), [text]).status == StatusIn(text, 0)
    ensures Fits([text]) && Concat([text]) == text
  {
    hide FindEnd, StatusIn, Write, Feed;
    assert [text][..0] == [] && [text][..1] == [text];
    assert "" + text == text;
    FeedFirst(parse, limit, text);
    assert FeedAll(parse, Start(limit), [text]) == Feed(parse, FeedAll(parse, Start(limit), []), text);
  }

  lemma SecondChunk<H>(parse: string -> H, limit: nat, text: string, more: string)
    requires FindEnd(text).Some? && |text| <= MAX_HEADER
    ensures FeedAll(parse, Start(limit), [text, more]).status == StatusIn(text, 0)
    ensures Fits([text, more]) && Concat([text, more]) == text + more
  {
    hide FindEnd, StatusIn, Write;
    FirstChunk(parse, limit, text);
    CaptureIsWhole(parse, limit, [text]);
    var both := [text, more];
    assert both[..1] == [text] && both[..2] == both;
    assert both[..0] == [];
  }

  lemma ShortNumber()
    ensures |Decimal(200)| == 3
  {
    assert |Decimal(20)| == 2;
  }

  /** When a block is not steady, the same bytes give status 200 in one chunk and none in two. */
  lemma StatusVaries<H>(parse: string -> H, limit: nat, h: string) returns (y: string)
    requires IsHeader(h) && !Steady(h)
    ensures FeedAll(parse, Start(limit), [h + y]).status == 200
    ensures FeedAll(parse, Start(limit), [h, y]).status == StatusIn(h, 0) == 0
    ensures Fits([h + y]) && Fits([h, y]) && Concat([h + y]) == Concat([h, y]) == h + y
  {
    hide FindEnd, Scan, Decided, UpToNul, FeedAll, Fits, Concat, Decimal, IsBlock, HasWord, NulFree;
    HeaderIsBlock(h);
    y := ScanUndecided(h, 200);
    ShortNumber();
    EndStays(h, y);
    FirstChunk(parse, limit, h + y);
    SecondChunk(parse, limit, h, y);
    BlockIsText(h);
    UpToNulMore(h, y);
    UpToNulMore(y, "");
    UpToNulMore(h, "");
    NoText();
    assert h + "" == h && y + "" == y;
  }

  /** All cuts of all responses with a block give the same status if and only if the block is steady. */
  lemma StatusExactly<H>(parse: string -> H, limit: nat, h: string)
    requires IsHeader(h)
    ensures Steady(h) <==>
            forall chunks :: Fits(chunks) && h <= Concat(chunks) ==> FeedAll(parse, Start(limit), chunks).status == StatusIn(h, 0)
  {
    hide FindEnd, StatusIn, Steady, FeedAll, Fits, Concat;
    if Steady(h) {
      forall chunks | Fits(chunks) && h <= Concat(chunks)
        ensures FeedAll(parse, Start(limit), chunks).status == StatusIn(h, 0)
      {
        StatusIsWhole(parse, limit, h, chunks);
      }
    } else {
      var y := StatusVaries(parse, limit, h);
      assert h <= Concat([h + y]);
    }
  }
}
