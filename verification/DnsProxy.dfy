/** The DNS proxy: which responses it accepts, its own failure response, DNS over QUIC, and the fallback over upstreams. */
module DnsProxy {
  import opened Text
  import opened Utf8
  import opened Dns

  datatype Status = Ok | InvalidArgument | Io | Parse

  datatype Verdict = Accepted | MalformedQuery | TooShort | WrongId | MalformedQuestion | OtherQuestion

  // ----- where the questions end

  /** The offset after the last question; 0 when the message has none or they are cut short. */
  function End(m: Bytes): nat {
    if |m| < HEADER || Count(m) == 0 then 0
    else
      match ReadQuestions(m[HEADER..], Count(m))
      case None => 0
      case Some((_, rest)) => if |rest| <= |m| then |m| - |rest| else 0
  }

  lemma EndMeans(m: Bytes)
    ensures End(m) > 0 <==> Questions(m).Some?
    ensures Questions(m).Some? ==>
              var qs := Questions(m).value;
              |m| >= HEADER && |qs| == Count(m) && AllWellFormed(qs) && HEADER < End(m) <= |m| && m[HEADER..End(m)] == Wire(qs)
  {
    hide ReadQuestions, Wire, AllWellFormed;
    if |m| >= HEADER && Count(m) > 0 && ReadQuestions(m[HEADER..], Count(m)).Some? {
      QuestionsWritten(m[HEADER..], Count(m));
      var (qs, rest) := ReadQuestions(m[HEADER..], Count(m)).value;
      WireHead(qs);
      assert m == m[..HEADER] + (Wire(qs) + rest);
      assert End(m) == HEADER + |Wire(qs)|;
      assert m[HEADER..End(m)] == Wire(qs);
    }
  }

  /** One name, from its first length byte; none when it is cut short or a length has a high bit. */
  method NameEnd(m: Bytes, start: nat) returns (end: Option<nat>)
    requires start <= |m|
    ensures end.Some? <==> ReadName(m[start..]).Some?
    ensures end.Some? ==> end.value <= |m| && ReadName(m[start..]).value.1 == m[end.value..]
  {
    hide ReadName;
    var offset := start;
    while true
      invariant start <= offset <= |m|
      invariant ReadName(m[start..]).Some? <==> ReadName(m[offset..]).Some?
      invariant ReadName(m[start..]).Some? ==> ReadName(m[start..]).value.1 == ReadName(m[offset..]).value.1
      decreases |m| - offset
    {
      NameStep(m, offset);
      if offset >= |m| {
        return None;
      }
      var size := m[offset];
      offset := offset + 1;
      if size == 0 {
        return Some(offset);
      }
      if size > 63 || size > |m| - offset {
        return None;
      }
      offset := offset + size;
    }
  }

  lemma NameStep(m: Bytes, offset: nat)
    requires offset <= |m|
    ensures offset == |m| ==> ReadName(m[offset..]).None?
    ensures offset < |m| && m[offset] == 0 ==> ReadName(m[offset..]) == Some(([], m[offset + 1..]))
    ensures offset < |m| && m[offset] > 0 ==>
              if m[offset] > 63 || m[offset] > |m| - offset - 1 then ReadName(m[offset..]).None?
              else
                var next := ReadName(m[offset + 1 + m[offset]..]);
                && (ReadName(m[offset..]).Some? <==> next.Some?)
                && (next.Some? ==> ReadName(m[offset..]).value.1 == next.value.1)
  {
    if offset < |m| {
      var s := m[offset..];
      assert s[1..] == m[offset + 1..];
      if 0 < m[offset] <= |m| - offset - 1 {
        assert s[1 + s[0]..] == m[offset + 1 + m[offset]..];
      }
    }
  }

  /** Reading `n` questions from `a` and `k` from `b` both fail or end at the same place. */
  predicate SameEnd(m: Bytes, a: nat, n: nat, b: nat, k: nat)
    requires a <= |m| && b <= |m|
  {
    var x, y := ReadQuestions(m[a..], n), ReadQuestions(m[b..], k);
    (x.Some? <==> y.Some?) && (x.Some? ==> x.value.1 == y.value.1)
  }

  lemma QuestionStep(m: Bytes, offset: nat, left: nat, mid: Option<nat>)
    requires offset <= |m| && left > 0
    requires mid.Some? <==> ReadName(m[offset..]).Some?
    requires mid.Some? ==> mid.value <= |m| && ReadName(m[offset..]).value.1 == m[mid.value..]
    ensures mid.None? || |m| - mid.value < 4 ==> ReadQuestions(m[offset..], left).None?
    ensures mid.Some? && |m| - mid.value >= 4 ==> SameEnd(m, offset, left, mid.value + 4, left - 1)
  {
    hide ReadName;
    if mid.Some? && |m| - mid.value >= 4 {
      assert m[mid.value..][4..] == m[mid.value + 4..];
    }
  }

  method QuestionEnd(m: Bytes) returns (end: nat)
    ensures end == End(m)
  {
    hide ReadQuestions, ReadName;
    if |m| < HEADER {
      return 0;
    }
    var count: nat := (m[4] as int) * 256 + m[5];
    if count == 0 {
      return 0;
    }
    var offset: nat := HEADER;
    var question := 0;
    while question < count
      invariant question <= count && offset <= |m|
      invariant SameEnd(m, HEADER, count, offset, count - question)
    {
      var mid := NameEnd(m, offset);
      QuestionStep(m, offset, count - question, mid);
      if mid.None? || |m| - mid.value < 4 {
        return 0;
      }
      offset := mid.value + 4;
      question := question + 1;
    }
    AllRead(m, offset);
    return offset;
  }

  lemma AllRead(m: Bytes, offset: nat)
    requires offset <= |m|
    ensures ReadQuestions(m[offset..], 0) == Some(([], m[offset..]))
  {
  }

  // ----- accepting a response

  /** A response belongs to a query: the same identifier and the same questions. */
  predicate Acceptable(query: Bytes, response: Bytes) {
    && Questions(query).Some? && Questions(response) == Questions(query)
    && |query| >= HEADER && |response| >= HEADER && response[..2] == query[..2]
  }

  /** The first thing that is wrong with a response, in the order of the checks. */
  function Judged(query: Bytes, response: Bytes): Verdict {
    if |query| < HEADER || Questions(query).None? then MalformedQuery
    else if |response| < HEADER then TooShort
    else if response[..2] != query[..2] then WrongId
    else if Questions(response).None? then MalformedQuestion
    else if Questions(response) != Questions(query) then OtherQuestion
    else Accepted
  }

  method ValidateResponse(query: Bytes, response: Bytes) returns (v: Verdict)
    ensures v == Judged(query, response)
    ensures v.Accepted? <==> Acceptable(query, response)
  {
    hide Questions, End;
    var queryEnd := QuestionEnd(query);
    EndMeans(query);
    EndMeans(response);
    if queryEnd == 0 {
      return MalformedQuery;
    }
    ShortHasNone(response);
    if |response| < HEADER {
      return TooShort;
    }
    if query[0] != response[0] || query[1] != response[1] {
      return WrongId;
    }
    var responseEnd := QuestionEnd(response);
    if responseEnd == 0 {
      return MalformedQuestion;
    }
    SameQuestions(query, response);
    if queryEnd - HEADER != responseEnd - HEADER || query[HEADER..queryEnd] != response[HEADER..responseEnd] {
      return OtherQuestion;
    }
    return Accepted;
  }

  /** What each verdict means, by the questions and the identifiers. */
  lemma JudgedMeans(query: Bytes, response: Bytes)
    ensures var v, asked, answered := Judged(query, response), Questions(query), Questions(response);
            var named := |query| >= 12 && |response| >= 12 && response[0] == query[0] && response[1] == query[1];
            && (v.MalformedQuery? <==> asked.None?)
            && (v.TooShort? <==> asked.Some? && |response| < 12)
            && (v.WrongId? <==> asked.Some? && |response| >= 12 && !named)
            && (v.MalformedQuestion? <==> asked.Some? && named && answered.None?)
            && (v.OtherQuestion? <==> asked.Some? && named && answered.Some? && answered != asked)
            && (v.Accepted? <==> asked.Some? && named && answered == asked)
  {
    hide Questions;
    ShortHasNone(query);
    if |query| >= 12 && |response| >= 12 {
      assert response[..2] == query[..2] <==> response[0] == query[0] && response[1] == query[1];
    }
  }

  lemma ShortHasNone(m: Bytes)
    ensures |m| < HEADER ==> Questions(m).None?
  {
  }

  /** Comparing the bytes of the questions compares the questions and their number. */
  lemma SameQuestions(a: Bytes, b: Bytes)
    requires Questions(a).Some? && Questions(b).Some?
    ensures HEADER <= End(a) <= |a| && HEADER <= End(b) <= |b|
    ensures a[HEADER..End(a)] == b[HEADER..End(b)] <==> Questions(a) == Questions(b)
    ensures Questions(a) == Questions(b) ==> Count(a) == Count(b)
  {
    hide Questions, End, Wire, AllWellFormed;
    EndMeans(a);
    EndMeans(b);
    if a[HEADER..End(a)] == b[HEADER..End(b)] {
      WireDetermines(Questions(a).value, Questions(b).value);
    }
  }

  // ----- the failure response

  function WithTopBit(b: Byte): Byte {
    if b < 128 then b + 128 else b
  }

  /** The response code of server failure in the low four bits; the high four are kept. */
  function WithFailureCode(b: Byte): Byte {
    b / 16 * 16 + 2
  }

  /** The query's header and questions, as a response that says the server failed. */
  function Failure(query: Bytes): Bytes
    requires |query| >= HEADER
  {
    var end := if HEADER <= End(query) <= |query| then End(query) else HEADER;
    query[..2] + [WithTopBit(query[2]), WithFailureCode(query[3])] + query[4..6] + [0, 0, 0, 0, 0, 0] + query[HEADER..end]
  }

  method Servfail(query: Bytes) returns (response: Option<array<Byte>>)
    ensures response.None? <==> |query| < HEADER
    ensures response.Some? ==> fresh(response.value) && response.value[..] == Failure(query)
  {
    hide End;
    if |query| < HEADER {
      return None;
    }
    var end := QuestionEnd(query);
    EndInside(query);
    if end == 0 {
      end := HEADER;
    }
    var copy := new Byte[end](i requires 0 <= i < end => query[i]);
    copy[2] := WithTopBit(copy[2]);
    copy[3] := WithFailureCode(copy[3]);
    forall i | 6 <= i < 12 {
      copy[i] := 0;
    }
    FailureAt(query, copy[..]);
    return Some(copy);
  }

  /** The failure response, byte by byte. */
  lemma FailureAt(query: Bytes, copy: Bytes)
    requires |query| >= HEADER && |copy| == (if HEADER <= End(query) <= |query| then End(query) else HEADER)
    requires copy[2] == WithTopBit(query[2]) && copy[3] == WithFailureCode(query[3])
    requires forall i :: 6 <= i < 12 ==> copy[i] == 0
    requires forall i :: 0 <= i < |copy| && (i < 2 || 4 <= i < 6 || 12 <= i) ==> copy[i] == query[i]
    ensures copy == Failure(query)
  {
    hide End;
    var f := Failure(query);
    assert |f| == |copy|;
    assert f[0] == copy[0] && f[1] == copy[1] && f[4] == copy[4] && f[5] == copy[5];
    assert forall i :: 12 <= i < |f| ==> f[i] == query[i];
  }

  lemma EndInside(m: Bytes)
    ensures End(m) == 0 || HEADER < End(m) <= |m|
  {
    hide End, Questions;
    EndMeans(m);
  }

  /** The questions do not depend on the first four bytes, nor on bytes 6 to 11, nor on what follows them. */
  lemma QuestionsDependOn(a: Bytes, b: Bytes)
    requires Questions(a).Some? && |a| >= HEADER && |b| >= HEADER && a[4..6] == b[4..6]
    requires HEADER <= End(a) <= |a| && End(a) <= |b| && a[HEADER..End(a)] == b[HEADER..End(a)]
    ensures Questions(b) == Questions(a)
  {
    hide ReadQuestions, Wire, AllWellFormed, End;
    EndMeans(a);
    assert a[4] == a[4..6][0] && a[5] == a[4..6][1] && b[4] == b[4..6][0] && b[5] == b[4..6][1];
    var qs := Questions(a).value;
    assert b[HEADER..] == Wire(qs) + b[End(a)..];
    QuestionsRead(qs, b[End(a)..]);
  }

  /** The proxy's own failure response is one that it would accept from an upstream for that query. */
  lemma FailureAcceptable(query: Bytes)
    requires Questions(query).Some?
    ensures |query| >= HEADER && Acceptable(query, Failure(query)) && |Failure(query)| == End(query)
  {
    hide End, Questions;
    EndMeans(query);
    EndInside(query);
    FailureLayout(query);
    QuestionsDependOn(query, Failure(query));
  }

  /** Byte by byte: a response with code 2 and empty answer sections, with the query's identifier, flags and questions. */
  lemma FailureLayout(query: Bytes)
    requires |query| >= HEADER && HEADER <= End(query) <= |query|
    ensures var f := Failure(query);
            && |f| == End(query) && f[..2] == query[..2] && f[4..6] == query[4..6]
            && f[2] >= 128 && f[2] % 128 == query[2] % 128 && f[3] % 16 == 2 && f[3] / 16 == query[3] / 16
            && f[6..12] == [0, 0, 0, 0, 0, 0] && f[HEADER..] == query[HEADER..End(query)]
  {
    hide End;
  }

  // ----- DNS over QUIC (section 4.2.1 of RFC 9250: the identifier is 0 on the wire)

  function Zeroed(query: Bytes): Bytes
    requires |query| >= 2
  {
    [0, 0] + query[2..]
  }

  /** A response under the query's own identifier. */
  function Restored(query: Bytes, response: Bytes): Bytes
    requires |query| >= 2 && |response| >= 2
  {
    query[..2] + response[2..]
  }

  /** What was accepted for the query with a zero identifier is acceptable for the query once its identifier is back. */
  lemma RestoredAcceptable(query: Bytes, response: Bytes)
    requires |query| >= HEADER && Acceptable(Zeroed(query), response)
    ensures Acceptable(query, Restored(query, response))
    ensures Questions(Restored(query, response)) == Questions(response)
  {
    hide Questions, Count;
    IdIrrelevant(Zeroed(query), query);
    IdIrrelevant(response, Restored(query, response));
  }

  lemma IdIrrelevant(a: Bytes, b: Bytes)
    requires |a| >= HEADER && |b| >= HEADER && a[2..] == b[2..]
    ensures Questions(a) == Questions(b)
  {
    hide ReadQuestions;
    assert a[4] == a[2..][2] && b[4] == b[2..][2] && a[5] == a[2..][3] && b[5] == b[2..][3];
    assert a[HEADER..] == a[2..][10..] && b[HEADER..] == b[2..][10..];
  }

  /** A message behind its length in two bytes. */
  function Framed(m: Bytes): Bytes
    requires |m| <= MAX_MESSAGE
  {
    [|m| / 256, |m| % 256] + m
  }

  /** The message in a stream that holds its length in two bytes and then exactly that much. */
  function Unframed(s: Bytes): Option<Bytes> {
    if |s| >= 2 && (s[0] as int) * 256 + s[1] == |s| - 2 then Some(s[2..]) else None
  }

  lemma FrameUndone(m: Bytes)
    requires |m| <= MAX_MESSAGE
    ensures Unframed(Framed(m)) == Some(m)
  {
    assert Framed(m)[2..] == m;
  }

  method QuicRequest(query: Bytes) returns (request: array<Byte>)
    requires HEADER <= |query| <= MAX_MESSAGE
    ensures fresh(request) && request[..] == Framed(Zeroed(query))
  {
    request := new Byte[|query| + 2](_ => 0);
    request[0] := |query| / 256;
    request[1] := |query| % 256;
    forall i | 0 <= i < |query| {
      request[i + 2] := query[i];
    }
    request[2] := 0;
    request[3] := 0;
    assert request[4..] == query[2..];
    assert request[..] == request[..4] + request[4..];
  }

  /** How the exchange ends: a stream cut short is a failed read, one that goes on is a malformed response. */
  function QuicStatus(query: Bytes, stream: Option<Bytes>): Status
    requires |query| >= 2
  {
    if stream.None? || |stream.value| < 2 then Io
    else
      var size := (stream.value[0] as int) * 256 + stream.value[1];
      if size < HEADER then Parse
      else if |stream.value| - 2 < size then Io
      else if |stream.value| - 2 > size then Parse
      else StatusOf(Judged(Zeroed(query), stream.value[2..]))
  }

  /** The exchange, where `stream` is all that the upstream sends before it closes, if it can be reached. */
  method QuicExchange(query: Bytes, stream: Option<Bytes>) returns (status: Status, response: Option<Bytes>)
    ensures status.Ok? <==>
              && 12 <= |query| <= 65535 && stream.Some? && Unframed(stream.value).Some?
              && Acceptable(Zeroed(query), Unframed(stream.value).value)
    ensures status.Ok? ==> |Unframed(stream.value).value| >= 2 && response == Some(Restored(query, Unframed(stream.value).value))
    ensures status.Ok? ==> response.Some? && Acceptable(query, response.value)
    ensures !status.Ok? ==> response.None?
    ensures 12 <= |query| <= 65535 ==> status == QuicStatus(query, stream)
  {
    hide Acceptable, Questions, Judged;
    if |query| < HEADER || |query| > MAX_MESSAGE {
      return InvalidArgument, None;
    }
    var request := QuicRequest(query);
    if stream.None? || |stream.value| < 2 {
      return Io, None;
    }
    var size: nat := (stream.value[0] as int) * 256 + stream.value[1];
    if size < HEADER {
      ShortUnacceptable(Zeroed(query), stream.value[2..]);
      return Parse, None;
    }
    if |stream.value| - 2 < size {
      return Io, None;
    }
    if |stream.value| - 2 > size {
      return Parse, None;
    }
    var message := new Byte[size](i requires 0 <= i < size => stream.value[i + 2]);
    assert message[..] == stream.value[2..];
    assert request[2..] == Zeroed(query);
    var v := ValidateResponse(request[2..], message[..]);
    if !v.Accepted? {
      return StatusOf(v), None;
    }
    ghost var m := message[..];
    message[0] := query[0];
    message[1] := query[1];
    assert message[2..] == m[2..];
    assert message[..] == query[..2] + message[2..];
    RestoredAcceptable(query, m);
    return Ok, Some(message[..]);
  }

  /** A stream that ends early is a failed read; one whose length or message is wrong is a malformed response. */
  lemma QuicStatusMeans(query: Bytes, stream: Option<Bytes>)
    requires |query| >= 12
    ensures var status := QuicStatus(query, stream);
            && (stream.None? || |stream.value| < 2 ==> status.Io?)
            && (stream.Some? && |stream.value| >= 2 ==>
                  var announced, sent := (stream.value[0] as int) * 256 + stream.value[1], |stream.value| - 2;
                  && (status.Io? <==> 12 <= announced && sent < announced)
                  && (announced < 12 || sent > announced ==> status.Parse?)
                  && (status.Ok? <==> announced == sent && Acceptable(Zeroed(query), stream.value[2..])))
  {
    hide Questions, Judged, Zeroed;
    if stream.Some? && |stream.value| >= 2 {
      JudgedMeans(Zeroed(query), stream.value[2..]);
      AcceptableMeans(Zeroed(query), stream.value[2..]);
      ShortUnacceptable(Zeroed(query), stream.value[2..]);
    }
  }

  lemma AcceptableMeans(query: Bytes, response: Bytes)
    ensures Acceptable(query, response) <==> Judged(query, response).Accepted?
  {
    hide Questions;
    ShortHasNone(query);
  }

  function StatusOf(v: Verdict): Status {
    match v
    case Accepted => Ok
    case MalformedQuery => InvalidArgument
    case _ => Parse
  }

  lemma ShortUnacceptable(query: Bytes, m: Bytes)
    ensures |m| < HEADER ==> !Acceptable(query, m)
  {
  }

  // ----- trying the upstreams in turn

  /** What an upstream will do: send a message (DNS over TLS or HTTPS) or a QUIC stream, or fail to answer. */
  datatype Upstream = Direct(reply: Option<Bytes>) | Quic(stream: Option<Bytes>)

  /** The message that an upstream delivers for a query, with the query's identifier on it. */
  function Delivered(query: Bytes, upstream: Upstream): Option<Bytes> {
    match upstream
    case Direct(reply) => reply
    case Quic(stream) =>
      if stream.None? || Unframed(stream.value).None? || |query| < 2 || |Unframed(stream.value).value| < 2
         || Unframed(stream.value).value[..2] != [0, 0] then None
      else Some(Restored(query, Unframed(stream.value).value))
  }

  function AskStatus(query: Bytes, upstream: Upstream): Status
    requires |query| >= 2
  {
    match upstream
    case Direct(reply) => if reply.None? then Io else StatusOf(Judged(query, reply.value))
    case Quic(stream) => QuicStatus(query, stream)
  }

  /** An upstream answers: it delivers a response that belongs to the query. */
  predicate CanAnswer(query: Bytes, upstream: Upstream) {
    Delivered(query, upstream).Some? && Acceptable(query, Delivered(query, upstream).value)
  }

  /** Putting the identifier back decides nothing: a response with identifier 0 belongs to the one query just if to the other. */
  lemma QuicDelivers(query: Bytes, stream: Option<Bytes>)
    requires HEADER <= |query|
    ensures CanAnswer(query, Quic(stream)) <==>
              stream.Some? && Unframed(stream.value).Some? && Acceptable(Zeroed(query), Unframed(stream.value).value)
    ensures CanAnswer(query, Quic(stream)) ==>
              |Unframed(stream.value).value| >= 2
              && Delivered(query, Quic(stream)) == Some(Restored(query, Unframed(stream.value).value))
  {
    hide Questions, Unframed, Count;
    if stream.Some? && Unframed(stream.value).Some? {
      var m := Unframed(stream.value).value;
      if |m| >= HEADER {
        IdIrrelevant(Zeroed(query), query);
        IdIrrelevant(m, Restored(query, m));
        assert Zeroed(query)[..2] == [0, 0] && Restored(query, m)[..2] == query[..2];
      }
    }
  }

  method Ask(query: Bytes, upstream: Upstream) returns (status: Status, response: Option<Bytes>)
    requires HEADER <= |query| <= MAX_MESSAGE
    ensures status.Ok? <==> CanAnswer(query, upstream)
    ensures response == if status.Ok? then Delivered(query, upstream) else None
    ensures status == AskStatus(query, upstream)
  {
    hide Acceptable, Judged;
    match upstream
    case Direct(reply) =>
      if reply.None? {
        return Io, None;
      }
      var v := ValidateResponse(query, reply.value);
      if v.Accepted? {
        return Ok, reply;
      }
      return StatusOf(v), None;
    case Quic(stream) =>
      QuicDelivers(query, stream);
      status, response := QuicExchange(query, stream);
  }

  /** What the proxy hands back is acceptable for the query whether or not any upstream answered. */
  method Exchange(query: Bytes, upstreams: seq<Upstream>) returns (status: Status, response: Option<Bytes>, ghost asked: nat)
    requires upstreams != []
    ensures response.None? <==> |query| > 65535 || Questions(query).None?
    ensures response.None? ==> status == InvalidArgument
    ensures response.Some? ==> Acceptable(query, response.value)
    ensures response.Some? && !status.Ok? ==> response.value == Failure(query)
    ensures response.Some? && !status.Ok? ==> forall i :: 0 <= i < |upstreams| ==> !CanAnswer(query, upstreams[i])
    ensures response.Some? && !status.Ok? ==> |query| >= 2 && status == AskStatus(query, upstreams[|upstreams| - 1])
    ensures status.Ok? ==>
              && asked < |upstreams| && CanAnswer(query, upstreams[asked]) && response == Delivered(query, upstreams[asked])
              && forall i :: 0 <= i < asked ==> !CanAnswer(query, upstreams[i])
  {
    hide Acceptable, Questions, Failure, End, AskStatus, Delivered;
    asked := 0;
    EndMeans(query);
    var end := QuestionEnd(query);
    if |query| > MAX_MESSAGE || end == 0 {
      return InvalidArgument, None, 0;
    }
    status := Io;
    var index := 0;
    while index < |upstreams|
      invariant index <= |upstreams| && !status.Ok? && (index > 0 ==> status == AskStatus(query, upstreams[index - 1]))
      invariant forall i :: 0 <= i < index ==> !CanAnswer(query, upstreams[i])
    {
      var now, answer := Ask(query, upstreams[index]);
      if now.Ok? {
        return Ok, answer, index;
      }
      status := now;
      index := index + 1;
    }
    FailureAcceptable(query);
    var failure := Servfail(query);
    response := Some(failure.value[..]);
  }
}
