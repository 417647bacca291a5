/** Rewriting a message: its header list, and replacing text throughout its body. */
module Rewrite {
  import opened Text
  import opened Utf8
  import opened Arithmetic

  type Bytes = seq<Byte>

  datatype Header = Header(name: string, value: string)

  // ----- headers

  predicate Named(h: Header, name: string) {
    SameIgnoringCase(h.name, name)
  }

  /** The headers of other names, in order. */
  function Without(hs: seq<Header>, name: string): seq<Header> {
    if hs == [] then []
    else
      var h := hs[|hs| - 1];
      Without(hs[..|hs| - 1], name) + if Named(h, name) then [] else [h]
  }

  /** The headers of that name, in order. */
  function Only(hs: seq<Header>, name: string): seq<Header> {
    if hs == [] then []
    else
      var h := hs[|hs| - 1];
      Only(hs[..|hs| - 1], name) + if Named(h, name) then [h] else []
  }

  function Set(hs: seq<Header>, name: string, value: string): seq<Header> {
    Without(hs, name) + if name == "" then [] else [Header(name, value)]
  }

  lemma {:induction false} WithoutHasNone(hs: seq<Header>, name: string)
    ensures Only(Without(hs, name), name) == [] && Without(Without(hs, name), name) == Without(hs, name)
  {
    hide SameIgnoringCase;
    if hs != [] {
      var pre, h := hs[..|hs| - 1], hs[|hs| - 1];
      WithoutHasNone(pre, name);
      var kept := Without(pre, name);
      if Named(h, name) {
        assert Without(hs, name) == kept;
      } else {
        assert (kept + [h])[..|kept|] == kept;
        assert Without(hs, name) == kept + [h];
        assert Only(kept + [h], name) == Only(kept, name) + [];
      }
    }
  }

  lemma WithoutNone(name: string)
    ensures Without([], name) == []
  {
  }

  lemma WithoutNext(hs: seq<Header>, i: nat, name: string)
    requires i < |hs|
    ensures Without(hs[..i + 1], name) == Without(hs[..i], name) + if Named(hs[i], name) then [] else [hs[i]]
  {
    hide Named;
    assert hs[..i + 1][..i] == hs[..i];
  }

  lemma SameName(name: string)
    ensures SameIgnoringCase(name, name)
  {
  }

  /** Setting a header leaves exactly that one under its name, and every other header where it was. */
  lemma SetMeans(hs: seq<Header>, name: string, value: string)
    requires name != ""
    ensures Only(Set(hs, name, value), name) == [Header(name, value)]
    ensures Without(Set(hs, name, value), name) == Without(hs, name)
  {
    hide SameIgnoringCase, Without, Only;
    var kept, h := Without(hs, name), Header(name, value);
    WithoutHasNone(hs, name);
    SameName(name);
    LastOne(kept, h, name);
  }

  lemma LastOne(hs: seq<Header>, h: Header, name: string)
    requires Named(h, name)
    ensures Only(hs + [h], name) == Only(hs, name) + [h] && Without(hs + [h], name) == Without(hs, name)
  {
    assert (hs + [h])[..|hs|] == hs;
  }

  // ----- replacing

  predicate At(s: Bytes, i: nat, needle: Bytes) {
    i + |needle| <= |s| && s[i..i + |needle|] == needle
  }

  /** Every leftmost, non-overlapping occurrence replaced. */
  function Replaced(s: Bytes, needle: Bytes, put: Bytes): Bytes
    requires needle != []
    decreases |s|
  {
    if s == [] then []
    else if At(s, 0, needle) then put + Replaced(s[|needle|..], needle, put)
    else [s[0]] + Replaced(s[1..], needle, put)
  }

  function Occurrences(s: Bytes, needle: Bytes): nat
    requires needle != []
    decreases |s|
  {
    if s == [] then 0
    else if At(s, 0, needle) then 1 + Occurrences(s[|needle|..], needle)
    else Occurrences(s[1..], needle)
  }

  /** The text cut at each occurrence. */
  function Pieces(s: Bytes, needle: Bytes): (parts: seq<Bytes>)
    requires needle != []
    ensures |parts| > 0
    decreases |s|
  {
    if s == [] then [[]]
    else if At(s, 0, needle) then [[]] + Pieces(s[|needle|..], needle)
    else
      var rest := Pieces(s[1..], needle);
      [[s[0]] + rest[0]] + rest[1..]
  }

  function Joined(parts: seq<Bytes>, glue: Bytes): Bytes
    requires |parts| > 0
  {
    if |parts| == 1 then parts[0] else parts[0] + glue + Joined(parts[1..], glue)
  }

  lemma JoinedFirst(b: Byte, parts: seq<Bytes>, glue: Bytes)
    requires |parts| > 0
    ensures Joined([[b] + parts[0]] + parts[1..], glue) == [b] + Joined(parts, glue)
  {
    var all := [[b] + parts[0]] + parts[1..];
    if |parts| > 1 {
      assert all[1..] == parts[1..];
      assert [b] + parts[0] + glue + Joined(parts[1..], glue) == [b] + (parts[0] + glue + Joined(parts[1..], glue));
    }
  }

  /** Replacing is gluing the same pieces with the replacement; gluing them with the needle gives the text back. */
  lemma {:induction false} ReplacedIsJoined(s: Bytes, needle: Bytes, put: Bytes)
    requires needle != []
    ensures Joined(Pieces(s, needle), put) == Replaced(s, needle, put)
    ensures Joined(Pieces(s, needle), needle) == s
    ensures |Pieces(s, needle)| == Occurrences(s, needle) + 1
    decreases |s|
  {
    hide Joined;
    if s == [] {
      JoinedOne([], put);
      JoinedOne([], needle);
    } else if At(s, 0, needle) {
      var rest := s[|needle|..];
      ReplacedIsJoined(rest, needle, put);
      JoinedNext(Pieces(rest, needle), put);
      JoinedNext(Pieces(rest, needle), needle);
      assert s == needle + rest;
    } else {
      ReplacedIsJoined(s[1..], needle, put);
      JoinedFirst(s[0], Pieces(s[1..], needle), put);
      JoinedFirst(s[0], Pieces(s[1..], needle), needle);
      assert s == [s[0]] + s[1..];
    }
  }

  lemma JoinedOne(part: Bytes, glue: Bytes)
    ensures Joined([part], glue) == part
  {
  }

  lemma JoinedNext(parts: seq<Bytes>, glue: Bytes)
    requires |parts| > 0
    ensures Joined([[]] + parts, glue) == glue + Joined(parts, glue)
  {
    assert ([[]] + parts)[1..] == parts;
    assert [] + glue == glue;
  }

  /** The needle starts nowhere in the first `n` places. */
  predicate NotBefore(s: Bytes, n: nat, needle: Bytes) {
    forall i :: 0 <= i < n ==> !At(s, i, needle)
  }

  /** No piece hides an occurrence: in a piece with the needle after it the needle starts nowhere earlier. */
  predicate Leftmost(parts: seq<Bytes>, needle: Bytes)
    requires |parts| > 0
  {
    && (forall k :: 0 <= k < |parts| - 1 ==> NotBefore(parts[k] + needle, |parts[k]|, needle))
    && var last := parts[|parts| - 1]; NotBefore(last, |last| + 1, needle)
  }

  lemma {:induction false} PiecesAreLeftmost(s: Bytes, needle: Bytes)
    requires needle != []
    ensures Leftmost(Pieces(s, needle), needle)
    decreases |s|
  {
    hide Joined, At;
    if s == [] {
      EmptyPiece(needle);
    } else if At(s, 0, needle) {
      AtFits(s, 0, needle);
      var rest := s[|needle|..];
      PiecesAreLeftmost(rest, needle);
      var parts := [[]] + Pieces(rest, needle);
      assert Pieces(s, needle) == parts;
      assert forall k :: 0 < k < |parts| ==> parts[k] == Pieces(rest, needle)[k - 1];
    } else {
      var rest := Pieces(s[1..], needle);
      PiecesAreLeftmost(s[1..], needle);
      FirstPiece(s[1..], needle);
      LongerPiece(s, rest, needle);
    }
  }

  lemma EmptyPiece(needle: Bytes)
    requires needle != []
    ensures Leftmost([[]], needle)
  {
  }

  lemma AtFits(s: Bytes, i: nat, needle: Bytes)
    requires At(s, i, needle)
    ensures i + |needle| <= |s|
  {
  }

  /** The first piece and the needle start the text; a single piece is all of it. */
  lemma FirstPiece(s: Bytes, needle: Bytes)
    requires needle != []
    ensures var parts := Pieces(s, needle); if |parts| == 1 then s == parts[0] else parts[0] + needle <= s
  {
    hide Pieces;
    ReplacedIsJoined(s, needle, needle);
  }

  lemma LongerPiece(s: Bytes, rest: seq<Bytes>, needle: Bytes)
    requires needle != [] && |s| > 0 && |rest| > 0 && !At(s, 0, needle) && Leftmost(rest, needle)
    requires if |rest| == 1 then s[1..] == rest[0] else rest[0] + needle <= s[1..]
    ensures Leftmost([[s[0]] + rest[0]] + rest[1..], needle)
  {
    var parts := [[s[0]] + rest[0]] + rest[1..];
    assert forall k :: 0 < k < |parts| ==> parts[k] == rest[k];
    if |rest| == 1 {
      assert parts[0] == s;
      Shifted(s, |s| + 1, needle);
    } else {
      var whole := parts[0] + needle;
      assert whole == [s[0]] + (rest[0] + needle);
      assert whole <= s && whole[1..] == rest[0] + needle;
      assert !At(whole, 0, needle);
      Shifted(whole, |parts[0]|, needle);
    }
  }

  lemma Shifted(s: Bytes, n: nat, needle: Bytes)
    requires |s| > 0 && n > 0 && !At(s, 0, needle) && NotBefore(s[1..], n - 1, needle)
    ensures NotBefore(s, n, needle)
  {
    forall i | 0 <= i < n
      ensures !At(s, i, needle)
    {
      if i > 0 {
        Tail(s, i, needle);
      }
    }
  }

  lemma Tail(s: Bytes, i: nat, needle: Bytes)
    requires i > 0 && |s| > 0
    ensures At(s, i, needle) <==> At(s[1..], i - 1, needle)
  {
    if i + |needle| <= |s| {
      assert s[i..i + |needle|] == s[1..][i - 1..i - 1 + |needle|];
    }
  }

  // ----- lengths, and suffixes for the loops

  lemma OneMore(n: nat, extra: int)
    ensures (1 + n) * extra == extra + n * extra
  {
  }

  lemma {:induction false} ReplacedLength(s: Bytes, needle: Bytes, put: Bytes)
    requires needle != []
    ensures |Replaced(s, needle, put)| == |s| + Occurrences(s, needle) * (|put| - |needle|)
    decreases |s|
  {
    hide At;
    if s != [] {
      if At(s, 0, needle) {
        AtFits(s, 0, needle);
        ReplacedLength(s[|needle|..], needle, put);
        OneMore(Occurrences(s[|needle|..], needle), |put| - |needle|);
      } else {
        ReplacedLength(s[1..], needle, put);
      }
    }
  }

  lemma {:induction false} NoOccurrence(s: Bytes, needle: Bytes, put: Bytes)
    requires needle != [] && Occurrences(s, needle) == 0
    ensures Replaced(s, needle, put) == s
    decreases |s|
  {
    if s != [] {
      NoOccurrence(s[1..], needle, put);
      assert s == [s[0]] + s[1..];
    }
  }

  lemma {:induction false} TooShort(s: Bytes, needle: Bytes)
    requires needle != [] && |s| < |needle|
    ensures Occurrences(s, needle) == 0
    decreases |s|
  {
    if s != [] {
      TooShort(s[1..], needle);
    }
  }

  /** One step of either loop, at place `i` of the text. */
  lemma Step(s: Bytes, i: nat, needle: Bytes, put: Bytes)
    requires needle != [] && i < |s|
    ensures At(s, i, needle) ==>
              && i + |needle| <= |s|
              && Occurrences(s[i..], needle) == 1 + Occurrences(s[i + |needle|..], needle)
              && Replaced(s[i..], needle, put) == put + Replaced(s[i + |needle|..], needle, put)
    ensures !At(s, i, needle) ==>
              && Occurrences(s[i..], needle) == Occurrences(s[i + 1..], needle)
              && Replaced(s[i..], needle, put) == [s[i]] + Replaced(s[i + 1..], needle, put)
  {
    assert s[i..][1..] == s[i + 1..];
    assert At(s, i, needle) <==> At(s[i..], 0, needle) by {
      if i + |needle| <= |s| {
        assert s[i..][0..|needle|] == s[i..i + |needle|];
      }
    }
    if At(s, i, needle) {
      assert s[i..][|needle|..] == s[i + |needle|..];
    }
  }

  /** The division in the overflow test is exact. */
  lemma Fits(length: nat, n: nat, extra: nat)
    requires length <= SIZE_MAX && extra > 0
    ensures n > (SIZE_MAX - length) / extra <==> length + n * extra > SIZE_MAX
  {
    var room := SIZE_MAX - length;
    var q := room / extra;
    assert room == q * extra + room % extra;
    if n > q {
      AtLeastOnce(n - q, extra);
      assert n * extra == (n - q) * extra + q * extra;
    } else {
      assert q * extra == (q - n) * extra + n * extra;
      NotNegative(q - n, extra);
    }
  }

  // ----- the message

  class Message {
    var headers: array<Header>
    var count: nat
    var body: array<Byte>
    var bodySet: bool

    ghost predicate Valid()
      reads this
    {
      count <= headers.Length && body.Length <= SIZE_MAX
    }

    ghost function Headers(): seq<Header>
      requires Valid()
      reads this, headers
    {
      headers[..count]
    }

    constructor ()
      ensures Valid() && Headers() == [] && body.Length == 0 && !bodySet && fresh(headers) && fresh(body)
    {
      headers := new Header[0];
      count := 0;
      body := new Byte[0];
      bodySet := false;
    }

    /** The headers of a name are dropped and the others moved up, in place. */
    method RemoveHeader(name: string)
      requires Valid()
      modifies this`count, headers
      ensures Valid() && Headers() == Without(old(Headers()), name)
    {
      hide Named, Without;
      ghost var was := headers[..count];
      var output, index := 0, 0;
      WithoutNone(name);
      while index < count
        invariant output <= index <= count == old(count) == |was| && headers.Length == old(headers.Length)
        invariant headers[..output] == Without(was[..index], name)
        invariant forall k :: index <= k < count ==> headers[k] == was[k]
      {
        WithoutNext(was, index, name);
        ghost var kept := headers[..output];
        if !Named(headers[index], name) {
          headers[output] := headers[index];
          output := output + 1;
          assert headers[..output] == kept + [was[index]];
        }
        index := index + 1;
      }
      assert was[..count] == was;
      count := output;
    }

    method AddHeader(name: string, value: string)
      requires Valid()
      modifies this`headers, this`count
      ensures Valid() && Headers() == old(Headers()) + (if name == "" then [] else [Header(name, value)])
      ensures headers == old(headers) || fresh(headers)
    {
      if name == "" {
        return;
      }
      var next := new Header[count + 1](_ => Header(name, value));
      forall i | 0 <= i < count {
        next[i] := headers[i];
      }
      headers := next;
      count := count + 1;
    }

    method SetHeader(name: string, value: string)
      requires Valid()
      modifies this`headers, this`count, headers
      ensures Valid() && Headers() == Set(old(Headers()), name, value)
      ensures headers == old(headers) || fresh(headers)
    {
      hide Without;
      RemoveHeader(name);
      AddHeader(name, value);
    }

    /** The body is replaced, and its length announced. */
    method SetBody(bytes: Bytes)
      requires Valid() && |bytes| <= SIZE_MAX
      modifies this, headers
      ensures Valid() && body[..] == bytes && bodySet
      ensures Headers() == Set(old(Headers()), "Content-Length", Decimal(|bytes|))
      ensures Only(Headers(), "Content-Length") == [Header("Content-Length", Decimal(|bytes|))]
    {
      hide Set, Decimal;
      SetMeans(Headers(), "Content-Length", Decimal(|bytes|));
      var copy := new Byte[|bytes|](i requires 0 <= i < |bytes| => bytes[i]);
      body := copy;
      bodySet := true;
      SetHeader("Content-Length", Decimal(|bytes|));
    }

    method CountOccurrences(needle: Bytes) returns (occurrences: nat)
      requires needle != []
      ensures occurrences == Occurrences(body[..], needle)
    {
      hide Occurrences, At, Replaced;
      ghost var s := body[..];
      occurrences := 0;
      var index := 0;
      assert s[0..] == s;
      while index + |needle| <= body.Length
        invariant index <= body.Length && occurrences + Occurrences(s[index..], needle) == Occurrences(s, needle)
        decreases body.Length - index
      {
        Step(s, index, needle, []);
        AtSlice(s, index, needle);
        if body[index..index + |needle|] == needle {
          occurrences := occurrences + 1;
          index := index + |needle|;
        } else {
          index := index + 1;
        }
      }
      TooShort(s[index..], needle);
    }

    /** The new body is written into a buffer of exactly the counted length. */
    method WriteReplaced(needle: Bytes, replacement: Bytes, length: nat) returns (next: array<Byte>)
      requires needle != [] && length == |Replaced(body[..], needle, replacement)|
      ensures fresh(next) && next[..] == Replaced(body[..], needle, replacement)
    {
      hide At, Replaced;
      ghost var s := body[..];
      ghost var goal := Replaced(s, needle, replacement);
      next := new Byte[length](_ => 0);
      var input: nat, output: nat := 0, 0;
      assert s[0..] == s;
      while input < body.Length
        invariant input <= body.Length && output <= length && next.Length == length
        invariant next[..output] + Replaced(s[input..], needle, replacement) == goal
      {
        Step(s, input, needle, replacement);
        AtSlice(s, input, needle);
        ghost var done := next[..output];
        if input + |needle| <= body.Length && body[input..input + |needle|] == needle {
          Regroup3(done, replacement, Replaced(s[input + |needle|..], needle, replacement));
          Copy(next, output, replacement);
          output, input := output + |replacement|, input + |needle|;
        } else {
          Regroup3(done, [s[input]], Replaced(s[input + 1..], needle, replacement));
          Copy(next, output, [body[input]]);
          output, input := output + 1, input + 1;
        }
      }
      NothingLeft(s, needle, replacement);
    }

    /** Replacing fails only when the new length is not a `size_t`, and changes nothing when the needle does not occur. */
    method ReplaceBody(needle: Bytes, replacement: Bytes) returns (ok: bool)
      requires Valid() && |replacement| <= SIZE_MAX
      modifies this, headers
      ensures Valid()
      ensures needle == [] ==> ok && Unchanged(old(Headers()), old(body[..]), old(bodySet))
      ensures needle != [] ==>
                var result := Replaced(old(body[..]), needle, replacement);
                && (ok <==> |result| <= SIZE_MAX)
                && (!ok || Occurrences(old(body[..]), needle) == 0 ==> Unchanged(old(Headers()), old(body[..]), old(bodySet)))
                && (ok && Occurrences(old(body[..]), needle) > 0 ==>
                      && bodySet && body[..] == result && Headers() == Set(old(Headers()), "Content-Length", Decimal(|result|))
                      && Only(Headers(), "Content-Length") == [Header("Content-Length", Decimal(|result|))])
    {
      hide Occurrences, Replaced, Set, Only, Decimal;
      if needle == [] {
        return true;
      }
      ghost var s := body[..];
      var occurrences := CountOccurrences(needle);
      ReplacedLength(s, needle, replacement);
      if occurrences == 0 {
        NoOccurrence(s, needle, replacement);
        return true;
      }
      if |replacement| > |needle| {
        Fits(body.Length, occurrences, |replacement| - |needle|);
        if occurrences > (SIZE_MAX - body.Length) / (|replacement| - |needle|) {
          return false;
        }
      }
      NoLonger(occurrences, |replacement| - |needle|);
      var length := if |replacement| >= |needle| then body.Length + occurrences * (|replacement| - |needle|)
                    else body.Length - occurrences * (|needle| - |replacement|);
      var next := WriteReplaced(needle, replacement, length);
      SetBody(next[..]);
      return true;
    }

    ghost predicate Unchanged(hs: seq<Header>, bytes: Bytes, isSet: bool)
      requires Valid()
      reads this, headers, body
    {
      Headers() == hs && body[..] == bytes && bodySet == isSet
    }
  }

  lemma Regroup3(a: Bytes, b: Bytes, c: Bytes)
    ensures a + b + c == a + (b + c) && |a + b| <= |a + (b + c)|
  {
  }

  /** `memcpy` into the middle of a buffer. */
  method Copy(buffer: array<Byte>, at: nat, bytes: Bytes)
    requires at + |bytes| <= buffer.Length
    modifies buffer
    ensures buffer[..at + |bytes|] == old(buffer[..at]) + bytes
  {
    forall i | 0 <= i < |bytes| {
      buffer[at + i] := bytes[i];
    }
  }

  lemma AtSlice(s: Bytes, i: nat, needle: Bytes)
    ensures At(s, i, needle) <==> i + |needle| <= |s| && s[i..i + |needle|] == needle
  {
  }

  lemma NothingLeft(s: Bytes, needle: Bytes, put: Bytes)
    requires needle != []
    ensures Replaced(s[|s|..], needle, put) == []
  {
  }

  lemma NoLonger(n: nat, extra: int)
    ensures extra <= 0 ==> n * extra <= 0
  {
  }
}
