/**
  The question checks of the DNS proxy. A message is 12 header bytes and then, without compression, as many questions as
  the header counts (section 4.1 of RFC 1035).
 */
module Dns {
  import opened Text
  import opened Utf8

  const HEADER := 12
  const MAX_MESSAGE := 65535

  type Bytes = seq<Byte>

  /** A question: the labels of its name, and its four bytes of type and class. */
  datatype Question = Question(labels: seq<Bytes>, kind: Bytes)

  // ----- the wire form of section 4.1.2 of RFC 1035

  predicate IsLabel(part: Bytes) {
    1 <= |part| <= 63
  }

  predicate WellFormed(q: Question) {
    |q.kind| == 4 && forall i :: 0 <= i < |q.labels| ==> IsLabel(q.labels[i])
  }

  function NameText(labels: seq<Bytes>): Bytes
    requires forall i :: 0 <= i < |labels| ==> IsLabel(labels[i])
  {
    if labels == [] then [0]
    else
      assert IsLabel(labels[0]);
      var size: Byte := |labels[0]|;
      [size] + labels[0] + NameText(labels[1..])
  }

  predicate AllWellFormed(qs: seq<Question>) {
    forall i :: 0 <= i < |qs| ==> WellFormed(qs[i])
  }

  /** Questions, one after the other. */
  function Wire(qs: seq<Question>): Bytes
    requires AllWellFormed(qs)
  {
    if qs == [] then [] else NameText(qs[0].labels) + qs[0].kind + Wire(qs[1..])
  }

  // ----- reading it

  function ReadName(s: Bytes): Option<(seq<Bytes>, Bytes)> {
    if s == [] then None
    else if s[0] == 0 then Some(([], s[1..]))
    else if s[0] > 63 || s[0] > |s| - 1 then None
    else
      match ReadName(s[1 + s[0]..])
      case None => None
      case Some((labels, rest)) => Some(([s[1..1 + s[0]]] + labels, rest))
  }

  function ReadQuestions(s: Bytes, count: nat): Option<(seq<Question>, Bytes)>
    decreases count
  {
    if count == 0 then Some(([], s))
    else
      match ReadName(s)
      case None => None
      case Some((labels, rest)) =>
        if |rest| < 4 then None
        else
          match ReadQuestions(rest[4..], count - 1)
          case None => None
          case Some((qs, after)) => Some(([Question(labels, rest[..4])] + qs, after))
  }

  function Count(m: Bytes): nat
    requires |m| >= HEADER
  {
    (m[4] as int) * 256 + m[5]
  }

  /** The count is in the third pair of bytes, the most significant first. */
  lemma CountSpelled(m: Bytes, n: nat)
    requires |m| >= HEADER && n < 65536 && m[4] == n / 256 && m[5] == n % 256
    ensures Count(m) == n
  {
  }

  /** The questions that a message's header promises, when they are all there. */
  function Questions(m: Bytes): Option<seq<Question>> {
    if |m| < HEADER || Count(m) == 0 then None
    else
      match ReadQuestions(m[HEADER..], Count(m))
      case None => None
      case Some((qs, _)) => Some(qs)
  }

  // ----- the wire form determines the questions

  lemma {:induction false} NameReads(labels: seq<Bytes>, rest: Bytes)
    requires forall i :: 0 <= i < |labels| ==> IsLabel(labels[i])
    ensures ReadName(NameText(labels) + rest) == Some((labels, rest))
  {
    var s := NameText(labels) + rest;
    if labels == [] {
      assert s[1..] == rest;
    } else {
      var n := |labels[0]|;
      assert s == [n] + (labels[0] + (NameText(labels[1..]) + rest));
      assert s[1..1 + n] == labels[0];
      assert s[1 + n..] == NameText(labels[1..]) + rest;
      NameReads(labels[1..], rest);
      assert [labels[0]] + labels[1..] == labels;
    }
  }

  lemma {:induction false} NameWrites(s: Bytes)
    requires ReadName(s).Some?
    ensures var (labels, rest) := ReadName(s).value;
            (forall i :: 0 <= i < |labels| ==> IsLabel(labels[i])) && s == NameText(labels) + rest
  {
    if s[0] != 0 {
      NameWrites(s[1 + s[0]..]);
      var (labels, rest) := ReadName(s).value;
      assert labels[1..] == ReadName(s[1 + s[0]..]).value.0;
      assert s == [s[0]] + s[1..1 + s[0]] + s[1 + s[0]..];
    }
  }

  lemma {:induction false} QuestionsRead(qs: seq<Question>, rest: Bytes)
    requires AllWellFormed(qs)
    ensures ReadQuestions(Wire(qs) + rest, |qs|) == Some((qs, rest))
  {
    if qs == [] {
      assert Wire(qs) + rest == rest;
    } else {
      hide ReadName, NameText;
      var tail := qs[0].kind + (Wire(qs[1..]) + rest);
      assert Wire(qs) + rest == NameText(qs[0].labels) + tail;
      NameReads(qs[0].labels, tail);
      assert tail[..4] == qs[0].kind && tail[4..] == Wire(qs[1..]) + rest;
      QuestionsRead(qs[1..], rest);
      assert [Question(qs[0].labels, tail[..4])] + qs[1..] == qs;
    }
  }

  lemma NoWire()
    ensures AllWellFormed([]) && Wire([]) == []
  {
  }

  lemma WireCons(q: Question, qs: seq<Question>)
    requires WellFormed(q) && AllWellFormed(qs)
    ensures AllWellFormed([q] + qs) && Wire([q] + qs) == NameText(q.labels) + q.kind + Wire(qs)
  {
    hide NameText;
    assert ([q] + qs)[1..] == qs;
  }

  lemma {:induction false} QuestionsWritten(s: Bytes, count: nat)
    requires ReadQuestions(s, count).Some?
    ensures var (qs, rest) := ReadQuestions(s, count).value;
            |qs| == count && AllWellFormed(qs) && s == Wire(qs) + rest
    decreases count
  {
    hide ReadName, NameText, Wire, AllWellFormed;
    if count == 0 {
      assert AllWellFormed([]) && Wire([]) == [] by {
        NoWire();
      }
    } else {
      NameWrites(s);
      var (labels, mid) := ReadName(s).value;
      QuestionsWritten(mid[4..], count - 1);
      var (qs, rest) := ReadQuestions(mid[4..], count - 1).value;
      WireCons(Question(labels, mid[..4]), qs);
      assert mid == mid[..4] + mid[4..];
    }
  }

  lemma WireHead(qs: seq<Question>)
    requires AllWellFormed(qs) && qs != []
    ensures ReadName(Wire(qs)) == Some((qs[0].labels, qs[0].kind + Wire(qs[1..]))) && |qs[0].kind| == 4
    ensures AllWellFormed(qs[1..]) && Wire(qs) != []
  {
    hide ReadName, NameText;
    var tail := qs[0].kind + Wire(qs[1..]);
    assert Wire(qs) == NameText(qs[0].labels) + tail;
    NameReads(qs[0].labels, tail);
    assert |tail| >= 4;
  }

  /** Different lists of questions, even of different lengths, have different wire forms. */
  lemma {:induction false} WireDetermines(a: seq<Question>, b: seq<Question>)
    requires AllWellFormed(a) && AllWellFormed(b) && Wire(a) == Wire(b)
    ensures a == b
  {
    hide ReadName, NameText, Wire, AllWellFormed;
    NoWire();
    if a != [] && b != [] {
      WireHead(a);
      WireHead(b);
      SameParts(a[0].kind, Wire(a[1..]), b[0].kind, Wire(b[1..]));
      WireDetermines(a[1..], b[1..]);
      assert a == [a[0]] + a[1..] && b == [b[0]] + b[1..];
    } else if a != [] {
      WireHead(a);
    } else if b != [] {
      WireHead(b);
    }
  }

  lemma SameParts(a: Bytes, b: Bytes, c: Bytes, d: Bytes)
    requires |a| == |c| && a + b == c + d
    ensures a == c && b == d
  {
    assert a == (a + b)[..|a|] && c == (c + d)[..|c|];
    assert b == (a + b)[|a|..] && d == (c + d)[|c|..];
  }
}
