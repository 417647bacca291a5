/** The UTF-8 check of the developer capture, against RFC 3629. */
module Utf8 {

  type Byte = b: int | 0 <= b < 256

  /** A Unicode scalar value: a code point that is not a surrogate. */
  predicate IsScalar(c: int) {
    0 <= c < 0xD800 || 0xE000 <= c <= 0x10FFFF
  }

  predicate AllScalars(cs: seq<int>) {
    forall i :: 0 <= i < |cs| ==> IsScalar(cs[i])
  }

  /** The digits of a code point in base 64, the lowest at place 0; place 3 keeps all that is left. */
  function Digit(c: nat, place: nat): (d: nat)
    ensures place < 3 ==> d < 0x40
    ensures place >= 3 && c <= 0x10FFFF ==> d <= 4
  {
    if place == 0 then c % 0x40
    else if place == 1 then c / 0x40 % 0x40
    else if place == 2 then c / 0x1000 % 0x40
    else c / 0x4_0000
  }

  /** The encoding of one scalar value, section 3 of RFC 3629. */
  function Encode(c: int): (bs: seq<Byte>)
    requires IsScalar(c)
    ensures 1 <= |bs| <= 4
  {
    if c <= 0x7F then [c]
    else if c <= 0x7FF then [0xC0 + Digit(c, 1), 0x80 + Digit(c, 0)]
    else if c <= 0xFFFF then [0xE0 + Digit(c, 2), 0x80 + Digit(c, 1), 0x80 + Digit(c, 0)]
    else [0xF0 + Digit(c, 3), 0x80 + Digit(c, 2), 0x80 + Digit(c, 1), 0x80 + Digit(c, 0)]
  }

  function EncodeAll(cs: seq<int>): seq<Byte>
    requires AllScalars(cs)
  {
    if cs == [] then [] else Encode(cs[0]) + EncodeAll(cs[1..])
  }

  /** A byte string is UTF-8 when it is a concatenation of encodings of scalar values. */
  ghost predicate IsUtf8(bs: seq<Byte>) {
    exists cs :: AllScalars(cs) && EncodeAll(cs) == bs
  }

  /** The number of continuation bytes a lead byte announces; none for bytes that cannot lead. */
  function Continuations(first: Byte): (n: int)
    ensures -1 <= n <= 3
  {
    if first <= 0x7F then 0
    else if 0xC2 <= first <= 0xDF then 1
    else if 0xE0 <= first <= 0xEF then 2
    else if 0xF0 <= first <= 0xF4 then 3
    else -1
  }

  /** The payload bits of a lead byte. */
  function LeadBits(first: Byte, n: int): int {
    if n == 0 then first else if n == 1 then first % 0x20 else if n == 2 then first % 0x10 else first % 8
  }

  predicate IsContinuation(b: Byte) {
    b / 0x40 == 2
  }

  /** The payload bits of a continuation byte. */
  function Bits(b: Byte): (x: int)
    ensures 0 <= x < 0x40
    ensures IsContinuation(b) ==> b == 0x80 + x
  {
    b % 0x40
  }

  /** Folds `n` continuation bytes into a code point; none when one is not of the form 10xxxxxx. */
  function Fold(acc: int, bs: seq<Byte>): (c: int)
    ensures acc >= 0 ==> c >= -1
    decreases |bs|
  {
    if bs == [] then acc
    else if !IsContinuation(bs[0]) then -1
    else Fold(acc * 0x40 + Bits(bs[0]), bs[1..])
  }

  /** The range test that follows the continuation bytes. */
  predicate InRange(n: int, c: int) {
    && !(n == 2 && 0xD800 <= c <= 0xDFFF)
    && !(n == 3 && c > 0x10FFFF)
    && !(n == 2 && c < 0x800)
    && !(n == 3 && c < 0x1_0000)
  }

  lemma FoldUnrolled(acc: int, bs: seq<Byte>)
    requires |bs| <= 3 && forall i :: 0 <= i < |bs| ==> IsContinuation(bs[i])
    ensures |bs| == 0 ==> Fold(acc, bs) == acc
    ensures |bs| == 1 ==> Fold(acc, bs) == acc * 0x40 + Bits(bs[0])
    ensures |bs| == 2 ==> Fold(acc, bs) == acc * 0x1000 + Bits(bs[0]) * 0x40 + Bits(bs[1])
    ensures |bs| == 3 ==> Fold(acc, bs) == acc * 0x4_0000 + Bits(bs[0]) * 0x1000 + Bits(bs[1]) * 0x40 + Bits(bs[2])
    decreases |bs|
  {
    if |bs| > 0 {
      FoldUnrolled(acc * 0x40 + Bits(bs[0]), bs[1..]);
    }
  }

  lemma {:induction false} FoldNeedsContinuations(acc: int, bs: seq<Byte>, i: nat)
    requires i < |bs| && !IsContinuation(bs[i])
    ensures Fold(acc, bs) == -1
    decreases i
  {
    if i > 0 && IsContinuation(bs[0]) {
      FoldNeedsContinuations(acc * 0x40 + Bits(bs[0]), bs[1..], i - 1);
    }
  }

  /** Digits determine the number: they are recovered from a sum of digits, and sum to the number. */
  lemma Digits(a: nat, x: nat, y: nat, z: nat)
    requires x < 0x40 && y < 0x40 && z < 0x40
    ensures var c := a * 0x4_0000 + x * 0x1000 + y * 0x40 + z;
            Digit(c, 0) == z && Digit(c, 1) == y && Digit(c, 2) == x && Digit(c, 3) == a
  {
    var c := a * 0x4_0000 + x * 0x1000 + y * 0x40 + z;
    assert c / 0x40 == a * 0x1000 + x * 0x40 + y;
    assert c / 0x1000 == a * 0x40 + x;
  }

  lemma DigitSum(c: nat)
    ensures c == Digit(c, 3) * 0x4_0000 + Digit(c, 2) * 0x1000 + Digit(c, 1) * 0x40 + Digit(c, 0)
  {
    assert c / 0x40 / 0x40 == c / 0x1000;
    assert c / 0x1000 / 0x40 == c / 0x4_0000;
  }

  lemma OneByte(b0: Byte)
    requires b0 <= 0x7F
    ensures IsScalar(b0) && Encode(b0) == [b0]
  {
  }

  lemma TwoBytes(b0: Byte, b1: Byte)
    requires 0xC2 <= b0 <= 0xDF && IsContinuation(b1)
    ensures var c := b0 % 0x20 * 0x40 + Bits(b1);
            IsScalar(c) && Encode(c) == [b0, b1]
  {
    hide Digit, Bits;
    Digits(0, 0, b0 - 0xC0, Bits(b1));
  }

  lemma ThreeBytes(b0: Byte, b1: Byte, b2: Byte)
    requires 0xE0 <= b0 <= 0xEF && IsContinuation(b1) && IsContinuation(b2)
    ensures var c := b0 % 0x10 * 0x1000 + Bits(b1) * 0x40 + Bits(b2);
            InRange(2, c) ==> IsScalar(c) && Encode(c) == [b0, b1, b2]
  {
    hide Digit, Bits;
    Digits(0, b0 - 0xE0, Bits(b1), Bits(b2));
  }

  lemma FourBytes(b0: Byte, b1: Byte, b2: Byte, b3: Byte)
    requires 0xF0 <= b0 <= 0xF4 && IsContinuation(b1) && IsContinuation(b2) && IsContinuation(b3)
    ensures var c := b0 % 8 * 0x4_0000 + Bits(b1) * 0x1000 + Bits(b2) * 0x40 + Bits(b3);
            InRange(3, c) ==> IsScalar(c) && Encode(c) == [b0, b1, b2, b3]
  {
    hide Digit, Bits;
    assert b0 % 8 == b0 - 0xF0;
    Digits(b0 - 0xF0, Bits(b1), Bits(b2), Bits(b3));
  }

  /** A head accepted by the check is the encoding of the scalar it folds to. */
  lemma HeadEncodes(bs: seq<Byte>, n: nat)
    requires |bs| == n + 1 && Continuations(bs[0]) == n
    ensures var c := Fold(LeadBits(bs[0], n), bs[1..]);
            c >= 0 && InRange(n, c) ==> IsScalar(c) && Encode(c) == bs
  {
    hide Fold, Encode, Bits;
    var a, tail := LeadBits(bs[0], n), bs[1..];
    if i: nat :| i < n && !IsContinuation(tail[i]) {
      FoldNeedsContinuations(a, tail, i);
    } else {
      FoldUnrolled(a, tail);
      if n == 0 {
        OneByte(bs[0]);
      } else if n == 1 {
        TwoBytes(bs[0], bs[1]);
      } else if n == 2 {
        ThreeBytes(bs[0], bs[1], bs[2]);
      } else if n == 3 {
        FourBytes(bs[0], bs[1], bs[2], bs[3]);
      }
    }
  }

  predicate FoldsBack(c: int)
    requires IsScalar(c)
  {
    var bs := Encode(c);
    var n := Continuations(bs[0]);
    n == |bs| - 1 && Fold(LeadBits(bs[0], n), bs[1..]) == c && InRange(n, c)
  }

  lemma TwoFold(c: int)
    requires 0x80 <= c <= 0x7FF
    ensures FoldsBack(c)
  {
    hide Digit, Fold;
    DigitSum(c);
    FoldUnrolled(Digit(c, 1), Encode(c)[1..]);
  }

  lemma ThreeFold(c: int)
    requires IsScalar(c) && 0x800 <= c <= 0xFFFF
    ensures FoldsBack(c)
  {
    hide Digit, Fold;
    DigitSum(c);
    FoldUnrolled(Digit(c, 2), Encode(c)[1..]);
  }

  lemma FourFold(c: int)
    requires 0x1_0000 <= c <= 0x10FFFF
    ensures FoldsBack(c)
  {
    hide Digit, Fold;
    DigitSum(c);
    FoldUnrolled(Digit(c, 3), Encode(c)[1..]);
  }

  /** The encoding of a scalar is accepted and folds back to it. */
  lemma EncodingFolds(c: int)
    requires IsScalar(c)
    ensures FoldsBack(c)
  {
    if 0x80 <= c <= 0x7FF {
      TwoFold(c);
    } else if 0x800 <= c <= 0xFFFF {
      ThreeFold(c);
    } else if c > 0xFFFF {
      FourFold(c);
    }
  }

  /** Whether the check accepts the character at the head of a non-empty byte string. */
  predicate HeadAccepted(bs: seq<Byte>)
    requires bs != []
  {
    var n := Continuations(bs[0]);
    && 0 <= n < |bs|
    && var c := Fold(LeadBits(bs[0], n), bs[1..n + 1]);
       c >= 0 && InRange(n, c)
  }

  lemma {:induction false} EncodeAllAppend(cs: seq<int>, ds: seq<int>)
    requires AllScalars(cs) && AllScalars(ds)
    ensures EncodeAll(cs + ds) == EncodeAll(cs) + EncodeAll(ds)
  {
    if cs == [] {
      assert cs + ds == ds;
    } else {
      assert (cs + ds)[1..] == cs[1..] + ds;
      EncodeAllAppend(cs[1..], ds);
    }
  }

  lemma ConcatIsUtf8(a: seq<Byte>, b: seq<Byte>)
    requires IsUtf8(a) && IsUtf8(b)
    ensures IsUtf8(a + b)
  {
    var cs :| AllScalars(cs) && EncodeAll(cs) == a;
    var ds :| AllScalars(ds) && EncodeAll(ds) == b;
    EncodeAllAppend(cs, ds);
    assert AllScalars(cs + ds);
  }

  lemma EncodingIsUtf8(c: int)
    requires IsScalar(c)
    ensures IsUtf8(Encode(c))
  {
    assert EncodeAll([c]) == Encode(c) + [];
    assert AllScalars([c]);
  }

  lemma HeadAndTail(bs: seq<Byte>, m: nat)
    requires 0 < m <= |bs|
    ensures bs == bs[..m] + bs[m..] && bs[..m][1..] == bs[1..m]
  {
  }

  /** One accepted character may be taken off without changing whether the whole is UTF-8. */
  lemma HeadStep(bs: seq<Byte>)
    requires bs != [] && HeadAccepted(bs)
    ensures IsUtf8(bs) <==> IsUtf8(bs[Continuations(bs[0]) + 1..])
  {
    hide IsUtf8, Fold, InRange, LeadBits, Encode;
    var n := Continuations(bs[0]);
    var head, tail := bs[..n + 1], bs[n + 1..];
    HeadAndTail(bs, n + 1);
    HeadEncodes(head, n);
    if IsUtf8(tail) {
      EncodingIsUtf8(Fold(LeadBits(bs[0], n), bs[1..n + 1]));
      ConcatIsUtf8(head, tail);
    }
    if IsUtf8(bs) {
      TailIsUtf8(bs, n);
    }
  }

  lemma TailIsUtf8(bs: seq<Byte>, n: nat)
    requires bs != [] && IsUtf8(bs) && Continuations(bs[0]) == n < |bs|
    ensures IsUtf8(bs[n + 1..])
  {
    hide Fold, InRange, LeadBits, Encode;
    var cs :| AllScalars(cs) && EncodeAll(cs) == bs;
    var e, rest := Encode(cs[0]), EncodeAll(cs[1..]);
    EncodingFolds(cs[0]);
    assert bs == e + rest && e[0] == bs[0] && |e| == n + 1;
    assert (e + rest)[|e|..] == rest;
    assert AllScalars(cs[1..]);
  }

  /** A byte string whose head is not accepted is not UTF-8. */
  lemma HeadNeeded(bs: seq<Byte>)
    requires bs != [] && IsUtf8(bs)
    ensures HeadAccepted(bs)
  {
    var cs :| AllScalars(cs) && EncodeAll(cs) == bs;
    var e := Encode(cs[0]);
    EncodingFolds(cs[0]);
    assert bs[..|e|] == e && bs[1..|e|] == e[1..];
  }

  // ----- where UTF-8 may be cut

  lemma {:induction false} ContinuationsFollow(c: int, i: nat)
    requires IsScalar(c) && 0 < i < |Encode(c)|
    ensures IsContinuation(Encode(c)[i])
  {
    hide Digit;
  }

  /** A byte that is not a continuation starts a character, so the text before it is whole. */
  lemma {:induction false} CutBefore(a: seq<Byte>, b: seq<Byte>)
    requires b != [] && !IsContinuation(b[0])
    ensures IsUtf8(a + b) <==> IsUtf8(a) && IsUtf8(b)
    decreases |a|
  {
    hide IsUtf8;
    if a == [] {
      assert a + b == b;
      NothingIsUtf8();
    } else {
      if IsUtf8(a) && IsUtf8(b) {
        ConcatIsUtf8(a, b);
      }
      if IsUtf8(a + b) {
        HeadNeeded(a + b);
        HeadFits(a, b);
        var n := Continuations(a[0]) + 1;
        HeadStep(a + b);
        assert (a + b)[n..] == a[n..] + b;
        CutBefore(a[n..], b);
        HeadOfPrefix(a, b);
        HeadStep(a);
      }
    }
  }

  lemma NothingIsUtf8()
    ensures IsUtf8([])
  {
    assert AllScalars([]) && EncodeAll([]) == [];
  }

  lemma HeadFits(a: seq<Byte>, b: seq<Byte>)
    requires a != [] && b != [] && !IsContinuation(b[0]) && IsUtf8(a + b) && HeadAccepted(a + b)
    ensures Continuations(a[0]) < |a|
  {
    hide Fold, Encode, InRange, IsContinuation;
    var cs :| AllScalars(cs) && EncodeAll(cs) == a + b;
    var e := Encode(cs[0]);
    EncodingFolds(cs[0]);
    assert e[0] == (a + b)[0] == a[0];
    if |e| > |a| {
      assert e[|a|] == (a + b)[|a|] == b[0];
      ContinuationsFollow(cs[0], |a|);
    }
  }

  lemma HeadOfPrefix(a: seq<Byte>, b: seq<Byte>)
    requires a != [] && HeadAccepted(a + b) && Continuations(a[0]) < |a|
    ensures HeadAccepted(a)
  {
    var n := Continuations(a[0]);
    assert (a + b)[1..n + 1] == a[1..n + 1];
  }

  /** UTF-8 may be taken off the front. */
  lemma {:induction false} CutAfter(a: seq<Byte>, b: seq<Byte>)
    requires IsUtf8(a)
    ensures IsUtf8(a + b) <==> IsUtf8(b)
    decreases |a|
  {
    hide IsUtf8, HeadAccepted;
    if a == [] {
      assert a + b == b;
    } else {
      HeadNeeded(a);
      HeadStep(a);
      HeadExtends(a, b);
      HeadStep(a + b);
      var n := Continuations(a[0]) + 1;
      assert (a + b)[n..] == a[n..] + b;
      CutAfter(a[n..], b);
    }
  }

  lemma HeadExtends(a: seq<Byte>, b: seq<Byte>)
    requires a != [] && HeadAccepted(a)
    ensures HeadAccepted(a + b) && Continuations(a[0]) < |a|
  {
    var n := Continuations(a[0]);
    assert (a + b)[1..n + 1] == a[1..n + 1];
  }

  lemma StartsWhole(bs: seq<Byte>)
    requires bs != [] && IsUtf8(bs)
    ensures !IsContinuation(bs[0])
  {
    hide Fold;
    HeadNeeded(bs);
  }

  lemma Slices(bs: seq<Byte>, k: nat)
    requires 0 < k < |bs|
    ensures bs[..k + 1][1..] == bs[1..][..k] && bs[..k][1..] == bs[1..][..k - 1]
  {
  }

  /** The first `offset` continuation bytes folded one by one agree with folding them at once. */
  lemma {:induction false} FoldStep(acc: int, bs: seq<Byte>, k: nat)
    requires k < |bs| && acc >= 0
    ensures Fold(acc, bs[..k + 1]) ==
            if Fold(acc, bs[..k]) < 0 || !IsContinuation(bs[k]) then -1 else Fold(acc, bs[..k]) * 0x40 + Bits(bs[k])
    decreases k
  {
    hide IsContinuation, Bits;
    if k == 0 {
      assert bs[..1][1..] == [] && bs[..0] == [];
    } else if IsContinuation(bs[0]) {
      Slices(bs, k);
      FoldStep(acc * 0x40 + Bits(bs[0]), bs[1..], k - 1);
    }
  }

  lemma {:induction false} FoldRejects(acc: int, bs: seq<Byte>, k: nat)
    requires k <= |bs| && acc >= 0 && Fold(acc, bs[..k]) < 0
    ensures Fold(acc, bs) < 0
    decreases |bs| - k
  {
    if k < |bs| {
      FoldStep(acc, bs, k);
      FoldRejects(acc, bs, k + 1);
    } else {
      assert bs[..k] == bs;
    }
  }

  /** The inner loop: folds the continuation bytes in `bytes[index..index + remaining]`. */
  method FoldContinuations(bytes: seq<Byte>, index: nat, remaining: nat, lead: nat) returns (codepoint: int)
    requires index + remaining <= |bytes|
    ensures codepoint == Fold(lead, bytes[index..index + remaining])
  {
    ghost var tail := bytes[index..index + remaining];
    codepoint := lead;
    for offset := 0 to remaining
      invariant codepoint >= 0 && codepoint == Fold(lead, tail[..offset])
    {
      var next := bytes[index + offset];
      assert next == tail[offset];
      FoldStep(lead, tail, offset);
      if next / 0x40 != 2 {
        FoldRejects(lead, tail, offset + 1);
        return -1;
      }
      codepoint := codepoint * 0x40 + Bits(next);
    }
    assert tail[..remaining] == tail;
  }

  /** `developer_utf8_valid` accepts exactly the UTF-8 byte strings. */
  method Valid(bytes: seq<Byte>) returns (ok: bool)
    ensures ok <==> IsUtf8(bytes)
  {
    hide IsUtf8, HeadAccepted, Continuations;
    var index := 0;
    assert bytes[0..] == bytes;
    while index < |bytes|
      invariant index <= |bytes|
      invariant IsUtf8(bytes) <==> IsUtf8(bytes[index..])
    {
      var remaining, accepted := Head(bytes, index);
      ghost var rest := bytes[index..];
      if !accepted {
        if IsUtf8(rest) {
          HeadNeeded(rest);
        }
        return false;
      }
      HeadStep(rest);
      assert rest[remaining + 1..] == bytes[index + remaining + 1..];
      index := index + remaining + 1;
    }
    assert bytes[index..] == [];
    NothingIsUtf8();
    return true;
  }

  /** One turn of the outer loop: tests the character at `index`. */
  method Head(bytes: seq<Byte>, index: nat) returns (remaining: nat, accepted: bool)
    requires index < |bytes|
    ensures accepted <==> HeadAccepted(bytes[index..])
    ensures accepted ==> remaining == Continuations(bytes[index]) && index + remaining < |bytes|
  {
    var first := bytes[index];
    ghost var rest := bytes[index..];
    var lead := 0;
    if first <= 0x7F {
      return 0, true;
    } else if 0xC2 <= first <= 0xDF {
      remaining, lead := 1, first % 0x20;
    } else if 0xE0 <= first <= 0xEF {
      remaining, lead := 2, first % 0x10;
    } else if 0xF0 <= first <= 0xF4 {
      remaining, lead := 3, first % 8;
    } else {
      return 0, false;
    }
    if |bytes| - (index + 1) < remaining {
      return 0, false;
    }
    assert bytes[index + 1..index + 1 + remaining] == rest[1..remaining + 1];
    var codepoint := FoldContinuations(bytes, index + 1, remaining, lead);
    accepted := codepoint >= 0 &&
    !((remaining == 2 && 0xD800 <= codepoint <= 0xDFFF) || (remaining == 3 && codepoint > 0x10FFFF) ||
      (remaining == 2 && codepoint < 0x800) || (remaining == 3 && codepoint < 0x1_0000));
  }
}
