/**
  SHA-224 as the library computes it, block by block with a one or two block tail, against the definition in FIPS 180-4:
  the message is padded as a whole (section 5.1.1), cut into blocks, and folded into the hash value (sections 6.2.2, 6.3).
 */
module Sha224 {
  import opened Sha224Constants
  import opened Sha224Words
  import opened Sha224Padding

  // ----- the definition: schedule and rounds (6.2.2), chaining (6.3)

  type Block = b: seq<bv8> | |b| == 64 witness seq(64, _ => 0)

  type Hash = h: seq<bv32> | |h| == 8 witness seq(8, _ => 0)

  function Schedule(block: Block, t: nat): bv32
    requires t < 64
  {
    if t < 16 then WordOf(block[4 * t], block[4 * t + 1], block[4 * t + 2], block[4 * t + 3])
    else Plus(Plus(Plus(Sig1(Schedule(block, t - 2)), Schedule(block, t - 7)), Sig0(Schedule(block, t - 15))), Schedule(block, t - 16))
  }

  datatype Working = Working(a: bv32, b: bv32, c: bv32, d: bv32, e: bv32, f: bv32, g: bv32, h: bv32)

  function K(t: nat): bv32
    requires t < 64
  {
    K256[t]
  }

  function Round(v: Working, k: bv32, w: bv32): Working {
    var t1 := Plus(Plus(Plus(Plus(v.h, Ep1(v.e)), Ch(v.e, v.f, v.g)), k), w);
    var t2 := Plus(Ep0(v.a), Maj(v.a, v.b, v.c));
    Working(Plus(t1, t2), v.a, v.b, v.c, Plus(v.d, t1), v.e, v.f, v.g)
  }

  function Rounds(v: Working, block: Block, n: nat): Working
    requires n <= 64
  {
    if n == 0 then v else Round(Rounds(v, block, n - 1), K(n - 1), Schedule(block, n - 1))
  }

  function WorkingOf(h: Hash): Working {
    Working(h[0], h[1], h[2], h[3], h[4], h[5], h[6], h[7])
  }

  function Compressed(h: Hash, block: Block): Hash {
    var v := Rounds(WorkingOf(h), block, 64);
    [Plus(h[0], v.a), Plus(h[1], v.b), Plus(h[2], v.c), Plus(h[3], v.d), Plus(h[4], v.e), Plus(h[5], v.f), Plus(h[6], v.g), Plus(h[7], v.h)]
  }

  function BlockAt(padded: seq<bv8>, n: nat): Block
    requires 64 * n + 64 <= |padded|
  {
    padded[64 * n..64 * n + 64]
  }

  /** The hash value after the first `n` blocks. */
  function Chained(h: Hash, padded: seq<bv8>, n: nat): Hash
    requires 64 * n <= |padded|
  {
    if n == 0 then h else Compressed(Chained(h, padded, n - 1), BlockAt(padded, n - 1))
  }

  function H0(i: nat): bv32
    requires i < 8
  {
    H224[i]
  }

  function Initial(): Hash {
    [H0(0), H0(1), H0(2), H0(3), H0(4), H0(5), H0(6), H0(7)]
  }

  /** The first seven words of the last hash value. */
  function Spell(h: Hash, n: nat): seq<bv8>
    requires n <= 8
  {
    if n == 0 then [] else Spell(h, n - 1) + BytesOf(h[n - 1])
  }

  function Digest(message: seq<bv8>): seq<bv8> {
    var padded := Padded(message);
    Spell(Chained(Initial(), padded, |padded| / 64), 7)
  }

  /** Blocks are folded in one after the other: what follows starts from what came before. */
  lemma {:induction false} ChainedJoins(h: Hash, a: seq<bv8>, m: nat, b: seq<bv8>, n: nat)
    requires |a| == 64 * m && |b| == 64 * n
    ensures Chained(h, a + b, m + n) == Chained(Chained(h, a, m), b, n)
    ensures n == 1 ==> Chained(h, b, n) == Compressed(h, b)
    decreases m + n
  {
    hide Compressed;
    if n > 0 {
      var c, last := b[..64 * (n - 1)], b[64 * (n - 1)..];
      ChainedJoins(h, a, m, c, n - 1);
      PrefixChained(h, a + b, a + c, m + n - 1);
      PrefixChained(Chained(h, a, m), b, c, n - 1);
      PrefixChained(h, b, c, n - 1);
      assert BlockAt(a + b, m + n - 1) == last == BlockAt(b, n - 1);
      assert n == 1 ==> last == b;
    } else {
      PrefixChained(h, a + b, a, m);
    }
  }

  lemma {:induction false} PrefixChained(h: Hash, s: seq<bv8>, t: seq<bv8>, n: nat)
    requires 64 * n <= |t| && t <= s
    ensures Chained(h, s, n) == Chained(h, t, n)
    decreases n
  {
    hide Compressed;
    if n > 0 {
      PrefixChained(h, s, t, n - 1);
      assert BlockAt(s, n - 1) == BlockAt(t, n - 1);
    }
  }

  lemma FirstWords(block: Block, t: nat)
    requires t < 16
    ensures Schedule(block, t) == WordOf(block[4 * t], block[4 * t + 1], block[4 * t + 2], block[4 * t + 3])
  {
  }

  lemma NextWord(block: Block, t: nat)
    requires 16 <= t < 64
    ensures Schedule(block, t)
         == Plus(Plus(Plus(Sig1(Schedule(block, t - 2)), Schedule(block, t - 7)), Sig0(Schedule(block, t - 15))), Schedule(block, t - 16))
  {
    hide Sig0, Sig1, Plus;
  }

  lemma StartRounds(v: Working, block: Block)
    ensures Rounds(v, block, 0) == v
  {
  }

  lemma NextRound(v: Working, block: Block, t: nat)
    requires t < 64
    ensures Rounds(v, block, t + 1) == Round(Rounds(v, block, t), K(t), Schedule(block, t))
  {
    hide Round, Schedule, K;
  }

  // ----- the code

  /** The first two loops of the compression: the message schedule. */
  method Expand(block: Block) returns (w: array<bv32>)
    ensures fresh(w) && w.Length == 64 && forall t :: 0 <= t < 64 ==> w[t] == Schedule(block, t)
  {
    hide Sig0, Sig1, Sig0Shifts, Sig1Shifts, WordOf, Schedule, Plus;
    w := new bv32[64];
    var i := 0;
    while i < 16
      invariant i <= 16 && forall t :: 0 <= t < i ==> w[t] == Schedule(block, t)
    {
      FirstWords(block, i);
      w[i] := WordOf(block[i * 4], block[i * 4 + 1], block[i * 4 + 2], block[i * 4 + 3]);
      i := i + 1;
    }
    while i < 64
      invariant 16 <= i <= 64 && forall t :: 0 <= t < i ==> w[t] == Schedule(block, t)
    {
      NextWord(block, i);
      w[i] := Plus(Plus(Plus(Sig1Shifts(w[i - 2]), w[i - 7]), Sig0Shifts(w[i - 15])), w[i - 16]);
      i := i + 1;
    }
  }

  /** The 64 rounds on the eight working variables. */
  method Mix(start: Working, block: Block) returns (v: Working)
    ensures v == Rounds(start, block, 64)
  {
    hide Ch, Maj, Ep0, Ep1, Ep0Shifts, Ep1Shifts, Schedule, K, Rounds, Plus;
    var w := Expand(block);
    var a, b, c, d := start.a, start.b, start.c, start.d;
    var e, f, g, h := start.e, start.f, start.g, start.h;
    StartRounds(start, block);
    var i := 0;
    while i < 64
      invariant i <= 64 && forall t :: 0 <= t < 64 ==> w[t] == Schedule(block, t)
      invariant Working(a, b, c, d, e, f, g, h) == Rounds(start, block, i)
    {
      NextRound(start, block, i);
      var t1 := Plus(Plus(Plus(Plus(h, Ep1Shifts(e)), Ch(e, f, g)), K(i)), w[i]);
      var t2 := Plus(Ep0Shifts(a), Maj(a, b, c));
      h, g, f, e := g, f, e, Plus(d, t1);
      d, c, b, a := c, b, a, Plus(t1, t2);
      i := i + 1;
    }
    return Working(a, b, c, d, e, f, g, h);
  }

  /** One block is folded into the state, in place. */
  method Compress(state: array<bv32>, block: Block)
    requires state.Length == 8
    modifies state
    ensures state[..] == Compressed(old(state[..]), block)
  {
    hide Rounds, Plus;
    ghost var h := state[..];
    var v := Mix(Working(state[0], state[1], state[2], state[3], state[4], state[5], state[6], state[7]), block);
    assert v == Rounds(WorkingOf(h), block, 64);
    state[0], state[1], state[2], state[3] := Plus(state[0], v.a), Plus(state[1], v.b), Plus(state[2], v.c), Plus(state[3], v.d);
    state[4], state[5], state[6], state[7] := Plus(state[4], v.e), Plus(state[5], v.f), Plus(state[6], v.g), Plus(state[7], v.h);
  }

  // ----- the whole digest

  method WriteLength(block: array<bv8>, bitlen: nat)
    requires block.Length == 64
    modifies block
    ensures block[..56] == old(block[..56]) && block[56..] == LengthBytes(bitlen)
  {
    hide LowByte, Shifted;
    block[56], block[57], block[58], block[59] :=
      LowByte(Shifted(bitlen, 7)), LowByte(Shifted(bitlen, 6)), LowByte(Shifted(bitlen, 5)), LowByte(Shifted(bitlen, 4));
    block[60], block[61], block[62], block[63] :=
      LowByte(Shifted(bitlen, 3)), LowByte(Shifted(bitlen, 2)), LowByte(Shifted(bitlen, 1)), LowByte(Shifted(bitlen, 0));
  }

  /** The block that the message's last bytes and the end marker start. */
  method StartTail(data: seq<bv8>, from: nat) returns (block: array<bv8>)
    requires from <= |data| < from + 64
    ensures fresh(block) && block.Length == 64
    ensures block[..] == data[from..] + ([0x80] + Zeros(63 - (|data| - from)))
  {
    block := new bv8[64](_ => 0);
    var remaining := |data| - from;
    forall i | 0 <= i < remaining {
      block[i] := data[from + i];
    }
    block[remaining] := 0x80;
  }

  lemma NextBlock(padded: seq<bv8>, n: nat)
    requires 64 * n + 64 <= |padded|
    ensures Chained(Initial(), padded, n + 1) == Compressed(Chained(Initial(), padded, n), BlockAt(padded, n))
  {
    hide Compressed, Initial;
  }

  method SpellState(state: array<bv32>) returns (hash: seq<bv8>)
    requires state.Length == 8
    ensures hash == Spell(state[..], 7)
  {
    hide BytesOf;
    hash := [];
    var i := 0;
    while i < 7
      invariant i <= 7 && hash == Spell(state[..], i)
    {
      hash := hash + BytesOf(state[i]);
      i := i + 1;
    }
  }

  method StartState() returns (state: array<bv32>)
    ensures fresh(state) && state.Length == 8 && state[..] == Initial()
  {
    hide H0;
    state := new bv32[8];
    for i := 0 to 8
      invariant forall k :: 0 <= k < i ==> state[k] == H0(k)
    {
      state[i] := H0(i);
    }
  }

  lemma NoBlocks(padded: seq<bv8>)
    ensures Chained(Initial(), padded, 0) == Initial()
  {
  }

  method Sum(data: seq<bv8>) returns (hash: seq<bv8>)
    ensures hash == Digest(data)
  {
    hide Compressed, Chained, Padded, Zeros, BigEndian, Spell, Initial;
    ghost var padded := Padded(data);
    var state := StartState();
    NoBlocks(padded);
    var bitlen := |data| * 8 % 0x1_0000_0000_0000_0000;
    var blocks := |data| / 64;
    var i := 0;
    while i < blocks
      invariant i <= blocks && 64 * i <= |padded| && state[..] == Chained(Initial(), padded, i)
    {
      WholeBlock(data, i);
      NextBlock(padded, i);
      Compress(state, data[i * 64..i * 64 + 64]);
      i := i + 1;
    }
    var block := StartTail(data, blocks * 64);
    FinishTail(state, block, data, |data| % 64, bitlen);
    hash := SpellState(state);
  }

  /** The end marker's block is closed when the length does not fit in it, and the length ends the last block. */
  method FinishTail(state: array<bv32>, block: array<bv8>, ghost data: seq<bv8>, remaining: nat, bitlen: nat)
    requires state.Length == 8 && block.Length == 64
    requires remaining == |data| % 64 && bitlen == |data| * 8 % 0x1_0000_0000_0000_0000
    requires 64 * (|data| / 64) <= |Padded(data)| && state[..] == Chained(Initial(), Padded(data), |data| / 64)
    requires block[..] == data[64 * (|data| / 64)..] + ([0x80] + Zeros(63 - |data| % 64))
    modifies state, block
    ensures state[..] == Chained(Initial(), Padded(data), |Padded(data)| / 64)
  {
    hide Compressed, Chained, Padded, Zeros, BigEndian, Initial, LengthBytes;
    ghost var padded := Padded(data);
    ghost var n := |data| / 64;
    if remaining >= 56 {
      TwoBlockTail(data, n);
      NextBlock(padded, n);
      Compress(state, block[..]);
      forall i | 0 <= i < 64 {
        block[i] := 0;
      }
      n := n + 1;
      assert block[..56] == Zeros(56);
    } else {
      OneBlockTail(data, n);
      MoreZeros(55 - remaining, 8);
      assert block[..56] == data[64 * n..] + ([0x80] + Zeros(55 - remaining));
    }
    LengthFields(|data| * 8);
    assert state[..] == Chained(Initial(), padded, n);
    WriteLength(block, bitlen);
    assert state[..] == Chained(Initial(), padded, n);
    assert block[..] == block[..56] + block[56..];
    assert block[..] == BlockAt(padded, n);
    NextBlock(padded, n);
    Compress(state, block[..]);
    assert state[..] == Chained(Initial(), padded, n + 1);
    assert |padded| == 64 * (n + 1);
  }
}
