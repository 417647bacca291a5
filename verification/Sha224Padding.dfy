/** The padding of section 5.1.1 of FIPS 180-4: the padded message as a whole, and its last one or two blocks. */
module Sha224Padding {
  import opened Arithmetic

  function LowByte(n: nat): bv8 {
    (n % 256) as bv8
  }

  /** The low `width` bytes of a number, the most significant first. */
  function BigEndian(n: nat, width: nat): (bs: seq<bv8>)
    ensures |bs| == width
  {
    if width == 0 then [] else BigEndian(n / 256, width - 1) + [LowByte(n)]
  }

  /** The number of zero bytes that brings a message and its end marker to 8 bytes before a block's end. */
  function ZeroCount(length: nat): (k: nat)
    ensures k < 64 && (length + 1 + k) % 64 == 56
  {
    if length % 64 < 56 then 55 - length % 64 else 119 - length % 64
  }

  function Zeros(n: nat): (bs: seq<bv8>)
    ensures |bs| == n && forall i :: 0 <= i < n ==> bs[i] == 0
  {
    if n == 0 then [] else [0] + Zeros(n - 1)
  }

  function Padded(message: seq<bv8>): seq<bv8> {
    message + ([0x80] + Zeros(ZeroCount(|message|)) + BigEndian(8 * |message|, 8))
  }

  // ----- the length field and the tail, as the code builds them

  /** A number shifted right by `k` bytes. */
  function Shifted(n: nat, k: nat): nat {
    if k == 0 then n else Shifted(n / 256, k - 1)
  }

  lemma {:induction false} BytesAreShifts(n: nat, width: nat, j: nat)
    requires j < width
    ensures BigEndian(n, width)[j] == LowByte(Shifted(n, width - 1 - j))
  {
    hide LowByte;
    if j < width - 1 {
      BytesAreShifts(n / 256, width - 1, j);
    }
  }

  function Power(width: nat): (p: nat)
    ensures p > 0
  {
    if width == 0 then 1 else 256 * Power(width - 1)
  }

  /** A remainder's low byte and the rest of it. */
  lemma LowThenRest(n: nat, p: nat)
    requires p > 0
    ensures n % (256 * p) == n / 256 % p * 256 + n % 256
  {
    var q, r, s := n / 256 / p, n / 256 % p, n % 256;
    assert n / 256 == q * p + r;
    assert n == (q * p + r) * 256 + s;
    assert (q * p + r) * 256 == q * (256 * p) + r * 256;
    RemainderUnique(n, 256 * p, q, r * 256 + s);
  }

  lemma {:induction false} BytesOfRemainder(n: nat, width: nat)
    ensures BigEndian(n % Power(width), width) == BigEndian(n, width)
  {
    hide LowByte;
    if width > 0 {
      var p := Power(width - 1);
      LowThenRest(n, p);
      var m := n % (256 * p);
      assert m / 256 == n / 256 % p && m % 256 == n % 256;
      SameLowByte(m, n);
      BytesOfRemainder(n / 256, width - 1);
    }
  }

  lemma SameLowByte(m: nat, n: nat)
    requires m % 256 == n % 256
    ensures LowByte(m) == LowByte(n)
  {
  }

  /** The length field taken from a 64-bit count of bits is the standard's. */
  lemma LengthField(n: nat, j: nat)
    requires j < 8
    ensures LowByte(Shifted(n % 0x1_0000_0000_0000_0000, 7 - j)) == BigEndian(n, 8)[j]
  {
    hide LowByte, BigEndian;
    assert Power(8) == 0x1_0000_0000_0000_0000 by {
      assert Power(2) == 0x1_0000;
      assert Power(4) == 0x1_0000 * Power(2);
      assert Power(6) == 0x1_0000 * Power(4);
      assert Power(8) == 0x1_0000 * Power(6);
    }
    BytesOfRemainder(n, 8);
    BytesAreShifts(n % 0x1_0000_0000_0000_0000, 8, j);
  }

  lemma Split<T>(a: seq<T>, b: seq<T>, n: nat, m: nat)
    requires n <= |a| <= m <= |a| + |b|
    ensures (a + b)[n..m] == a[n..] + b[..m - |a|]
  {
  }

  /** A whole block of the message is a block of the padded message. */
  lemma WholeBlock(data: seq<bv8>, i: nat)
    requires 64 * i + 64 <= |data|
    ensures 64 * i + 64 <= |Padded(data)| && Padded(data)[64 * i..64 * i + 64] == data[64 * i..64 * i + 64]
  {
    hide BigEndian, Zeros, ZeroCount;
  }

  lemma {:induction false} MoreZeros(m: nat, n: nat)
    ensures Zeros(m + n) == Zeros(m) + Zeros(n)
  {
    if m > 0 {
      MoreZeros(m - 1, n);
    }
  }

  lemma OneBlockTail(data: seq<bv8>, n: nat)
    requires n == |data| / 64 && |data| % 64 < 56
    ensures |Padded(data)| == 64 * n + 64
    ensures Padded(data)[64 * n..64 * n + 64] == data[64 * n..] + ([0x80] + Zeros(55 - |data| % 64) + BigEndian(8 * |data|, 8))
  {
    hide BigEndian, Zeros;
    var rest := [0x80] + Zeros(55 - |data| % 64) + BigEndian(8 * |data|, 8);
    Split(data, rest, 64 * n, 64 * n + 64);
  }

  lemma TwoBlockTail(data: seq<bv8>, n: nat)
    requires n == |data| / 64 && |data| % 64 >= 56
    ensures |Padded(data)| == 64 * n + 128
    ensures Padded(data)[64 * n..64 * n + 64] == data[64 * n..] + ([0x80] + Zeros(63 - |data| % 64))
    ensures Padded(data)[64 * n + 64..64 * n + 128] == Zeros(56) + BigEndian(8 * |data|, 8)
  {
    hide BigEndian, Zeros;
    var first, second := [0x80] + Zeros(63 - |data| % 64), Zeros(56) + BigEndian(8 * |data|, 8);
    MoreZeros(63 - |data| % 64, 56);
    assert Padded(data) == data + (first + second);
    Split(data, first + second, 64 * n, 64 * n + 64);
    assert (first + second)[..|first|] == first;
    assert Padded(data) == (data + first) + second;
    Split(data + first, second, 64 * n + 64, 64 * n + 128);
  }

  /** The eight length bytes as the code takes them from its 64-bit count. */
  function LengthBytes(bitlen: nat): (bs: seq<bv8>)
    ensures |bs| == 8
  {
    [LowByte(Shifted(bitlen, 7)), LowByte(Shifted(bitlen, 6)), LowByte(Shifted(bitlen, 5)), LowByte(Shifted(bitlen, 4)),
     LowByte(Shifted(bitlen, 3)), LowByte(Shifted(bitlen, 2)), LowByte(Shifted(bitlen, 1)), LowByte(Shifted(bitlen, 0))]
  }

  lemma LengthFields(n: nat)
    ensures LengthBytes(n % 0x1_0000_0000_0000_0000) == BigEndian(n, 8)
  {
    hide LowByte, Shifted, BigEndian;
    forall j: nat | j < 8
      ensures LengthBytes(n % 0x1_0000_0000_0000_0000)[j] == BigEndian(n, 8)[j]
    {
      LengthField(n, j);
    }
  }
}
