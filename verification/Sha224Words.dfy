/** The functions on 32-bit words of section 4.1.2 of FIPS 180-4, and words as bytes. */
module Sha224Words {

  /** Addition modulo 2 to the 32. */
  function Plus(x: bv32, y: bv32): bv32 {
    x + y
  }

  function Ch(x: bv32, y: bv32, z: bv32): bv32 {
    (x & y) ^ (!x & z)
  }

  function Maj(x: bv32, y: bv32, z: bv32): bv32 {
    (x & y) ^ (x & z) ^ (y & z)
  }

  function Ep0(x: bv32): bv32 {
    x.RotateRight(2) ^ x.RotateRight(13) ^ x.RotateRight(22)
  }

  function Ep1(x: bv32): bv32 {
    x.RotateRight(6) ^ x.RotateRight(11) ^ x.RotateRight(25)
  }

  function Sig0(x: bv32): bv32 {
    x.RotateRight(7) ^ x.RotateRight(18) ^ (x >> 3)
  }

  function Sig1(x: bv32): bv32 {
    x.RotateRight(17) ^ x.RotateRight(19) ^ (x >> 10)
  }

  // The code rotates by two shifts

  function Ep0Shifts(x: bv32): (y: bv32)
    ensures y == Ep0(x)
  {
    ((x >> 2) | (x << 30)) ^ ((x >> 13) | (x << 19)) ^ ((x >> 22) | (x << 10))
  }

  function Ep1Shifts(x: bv32): (y: bv32)
    ensures y == Ep1(x)
  {
    ((x >> 6) | (x << 26)) ^ ((x >> 11) | (x << 21)) ^ ((x >> 25) | (x << 7))
  }

  function Sig0Shifts(x: bv32): (y: bv32)
    ensures y == Sig0(x)
  {
    ((x >> 7) | (x << 25)) ^ ((x >> 18) | (x << 14)) ^ (x >> 3)
  }

  function Sig1Shifts(x: bv32): (y: bv32)
    ensures y == Sig1(x)
  {
    ((x >> 17) | (x << 15)) ^ ((x >> 19) | (x << 13)) ^ (x >> 10)
  }

  /** Four bytes, the most significant first, as a word. */
  function WordOf(a: bv8, b: bv8, c: bv8, d: bv8): bv32 {
    ((a as bv32) << 24) | ((b as bv32) << 16) | ((c as bv32) << 8) | (d as bv32)
  }

  /** A word as four bytes, the most significant first. */
  function BytesOf(x: bv32): (bs: seq<bv8>)
    ensures |bs| == 4
  {
    [((x >> 24) & 0xff) as bv8, ((x >> 16) & 0xff) as bv8, ((x >> 8) & 0xff) as bv8, (x & 0xff) as bv8]
  }

  /** No bit of the digest is lost: its bytes spell the hash words. */
  lemma BytesSpellWord(x: bv32)
    ensures var bs := BytesOf(x); WordOf(bs[0], bs[1], bs[2], bs[3]) == x
  {
  }
}
