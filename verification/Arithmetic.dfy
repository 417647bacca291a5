/** Numbers and facts about division that several modules use. */
module Arithmetic {

  /** The largest `size_t`, also the largest 64-bit count. */
  const SIZE_MAX: nat := 0xffff_ffff_ffff_ffff

  function Min(a: int, b: int): int {
    if a < b then a else b
  }

  function Max(a: int, b: int): int {
    if a < b then b else a
  }

  lemma Quotient(n: nat, c: nat) returns (q: nat)
    requires c > 0
    ensures n == q * c + n % c && n % c < c
  {
    q := n / c;
  }

  lemma AtLeastOnce(k: int, c: nat)
    requires k >= 1
    ensures k * c >= c
  {
    assert k * c == (k - 1) * c + c;
    NotNegative(k - 1, c);
  }

  lemma NotNegative(a: nat, b: nat)
    ensures a * b >= 0
  {
  }

  /** Multiples of `c` that differ by less than `c` are equal. */
  lemma SmallMultiple(p: int, q: int, c: int, d: int)
    requires c > 0 && p * c - q * c == d && -c < d < c
    ensures p == q
  {
    assert (p - q) * c == p * c - q * c;
    if p > q {
      AtLeastOnce(p - q, c);
    } else if p < q {
      AtLeastOnce(q - p, c);
    }
  }

  lemma RemainderUnique(n: nat, c: nat, q: nat, r: nat)
    requires c > 0 && n == q * c + r && r < c
    ensures n % c == r
  {
    var p := Quotient(n, c);
    SmallMultiple(q, p, c, n % c - r);
  }
}
