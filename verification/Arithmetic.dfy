/** Facts about division by a positive number that is not a literal. */
module Arithmetic {

  /** A multiple of `d` that is closer to zero than `d` is zero. */
  lemma MultipleInRange(x: int, d: int)
    requires -d < x * d < d
    ensures x == 0
  {
  }

  lemma QuotientOfMultiple(k: nat, d: nat)
    requires d > 0
    ensures k * d / d == k
  {
    var q, r := k * d / d, k * d % d;
    assert k * d == q * d + r;
    assert (k - q) * d == r;
    MultipleInRange(k - q, d);
  }

  lemma SmallRemainder(x: nat, d: nat)
    requires 0 < x <= d
    ensures x % d == if x == d then 0 else x
  {
  }

  /** A position in a ring of `d` places, from a start at most one turn away. */
  lemma WrapAround(x: nat, d: nat)
    requires 0 < d && x < d + d
    ensures x % d == if x < d then x else x - d
  {
    var q, r := x / d, x % d;
    assert x == q * d + r;
    if x < d {
      MultipleInRange(q, d);
    } else {
      assert (q - 1) * d == x - d - r;
      MultipleInRange(q - 1, d);
    }
  }

  /** Position `r` of place `q`, when every place holds `d` positions. */
  function Pack(q: nat, r: nat, d: nat): nat {
    q * d + r
  }

  lemma NextPlace(q: nat, q': nat, d: nat)
    ensures q < q' ==> q * d + d <= q' * d
  {
    if q < q' {
      assert (q + 1) * d <= q' * d;
    }
  }

  lemma PackBound(q: nat, r: nat, n: nat, d: nat)
    requires q < n && r < d
    ensures Pack(q, r, d) < n * d
  {
    NextPlace(q, n, d);
  }

  lemma PackDistinct(q: nat, r: nat, q': nat, r': nat, d: nat)
    requires r < d && r' < d && Pack(q, r, d) == Pack(q', r', d)
    ensures q == q' && r == r'
  {
    NextPlace(q, q', d);
    NextPlace(q', q, d);
  }

  lemma PackCovers(i: nat, n: nat, d: nat) returns (q: nat, r: nat)
    requires i < n * d
    ensures q < n && r < d && i == Pack(q, r, d)
  {
    q, r := i / d, i % d;
    NextPlace(n, q, d);
  }

  lemma PackDecode(q: nat, r: nat, d: nat)
    requires r < d
    ensures Pack(q, r, d) / d == q && Pack(q, r, d) % d == r
  {
    var i := Pack(q, r, d);
    assert i == Pack(i / d, i % d, d);
    PackDistinct(q, r, i / d, i % d, d);
  }
}
