/** Integer facts that the solver is spared from rediscovering: products, quotients and their bounds. */
module IntFacts {

  lemma MulMono(x: int, y: int, z: int)
    requires x <= y && 0 <= z
    ensures x * z <= y * z && z * x <= z * y
  {
  }

  lemma ProductUpTo(x: int, y: int, m: int)
    requires 0 <= x <= m && 0 <= y <= m
    ensures 0 <= x * y <= m * m
  {
    MulMono(0, x, y);
    MulMono(x, m, y);
    MulMono(y, m, m);
  }

  lemma Distribute(x: int, y: int, z: int)
    ensures (x + y) * z == x * z + y * z
  {
  }

  lemma QuotientBound(x: nat, d: nat, bound: nat)
    requires 0 < d && x < d * bound
    ensures x / d < bound
  {
    if bound <= x / d {
      MulMono(bound, x / d, d);
      assert false;
    }
  }

  lemma FloorIs(x: int, d: int, q: int)
    requires 0 < d && q * d <= x < (q + 1) * d
    ensures x / d == q
  {
    var k := x / d;
    if k < q {
      MulMono(k + 1, q, d);
    } else if k > q {
      MulMono(q + 1, k, d);
    }
  }

  lemma QuotientIs(x: int, d: int, q: int, r: int)
    requires x == q * d + r && 0 <= r < d
    ensures x / d == q && x % d == r
  {
    Distribute(q, 1, d);
    FloorIs(x, d, q);
  }

  lemma FloorAtLeast(x: int, d: int, q: int)
    requires 0 < d && q * d <= x
    ensures q <= x / d
  {
    if x / d < q {
      MulMono(x / d + 1, q, d);
    }
  }

  lemma StrictMono(x: int, y: int, z: int)
    requires x < y && 0 < z
    ensures x * z < y * z
  {
  }
}
