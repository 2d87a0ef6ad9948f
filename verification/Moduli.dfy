/** Division, remainder and powers of two: what the ring buffers' cursors and the tree's height bound rest on. */
module Moduli {

  lemma MultipleNear(d: int, m: int)
    requires -m < d * m < m
    ensures d == 0
  {
    assert d >= 1 ==> d * m >= 1 * m;
    assert d <= -1 ==> d * m <= -1 * m;
  }

  lemma Spaced(p: int, q: int, m: int)
    ensures !(0 < q * m - p * m < m)
  {
    assert (q - p) * m == q * m - p * m;
    if 0 < (q - p) * m < m {
      MultipleNear(q - p, m);
    }
  }

  lemma DivModOf(m: nat, r: nat, w: nat)
    requires w < m
    ensures (r * m + w) / m == r && (r * m + w) % m == w
  {
    var q, e := (r * m + w) / m, (r * m + w) % m;
    assert (r - q) * m == e - w;
    MultipleNear(r - q, m);
  }

  lemma ModNear(x: int, m: int)
    requires m > 0
    ensures 0 <= x < m ==> x % m == x
    ensures m <= x < 2 * m ==> x % m == x - m
    ensures -m <= x < 0 ==> x % m == x + m
  {
    if m <= x < 2 * m {
      DivModOf(m, 1, x - m);
    } else if 0 <= x < m {
      DivModOf(m, 0, x);
    } else if -m <= x < 0 {
      assert x == x / m * m + x % m;
      assert x / m == -1;
    }
  }

  function Pow2(k: nat): (r: nat)
    ensures r > 0
  {
    if k == 0 then 1 else 2 * Pow2(k - 1)
  }

  lemma {:induction false} Pow2Adds(a: nat, b: nat)
    ensures Pow2(a) * Pow2(b) == Pow2(a + b)
  {
    if a > 0 {
      Pow2Adds(a - 1, b);
      assert Pow2(a) * Pow2(b) == 2 * (Pow2(a - 1) * Pow2(b));
    }
  }

  lemma {:induction false} Pow2Grows(a: nat, b: nat)
    requires a < b
    ensures Pow2(a) < Pow2(b)
    decreases b
  {
    if a + 1 < b {
      Pow2Grows(a, b - 1);
    }
  }
}
