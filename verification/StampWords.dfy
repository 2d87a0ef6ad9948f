/** The stamp helpers of ConcurrentRingQueue as they are written, with shifts and bit masks, and their
    equality with the arithmetic on cursors that Stamps reasons about. */
module StampWords {
  import opened Moduli
  import opened Stamps

  // ----- bitwise operators on unbounded words -----

  function And(a: nat, b: nat): nat {
    if a == 0 || b == 0 then 0 else 2 * And(a / 2, b / 2) + if a % 2 == 1 && b % 2 == 1 then 1 else 0
  }

  function Or(a: nat, b: nat): nat
    decreases a + b
  {
    if a == 0 then b
    else if b == 0 then a
    else 2 * Or(a / 2, b / 2) + if a % 2 == 1 || b % 2 == 1 then 1 else 0
  }

  function ShiftLeft(a: nat, k: nat): nat {
    if k == 0 then a else 2 * ShiftLeft(a, k - 1)
  }

  function ShiftRight(a: nat, k: nat): nat {
    if k == 0 then a else ShiftRight(a / 2, k - 1)
  }

  lemma {:induction false} ShiftLeftIs(a: nat, k: nat)
    ensures ShiftLeft(a, k) == a * Pow2(k)
  {
    if k > 0 {
      ShiftLeftIs(a, k - 1);
      assert a * (2 * Pow2(k - 1)) == 2 * (a * Pow2(k - 1));
    }
  }

  /** Halving first: a == 2 * p * q + 2 * r + b in digits. */
  lemma HalfFirst(a: nat, p: nat)
    requires p > 0
    ensures a / (2 * p) == a / 2 / p
    ensures a % (2 * p) == 2 * (a / 2 % p) + a % 2
  {
    var q, r, b := a / 2 / p, a / 2 % p, a % 2;
    assert a / 2 == q * p + r;
    assert a == q * (2 * p) + (2 * r + b) by {
      assert 2 * (q * p) == q * (2 * p);
    }
    DivModOf(2 * p, q, 2 * r + b);
  }

  lemma {:induction false} ShiftRightIs(a: nat, k: nat)
    ensures ShiftRight(a, k) == a / Pow2(k)
    decreases k
  {
    if k > 0 {
      ShiftRightIs(a / 2, k - 1);
      HalfFirst(a, Pow2(k - 1));
    }
  }

  /** Masking with 2^k - 1 keeps the low bits. */
  lemma {:induction false} AndLow(a: nat, k: nat)
    ensures And(a, Pow2(k) - 1) == a % Pow2(k)
    decreases k
  {
    if k == 0 {
      ModNear(0, 1);
    } else if a == 0 {
      ModNear(0, Pow2(k));
    } else {
      var p := Pow2(k - 1);
      assert (2 * p - 1) / 2 == p - 1 && (2 * p - 1) % 2 == 1;
      AndLow(a / 2, k - 1);
      HalfFirst(a, p);
    }
  }

  /** Masking with a mask shifted left looks at the bits above. */
  lemma {:induction false} AndHigh(a: nat, mask: nat, k: nat)
    ensures And(a, ShiftLeft(mask, k)) == ShiftLeft(And(ShiftRight(a, k), mask), k)
    decreases k
  {
    if k > 0 {
      var b := ShiftLeft(mask, k - 1);
      AndHigh(a / 2, mask, k - 1);
      assert And(a, 2 * b) == 2 * And(a / 2, b) by { AndEven(a, b); }
    }
  }

  lemma AndEven(a: nat, b: nat)
    ensures And(a, 2 * b) == 2 * And(a / 2, b)
  {
    if a != 0 && b != 0 {
      assert 2 * b / 2 == b && 2 * b % 2 == 0;
    }
  }

  /** Or of words without common bits adds them. */
  lemma {:induction false} OrAdds(a: nat, k: nat, low: nat)
    requires low < Pow2(k)
    ensures Or(low, ShiftLeft(a, k)) == Or(ShiftLeft(a, k), low) == ShiftLeft(a, k) + low
    decreases k
  {
    if k > 0 && low != 0 && ShiftLeft(a, k) != 0 {
      var b := ShiftLeft(a, k - 1);
      OrAdds(a, k - 1, low / 2);
      assert 2 * b / 2 == b && 2 * b % 2 == 0;
    }
  }

  // ----- the helpers as written -----

  /** static_cast<Stamp>, from a wider word. */
  function Cast(shift: nat, a: nat): nat {
    a % Pow2(StampBits(shift))
  }

  function OffsetReadBits(shift: nat, s: nat): nat {
    ShiftRight(s, shift)
  }

  function OffsetWriteBits(shift: nat, s: nat): nat {
    And(s, Pow2(shift) - 1)
  }

  predicate CanReadBits(shift: nat, s: nat) {
    OffsetReadBits(shift, s) != OffsetWriteBits(shift, s)
  }

  predicate CanWriteBits(shift: nat, capacity: nat, s: nat)
    requires capacity < Pow2(shift)
  {
    And(OffsetReadBits(shift, s), Pow2(shift) - 1) !=
    And(OffsetWriteBits(shift, s) + (Pow2(shift) - capacity), Pow2(shift) - 1)
  }

  function AdvectReadBits(shift: nat, s: nat): nat {
    Or(Cast(shift, ShiftLeft(And(ShiftRight(s, shift) + 1, Pow2(shift) - 1), shift)), And(s, Pow2(shift) - 1))
  }

  function AdvectWriteBits(shift: nat, s: nat): nat {
    Or(And(And(s, Pow2(shift) - 1) + 1, Pow2(shift) - 1), Cast(shift, And(s, ShiftLeft(Pow2(shift) - 1, shift))))
  }

  /** The offsets and tests are those of the cursors, on every stamp. */
  lemma TestsAgree(shift: nat, capacity: nat, s: nat)
    requires capacity < Pow2(shift)
    ensures var m := Pow2(shift);
            && OffsetReadBits(shift, s) == OffsetRead(m, s) && OffsetWriteBits(shift, s) == OffsetWrite(m, s)
            && (CanReadBits(shift, s) <==> CanRead(m, s))
            && (CanWriteBits(shift, capacity, s) <==> CanWrite(m, capacity, s))
  {
    var m := Pow2(shift);
    ShiftRightIs(s, shift);
    AndLow(s, shift);
    AndLow(OffsetRead(m, s), shift);
    AndLow(OffsetWrite(m, s) + (m - capacity), shift);
  }

  /** So are the two advances, wherever both cursors fit into the stamp. */
  lemma AdvectReadAgrees(shift: nat, s: nat)
    requires shift <= 32
    ensures AdvectReadBits(shift, s) == AdvectRead(Pow2(shift), s)
  {
    hide And, Or, ShiftLeft, ShiftRight, Cast, Pow2;
    var m := Pow2(shift);
    var r, w := (s / m + 1) % m, s % m;
    ShiftRightIs(s, shift);
    AndLow(s, shift);
    AndLow(s / m + 1, shift);
    HighFits(shift, r);
    OrAdds(r, shift, w);
  }

  lemma AdvectWriteAgrees(shift: nat, s: nat)
    requires shift <= 32
    ensures AdvectWriteBits(shift, s) == AdvectWrite(Pow2(shift), s)
  {
    hide And, Or, ShiftLeft, ShiftRight, Cast, Pow2;
    var m := Pow2(shift);
    var r, w := s / m % m, (s % m + 1) % m;
    ShiftRightIs(s, shift);
    AndLow(s, shift);
    AndLow(s % m + 1, shift);
    AndLow(s / m, shift);
    AndHigh(s, m - 1, shift);
    HighFits(shift, r);
    OrAdds(r, shift, w);
  }

  /** A cursor in the upper half of the stamp survives the cast. */
  lemma HighFits(shift: nat, r: nat)
    requires shift <= 32 && r < Pow2(shift)
    ensures ShiftLeft(r, shift) == r * Pow2(shift)
    ensures Cast(shift, ShiftLeft(r, shift)) == ShiftLeft(r, shift)
  {
    var m, bits := Pow2(shift), StampBits(shift);
    ShiftLeftIs(r, shift);
    PackBounded(m, r, 0);
    Pow2Adds(shift, shift);
    if shift + shift < bits {
      Pow2Grows(shift + shift, bits);
    }
    ModNear(r * m, Pow2(bits));
  }
}
