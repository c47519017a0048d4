/** Machine integers, powers of two and bitwise or. */
module Numbers {

  const TWO_32: nat := 0x1_0000_0000
  const TWO_63: nat := 0x8000_0000_0000_0000
  const TWO_64: nat := 0x1_0000_0000_0000_0000

  predicate Int64(a: int) {
    -(TWO_63 as int) <= a < TWO_63
  }

  /** A 64-bit signed result, wrapped around. */
  function Wrap64(d: int): int {
    (d + TWO_63) % (2 * TWO_63) - TWO_63
  }

  function Pow2(k: nat): (r: nat)
    ensures r > 0
  {
    if k == 0 then 1 else 2 * Pow2(k - 1)
  }

  lemma {:induction false} Pow2Monotone(a: nat, b: nat)
    requires a <= b
    ensures Pow2(a) <= Pow2(b)
    decreases b
  {
    if a < b {
      Pow2Monotone(a, b - 1);
    }
  }

  lemma {:induction false} Pow2Sum(a: nat, b: nat)
    ensures Pow2(a + b) == Pow2(a) * Pow2(b)
    decreases b
  {
    if b > 0 {
      Pow2Sum(a, b - 1);
      assert Pow2(a) * Pow2(b) == 2 * (Pow2(a) * Pow2(b - 1));
    }
  }

  // ---------- Division ----------

  lemma DivideTwice(v: nat, d: nat, p: nat)
    requires d > 0 && p > 0
    ensures d * p > 0 && v / d / p == v / (d * p)
  {
    Divided(v, d);
    Divided(v / d, p);
    InTwoDigits(v, d, p, v / d, v % d, v / d / p, v / d % p);
    QuotientIs(v, d * p, v / d / p, d * (v / d % p) + v % d);
  }

  lemma Divided(v: nat, d: nat)
    requires d > 0
    ensures v == d * (v / d) + v % d && v % d < d
  {
  }

  lemma InTwoDigits(v: nat, d: nat, p: nat, a: nat, x: nat, q: nat, y: nat)
    requires v == d * a + x && x < d && a == p * q + y && y < p
    ensures v == d * p * q + (d * y + x) && d * y + x < d * p
  {
    NextMultiple(d, y, p);
    assert d * (p * q + y) == d * (p * q) + d * y;
    assert d * (p * q) == d * p * q;
  }

  lemma QuotientIs(v: nat, d: nat, q: nat, r: nat)
    requires v == d * q + r && r < d
    ensures v / d == q
  {
    SameQuotient(d, q, r, v / d, v % d);
  }

  lemma SameQuotient(d: nat, q: nat, r: nat, q': nat, r': nat)
    requires d * q + r == d * q' + r' && r < d && r' < d
    ensures q == q'
  {
    if q < q' {
      NextMultiple(d, q, q');
    } else if q' < q {
      NextMultiple(d, q', q);
    }
  }

  lemma NextMultiple(d: nat, a: nat, b: nat)
    requires a < b
    ensures d * b >= d * a + d
  {
    var n := b - a - 1;
    assert d * b == d * (a + 1 + n) == d * (a + 1) + d * n;
  }

  // ---------- Bitwise or ----------

  /** Bitwise or of two naturals, one bit at a time. */
  function BitOr(a: nat, b: nat): nat
    decreases a + b
  {
    if a == 0 then b
    else if b == 0 then a
    else 2 * BitOr(a / 2, b / 2) + (if a % 2 == 1 || b % 2 == 1 then 1 else 0)
  }

  /** The or of an even number and another one, by the other one's lowest bit. */
  lemma OrStep(h: nat, b: nat)
    ensures BitOr(2 * h, b) == 2 * BitOr(h, b / 2) + b % 2
  {
    assert 2 * h / 2 == h && 2 * h % 2 == 0;
  }

  lemma ShiftedBy(a: nat, k: nat)
    requires k > 0
    ensures a * Pow2(k) == 2 * (a * Pow2(k - 1))
  {
  }

  /** When the low k bits of one operand are zero and the other has only those, or is addition. */
  lemma {:induction false} OrOfDisjointBits(a: nat, b: nat, k: nat)
    requires b < Pow2(k)
    ensures BitOr(a * Pow2(k), b) == a * Pow2(k) + b
    decreases k
  {
    if k > 0 {
      var h := a * Pow2(k - 1);
      ShiftedBy(a, k);
      OrOfDisjointBits(a, b / 2, k - 1);
      OrStep(h, b);
    }
  }

  lemma OrOfDoubles(x: nat, y: nat)
    ensures BitOr(2 * x, 2 * y) == 2 * BitOr(x, y)
  {
    OrStep(x, 2 * y);
    assert 2 * y / 2 == y && 2 * y % 2 == 0;
  }

  /** A common shift can be taken out of an or. */
  lemma {:induction false} OrOfShifted(a: nat, b: nat, k: nat)
    ensures BitOr(a * Pow2(k), b * Pow2(k)) == BitOr(a, b) * Pow2(k)
    decreases k
  {
    if k > 0 {
      ShiftedBy(a, k);
      ShiftedBy(b, k);
      ShiftedBy(BitOr(a, b), k);
      OrOfShifted(a, b, k - 1);
      OrOfDoubles(a * Pow2(k - 1), b * Pow2(k - 1));
    }
  }

  lemma OrOne(a: nat)
    ensures BitOr(a, 1) == if a % 2 == 0 then a + 1 else a
  {
    if a >= 2 {
      assert BitOr(a / 2, 0) == a / 2;
    }
  }

  lemma {:induction false} OrStaysBelow(a: nat, b: nat, k: nat)
    requires a < Pow2(k) && b < Pow2(k)
    ensures BitOr(a, b) < Pow2(k)
    decreases k
  {
    if a > 0 && b > 0 {
      OrStaysBelow(a / 2, b / 2, k - 1);
    }
  }
}
