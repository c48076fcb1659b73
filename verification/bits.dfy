/** Shifts and exclusive-or on unbounded naturals. */
module Bits {
  function Pow2(k: nat): (p: nat)
    ensures p >= 1
  {
    if k == 0 then 1 else 2 * Pow2(k - 1)
  }

  /** a >> k */
  function ShiftRight(a: nat, k: nat): nat {
    Quotient(a, Pow2(k))
  }

  function Quotient(a: nat, m: nat): nat
    requires m > 0
  {
    a / m
  }

  function Xor(a: nat, b: nat): nat
    decreases a + b
  {
    if a == 0 && b == 0 then 0 else (a % 2 + b % 2) % 2 + 2 * Xor(a / 2, b / 2)
  }

  lemma XorHalves(a: nat, b: nat)
    ensures Xor(a, b) / 2 == Xor(a / 2, b / 2) && Xor(a, b) % 2 == (a % 2 + b % 2) % 2
  {
  }

  lemma BitTwice(p: nat, q: nat)
    requires p < 2 && q < 2
    ensures ((p + q) % 2 + q) % 2 == p
  {
    if p == 0 {
      assert q == 0 || q == 1;
    }
  }

  lemma {:induction false} XorInvolutive(a: nat, b: nat)
    ensures Xor(Xor(a, b), b) == a
    decreases a + b
  {
    if a != 0 || b != 0 {
      hide Xor;
      var x := Xor(a, b);
      XorHalves(a, b);
      XorInvolutive(a / 2, b / 2);
      XorHalves(x, b);
      BitTwice(a % 2, b % 2);
      assert Xor(x, b) / 2 == a / 2 && Xor(x, b) % 2 == a % 2;
    }
  }

  lemma {:induction false} XorMoves(a: nat, b: nat)
    requires Xor(a, b) == a
    ensures b == 0
    decreases a + b
  {
    if a != 0 || b != 0 {
      XorHalves(a, b);
      XorMoves(a / 2, b / 2);
    }
  }

  lemma MulStep(x: nat, y: nat, m: nat)
    requires x < y
    ensures x * m + m <= y * m
  {
    assert y * m == x * m + m + (y - x - 1) * m;
  }

  lemma QuotientIs(h: nat, m: nat, q: nat, r: nat)
    requires m > 0 && h == q * m + r && r < m
    ensures h / m == q
  {
    var x := h / m;
    assert x * m <= h < x * m + m;
    if x > q {
      MulStep(q, x, m);
    } else if x < q {
      MulStep(x, q, m);
    }
  }

  lemma MulNext(x: nat, m: nat)
    ensures (x + 1) * m == x * m + m
  {
  }

  lemma ShiftedRemainder(a: nat, d: nat, m: nat)
    requires 1 <= d < m
    ensures (a + d) % m == if a % m + d < m then a % m + d else a % m + d - m
  {
    var q, x := a / m, a % m;
    assert a == q * m + x;
    MulNext(q, m);
    if x + d < m {
      QuotientIs(a + d, m, q, x + d);
    } else {
      QuotientIs(a + d, m, q + 1, x + d - m);
    }
    assert (a + d) == (a + d) / m * m + (a + d) % m;
  }

  lemma HalfOfBlock(a: nat, m: nat)
    requires m > 0
    ensures a / (2 * m) == a / 2 / m
  {
    var q, h := a / 2 / m, a / 2;
    var r := h % m;
    assert h == q * m + r;
    assert q * (2 * m) == 2 * (q * m);
    QuotientIs(a, 2 * m, q, 2 * r + a % 2);
  }

  /** A key below 2^k permutes each block of 2^k numbers. */
  lemma {:induction false} XorStaysInBlock(a: nat, key: nat, k: nat)
    requires key < Pow2(k)
    ensures Xor(a, key) / Pow2(k) == a / Pow2(k)
    decreases k
  {
    if k == 0 {
      XorZero(a);
    } else {
      XorHalves(a, key);
      XorStaysInBlock(a / 2, key / 2, k - 1);
      HalfOfBlock(a, Pow2(k - 1));
      HalfOfBlock(Xor(a, key), Pow2(k - 1));
    }
  }

  lemma {:induction false} XorZero(a: nat)
    ensures Xor(a, 0) == a
  {
    if a != 0 {
      XorZero(a / 2);
    }
  }

  /** Below a limit made of whole blocks, xor-ing with the key stays below the limit. */
  lemma XorBelowLimit(a: nat, key: nat, k: nat, blocks: nat)
    requires key < Pow2(k) && a < blocks * Pow2(k)
    ensures Xor(a, key) < blocks * Pow2(k)
  {
    XorStaysInBlock(a, key, k);
    BlockBelow(a, Pow2(k), blocks);
    BlockBelow(Xor(a, key), Pow2(k), blocks);
  }

  lemma BlockBelow(a: nat, m: nat, blocks: nat)
    requires m > 0
    ensures a < blocks * m <==> a / m < blocks
  {
    var q := a / m;
    assert q * m <= a < q * m + m;
    if q < blocks {
      MulStep(q, blocks, m);
    } else if blocks < q {
      MulStep(blocks, q, m);
    }
  }

  lemma {:induction false} Pow2Sum(j: nat, k: nat)
    ensures Pow2(j + k) == Pow2(j) * Pow2(k)
  {
    if j > 0 {
      Pow2Sum(j - 1, k);
    }
  }

  lemma {:induction false} Pow2Monotone(j: nat, k: nat)
    requires j <= k
    ensures Pow2(j) <= Pow2(k)
    decreases k
  {
    if j < k {
      Pow2Monotone(j, k - 1);
    }
  }
}
