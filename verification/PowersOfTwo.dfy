/** Powers of two, and the alignment arithmetic that a buddy system rests on. */
module PowersOfTwo {

  function Pow2(n: nat): (p: nat)
    ensures p >= 1
  {
    if n == 0 then 1 else 2 * Pow2(n - 1)
  }

  lemma {:induction false} Pow2Monotone(a: nat, b: nat)
    requires a <= b
    ensures Pow2(a) <= Pow2(b)
  {
    if a < b {
      Pow2Monotone(a, b - 1);
    }
  }

  lemma {:induction false} Pow2Strict(a: nat, b: nat)
    requires a < b
    ensures 2 * Pow2(a) <= Pow2(b)
  {
    Pow2Monotone(a + 1, b);
  }

  lemma Pow2Inverse(a: nat, b: nat)
    requires Pow2(a) < Pow2(b)
    ensures a < b
  {
    if a >= b {
      Pow2Monotone(b, a);
      assert false;
    }
  }

  lemma Pow2Values()
    ensures Pow2(4) == 16 && Pow2(5) == 32 && Pow2(8) == 256 && Pow2(32) == 0x1_0000_0000
  {
    assert Pow2(4) == 16;
    Pow2Double(4);
    Pow2Double(8);
    Pow2Double(16);
  }

  lemma {:induction false} Pow2Double(n: nat)
    ensures Pow2(2 * n) == Pow2(n) * Pow2(n)
  {
    if n > 0 {
      Pow2Double(n - 1);
      assert Pow2(2 * n) == 4 * Pow2(2 * (n - 1));
    }
  }

  lemma MulAtLeast(d: int, m: int)
    requires d >= 1 && m > 0
    ensures d * m >= m
  {
  }

  lemma MulSmall(d: int, m: int)
    requires m > 0 && -m < d * m < m
    ensures d == 0
  {
    if d >= 1 {
      MulAtLeast(d, m);
      assert false;
    } else if d <= -1 {
      MulAtLeast(-d, m);
      assert false;
    }
  }

  lemma MulCancel(a: int, b: int, m: int)
    requires m > 0 && a * m < b * m
    ensures a + 1 <= b
  {
    if a >= b {
      MulMonotone(b, a, m);
      assert false;
    }
  }

  lemma MulMonotone(a: int, b: int, m: int)
    requires m > 0 && a <= b
    ensures a * m <= b * m
  {
  }

  lemma MultipleMod(q: int, m: int, r: int)
    requires 0 <= r < m
    ensures (q * m + r) % m == r && (q * m + r) / m == q
  {
    var x := q * m + r;
    var d := x / m - q;
    assert d * m == r - x % m;
    MulSmall(d, m);
  }

  /** A position aligned to 2^(k+1) is aligned to 2^k, and so is the position 2^k further on, which is not aligned to
      2^(k+1). */
  lemma AlignedHalves(o: nat, k: nat)
    requires o % Pow2(k + 1) == 0
    ensures o % Pow2(k) == 0 && (o + Pow2(k)) % Pow2(k) == 0 && (o + Pow2(k)) % Pow2(k + 1) == Pow2(k)
  {
    var m := Pow2(k);
    var q := o / (2 * m);
    assert o == q * (2 * m);
    assert o == (2 * q) * m + 0;
    MultipleMod(2 * q, m, 0);
    assert o + m == (2 * q + 1) * m + 0;
    MultipleMod(2 * q + 1, m, 0);
    MultipleMod(q, 2 * m, m);
  }

  lemma {:induction false} AlignedTo32(o: nat, k: nat)
    requires k >= 5 && o % Pow2(k) == 0
    ensures o % 32 == 0
    decreases k
  {
    if k == 5 {
      assert Pow2(5) == 32;
    } else {
      AlignedHalves(o, k - 1);
      AlignedTo32(o, k - 1);
    }
  }

  /** Every larger power of two is a multiple of a smaller one. */
  lemma {:induction false} MultipleOf(j: nat, k: nat) returns (r: nat)
    requires j <= k
    ensures Pow2(k) == r * Pow2(j)
    decreases k - j
  {
    if j == k {
      r := 1;
    } else {
      var r' := MultipleOf(j, k - 1);
      r := 2 * r';
      Doubled(r', Pow2(j));
    }
  }

  lemma Doubled(r: int, m: int)
    ensures (2 * r) * m == 2 * (r * m)
  {
  }

  lemma MulAssociate(a: int, r: int, m: int)
    ensures a * (r * m) == (a * r) * m && (a * r) * m + r * m == (a * r + r) * m
  {
  }

  lemma ZeroMod(m: nat)
    requires m > 0
    ensures 0 % m == 0
  {
  }

  lemma DivExact(x: int, m: int)
    requires m > 0 && x % m == 0
    ensures x == (x / m) * m
  {
  }

  lemma Fits(a: int, r: int, b: int, m: int)
    requires m > 0 && b * m < a * (r * m) + r * m
    ensures b * m + m <= a * (r * m) + r * m
  {
    MulAssociate(a, r, m);
    MulCancel(b, a * r + r, m);
    MulMonotone(b + 1, a * r + r, m);
    OneMore(b, m);
  }

  lemma OneMore(b: int, m: int)
    ensures (b + 1) * m == b * m + m
  {
  }

  /** A multiple of 2^j that lies less than 2^k past a multiple of 2^k, j <= k, has room for 2^j before 2^k past it. */
  lemma AlignedFits(o: nat, k: nat, p: nat, j: nat)
    requires j <= k && o % Pow2(k) == 0 && p % Pow2(j) == 0 && o <= p < o + Pow2(k)
    ensures p + Pow2(j) <= o + Pow2(k)
  {
    var r := MultipleOf(j, k);
    DivExact(o, Pow2(k));
    DivExact(p, Pow2(j));
    Fits(o / Pow2(k), r, p / Pow2(j), Pow2(j));
  }

  lemma {:induction false} AlignedDown(o: nat, j: nat, k: nat)
    requires j <= k && o % Pow2(k) == 0
    ensures o % Pow2(j) == 0
    decreases k
  {
    if j < k {
      AlignedHalves(o, k - 1);
      AlignedDown(o, j, k - 1);
    }
  }
}
