/** Rounding up with a bit mask, which is only right for powers of two. */
module Alignments {
  import opened PowersOfTwo

  /** `value & ~mask`. */
  function AndNot(value: nat, mask: nat): nat
  {
    if value == 0 then 0
    else 2 * AndNot(value / 2, mask / 2) + (if value % 2 == 1 && mask % 2 == 0 then 1 else 0)
  }

  /** Whether bit i is set. */
  predicate Bit(x: nat, i: nat)
    decreases i
  {
    if i == 0 then x % 2 == 1 else Bit(x / 2, i - 1)
  }

  lemma {:induction false} AndNotBits(value: nat, mask: nat, i: nat)
    ensures Bit(AndNot(value, mask), i) <==> Bit(value, i) && !Bit(mask, i)
    decreases i
  {
    if value == 0 {
      NoBits(i);
    } else if i > 0 {
      AndNotBits(value / 2, mask / 2, i - 1);
    }
  }

  lemma {:induction false} NoBits(i: nat)
    ensures !Bit(0, i)
    decreases i
  {
    if i > 0 {
      NoBits(i - 1);
    }
  }

  /** `ESB_ALIGN`. */
  function Align(value: nat, alignment: nat): (r: nat)
    requires alignment > 0
    ensures value <= r <= value + alignment
  {
    AndNotBounds(value, alignment - 1);
    if value % alignment != 0 then AndNot(value, alignment - 1) + alignment else value
  }

  ghost predicate PowerOfTwo(n: nat)
  {
    exists k :: n == Pow2(k)
  }

  lemma {:induction false} AndNotBounds(value: nat, mask: nat)
    ensures AndNot(value, mask) <= value <= AndNot(value, mask) + mask
  {
    if value > 0 {
      AndNotBounds(value / 2, mask / 2);
    }
  }

  lemma {:induction false} NoMask(value: nat)
    ensures AndNot(value, 0) == value
  {
    if value > 0 {
      NoMask(value / 2);
    }
  }

  lemma {:induction false} AndNotOdd(value: nat, mask: nat, half: nat)
    requires mask == 2 * half + 1
    ensures AndNot(value, mask) == 2 * AndNot(value / 2, half)
  {
    assert mask / 2 == half && mask % 2 == 1;
  }

  /** A mask of ones cuts off what is above a multiple of the power of two. */
  lemma {:induction false} MaskCuts(value: nat, k: nat) returns (q: nat)
    ensures AndNot(value, Pow2(k) - 1) == q * Pow2(k) <= value < q * Pow2(k) + Pow2(k)
    decreases k
  {
    if k == 0 {
      NoMask(value);
      q := value;
    } else {
      q := MaskCuts(value / 2, k - 1);
      AndNotOdd(value, Pow2(k) - 1, Pow2(k - 1) - 1);
      Twice(q, Pow2(k - 1));
    }
  }

  lemma Twice(q: int, m: int)
    ensures q * (2 * m) == 2 * (q * m)
  {
  }

  lemma MaskRoundsDown(value: nat, k: nat)
    ensures AndNot(value, Pow2(k) - 1) == value - value % Pow2(k)
  {
    var q := MaskCuts(value, k);
    MultipleMod(q, Pow2(k), value - q * Pow2(k));
  }

  lemma RoundedUp(value: nat, m: nat)
    requires m > 0
    ensures (value - value % m + m) % m == 0
  {
    var q := value / m;
    OneMore(q, m);
    assert value == q * m + value % m;
    MultipleMod(q + 1, m, 0);
  }

  lemma AlignPower(value: nat, alignment: nat)
    requires PowerOfTwo(alignment)
    ensures Align(value, alignment) % alignment == 0 && Align(value, alignment) < value + alignment
  {
    var k :| alignment == Pow2(k);
    MaskRoundsDown(value, k);
    RoundedUp(value, alignment);
  }

  /** The power of two above a number. */
  lemma {:induction false} Above(n: nat) returns (k: nat)
    requires n > 0
    ensures Pow2(k) <= n < Pow2(k + 1)
  {
    if n == 1 {
      k := 0;
    } else {
      var k' := Above(n / 2);
      k := k' + 1;
    }
  }

  lemma {:induction false} MaskBelow(n: nat, mask: nat)
    requires mask < Pow2(n)
    ensures AndNot(Pow2(n), mask) == Pow2(n)
    decreases n
  {
    if n > 0 {
      MaskBelow(n - 1, mask / 2);
    } else {
      NoMask(1);
    }
  }

  lemma NotAligned(n: nat, alignment: nat)
    requires Pow2(n) < alignment < Pow2(n + 1)
    ensures Align(Pow2(n + 1), alignment) % alignment != 0
  {
    var v := Pow2(n + 1);
    MaskBelow(n + 1, alignment - 1);
    MultipleMod(1, alignment, v - alignment);
    MultipleMod(2, alignment, v - alignment);
  }

  /** Every value is rounded up to a multiple of the alignment exactly if that is a power of two. */
  lemma AlignsExactly(alignment: nat)
    requires alignment > 0
    ensures (forall value :: Align(value, alignment) % alignment == 0) <==> PowerOfTwo(alignment)
  {
    if PowerOfTwo(alignment) {
      forall value
        ensures Align(value, alignment) % alignment == 0
      {
        AlignPower(value, alignment);
      }
    } else {
      var n := Above(alignment);
      assert alignment != Pow2(n);
      NotAligned(n, alignment);
    }
  }

  lemma Misaligned()
    ensures Align(25, 24) == 32 && Align(25, 24) % 24 != 0
  {
    assert AndNot(3, 2) == 1;
    assert AndNot(6, 5) == 2;
    assert AndNot(25, 23) == 8;
  }

  lemma SumAligned(a: nat, b: nat, m: nat)
    requires m > 0 && a % m == 0 && b % m == 0
    ensures (a + b) % m == 0
  {
    var p, q := a / m, b / m;
    assert a == p * m && b == q * m;
    assert (p + q) * m + 0 == a + b;
    MultipleMod(p + q, m, 0);
  }
}
