/** Counting, for the progress arguments of the protocols. */
module Sums {
  /** The sum of the numbers from 2 to n + 1. */
  ghost function Sum(n: nat): nat
  {
    if n == 0 then 0 else n + 1 + Sum(n - 1)
  }

  lemma {:induction false} SumMonotone(m: nat, n: nat)
    requires m <= n
    ensures Sum(m) <= Sum(n)
    decreases n
  {
    if m < n {
      SumMonotone(m, n - 1);
    }
  }

  /** The pair (w, a) goes down in the lexicographic order, and with it a number. */
  lemma SumLess(w': nat, a': nat, w: nat, a: nat)
    requires a' <= w' && (w' < w || (w' == w && a' < a))
    ensures Sum(w') + a' < Sum(w) + a
  {
    if w' < w {
      SumMonotone(w', w - 1);
    }
  }

  lemma EmptyOrNot<T>(a: set<T>)
    ensures a == {} || exists c :: c in a
  {
    if !exists c :: c in a {
      assert a == {};
    }
  }

  ghost function Pick<T>(a: set<T>): (c: T)
    requires a != {}
    ensures c in a
  {
    EmptyOrNot(a);
    var c :| c in a;
    c
  }

  lemma CardUnion<T>(a: set<T>, b: set<T>)
    requires a !! b
    ensures |a + b| == |a| + |b|
  {
  }

  lemma CardDrop<T>(a: set<T>, c: T)
    ensures |a - {c}| == if c in a then |a| - 1 else |a|
  {
    if c !in a {
      assert a - {c} == a;
    }
  }

  lemma CardAdd<T>(a: set<T>, c: T)
    ensures |a + {c}| == if c in a then |a| else |a| + 1
  {
    if c in a {
      assert a + {c} == a;
    }
  }

  lemma WakeCards<T>(a: set<T>, b: set<T>, woken: set<T>)
    requires a !! b && woken <= a
    ensures |a - woken| + |b + woken| == |a| + |b|
  {
    CardUnion(b, woken);
    CardUnion(a - woken, woken);
    assert (a - woken) + woken == a;
  }
}
