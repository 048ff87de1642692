/** Finite sums of integer functions, with the reindexings the transforms use. */
module Sums {
  import opened Integers

  /** `f(0) + ... + f(n-1)`. */
  ghost function Sum(n: nat, f: int -> int): int {
    if n == 0 then 0 else Sum(n - 1, f) + f(n - 1)
  }

  lemma {:induction false} SumExt(n: nat, f: int -> int, g: int -> int)
    requires forall i :: 0 <= i < n ==> f(i) == g(i)
    ensures Sum(n, f) == Sum(n, g)
  {
    if n > 0 {
      SumExt(n - 1, f, g);
    }
  }

  lemma {:induction false} SumCong(n: nat, f: int -> int, g: int -> int, m: int)
    requires forall i :: 0 <= i < n ==> Cong(f(i), g(i), m)
    ensures Cong(Sum(n, f), Sum(n, g), m)
  {
    if n == 0 {
      CongRefl(0, m);
    } else {
      SumCong(n - 1, f, g, m);
      CongAdd(Sum(n - 1, f), Sum(n - 1, g), f(n - 1), g(n - 1), m);
    }
  }

  lemma {:induction false} SumZero(n: nat, f: int -> int)
    requires forall i :: 0 <= i < n ==> f(i) == 0
    ensures Sum(n, f) == 0
  {
    if n > 0 {
      SumZero(n - 1, f);
    }
  }

  lemma {:induction false} SumAdd(n: nat, f: int -> int, g: int -> int, h: int -> int)
    requires forall i :: 0 <= i < n ==> h(i) == f(i) + g(i)
    ensures Sum(n, h) == Sum(n, f) + Sum(n, g)
  {
    if n > 0 {
      SumAdd(n - 1, f, g, h);
    }
  }

  lemma {:induction false} SumScale(n: nat, c: int, f: int -> int, g: int -> int)
    requires forall i :: 0 <= i < n ==> g(i) == c * f(i)
    ensures Sum(n, g) == c * Sum(n, f)
  {
    if n > 0 {
      SumScale(n - 1, c, f, g);
      assert c * (Sum(n - 1, f) + f(n - 1)) == c * Sum(n - 1, f) + c * f(n - 1);
    }
  }

  /** A sum with at most one non-zero term. */
  lemma {:induction false} SumSingle(n: nat, f: int -> int, k: int)
    requires 0 <= k < n
    requires forall i :: 0 <= i < n && i != k ==> f(i) == 0
    ensures Sum(n, f) == f(k)
  {
    if k == n - 1 {
      SumZero(n - 1, f);
    } else {
      SumSingle(n - 1, f, k);
    }
  }

  lemma {:induction false} SumSingleCong(n: nat, f: int -> int, k: int, m: int)
    requires 0 <= k < n
    requires forall i :: 0 <= i < n && i != k ==> Cong(f(i), 0, m)
    ensures Cong(Sum(n, f), f(k), m)
  {
    var g := i => if i == k then f(k) else 0;
    CongRefl(f(k), m);
    SumCong(n, f, g, m);
    SumSingle(n, g, k);
  }

  lemma {:induction false} SumBound(n: nat, f: int -> int, B: int)
    requires forall i :: 0 <= i < n ==> -B <= f(i) <= B
    ensures -(n * B) <= Sum(n, f) <= n * B
  {
    if n > 0 {
      SumBound(n - 1, f, B);
      assert n * B == (n - 1) * B + B;
    }
  }

  // ---------------------------------------------------- moving the summation

  /** `i => f(i + s)`. */
  ghost function Shift(f: int -> int, s: int): int -> int {
    i => f(i + s)
  }

  lemma {:induction false} SumSplit(m: nat, n: nat, f: int -> int)
    ensures Sum(m + n, f) == Sum(m, f) + Sum(n, Shift(f, m))
  {
    if n > 0 {
      SumSplit(m, n - 1, f);
      assert Shift(f, m)(n - 1) == f(n - 1 + m);
    }
  }

  lemma {:induction false} SumFirst(n: nat, f: int -> int)
    requires n > 0
    ensures Sum(n, f) == f(0) + Sum(n - 1, Shift(f, 1))
  {
    SumSplit(1, n - 1, f);
    assert Sum(1, f) == Sum(0, f) + f(0);
  }

  ghost predicate PeriodAt(f: int -> int, n: int, m: int, i: int) {
    Cong(f(i + n), f(i), m)
  }

  ghost predicate Periodic(f: int -> int, n: int, m: int) {
    forall i: int :: PeriodAt(f, n, m, i)
  }

  lemma ShiftStep(n: nat, f: int -> int, s: int, m: int)
    requires n > 0 && Periodic(f, n, m)
    ensures Cong(Sum(n, Shift(f, s + 1)), Sum(n, Shift(f, s)), m)
  {
    var g, h := Shift(f, s), Shift(f, s + 1);
    SumFirst(n, g);
    forall i | 0 <= i < n - 1
      ensures Shift(g, 1)(i) == h(i)
    {
      assert i + 1 + s == i + (s + 1);
    }
    SumExt(n - 1, Shift(g, 1), h);
    assert PeriodAt(f, n, m, s);
    assert h(n - 1) == f(s + n) && g(0) == f(s);
    CongRefl(Sum(n - 1, h), m);
    CongAdd(Sum(n - 1, h), Sum(n - 1, h), h(n - 1), g(0), m);
  }

  lemma {:induction false} SumPeriodicUp(n: nat, f: int -> int, s: int, k: nat, m: int)
    requires n > 0 && Periodic(f, n, m)
    ensures Cong(Sum(n, Shift(f, s + k)), Sum(n, Shift(f, s)), m)
  {
    if k == 0 {
      CongRefl(Sum(n, Shift(f, s)), m);
    } else {
      SumPeriodicUp(n, f, s, k - 1, m);
      ShiftStep(n, f, s + k - 1, m);
      CongTrans(Sum(n, Shift(f, s + k)), Sum(n, Shift(f, s + k - 1)), Sum(n, Shift(f, s)), m);
    }
  }

  /** A sum over one period does not depend on where the period starts. */
  lemma SumPeriodic(n: nat, f: int -> int, s: int, m: int)
    requires n > 0 && Periodic(f, n, m)
    ensures Cong(Sum(n, Shift(f, s)), Sum(n, f), m)
  {
    SumExt(n, Shift(f, 0), f);
    if s >= 0 {
      SumPeriodicUp(n, f, 0, s, m);
    } else {
      SumPeriodicUp(n, f, s, -s, m);
      CongSym(Sum(n, f), Sum(n, Shift(f, s)), m);
    }
  }

  lemma {:induction false} SumReverse(n: nat, f: int -> int, g: int -> int)
    requires forall i :: 0 <= i < n ==> g(i) == f(n - 1 - i)
    ensures Sum(n, g) == Sum(n, f)
  {
    if n > 0 {
      SumFirst(n, f);
      forall i | 0 <= i < n - 1
        ensures g(i) == Shift(f, 1)(n - 1 - 1 - i)
      {
        assert n - 1 - 1 - i + 1 == n - 1 - i;
      }
      SumReverse(n - 1, Shift(f, 1), g);
    }
  }

  /** Even-indexed terms, then odd-indexed terms. */
  lemma {:induction false} SumEvenOdd(n: nat, f: int -> int, e: int -> int, o: int -> int)
    requires forall i :: 0 <= i < n ==> e(i) == f(2 * i) && o(i) == f(2 * i + 1)
    ensures Sum(2 * n, f) == Sum(n, e) + Sum(n, o)
  {
    if n > 0 {
      SumEvenOdd(n - 1, f, e, o);
      assert Sum(2 * n, f) == Sum(2 * n - 1, f) + f(2 * n - 1);
      assert Sum(2 * n - 1, f) == Sum(2 * n - 2, f) + f(2 * n - 2);
      assert e(n - 1) == f(2 * n - 2) && o(n - 1) == f(2 * n - 1);
    }
  }

  // ------------------------------------------------------------- double sums

  ghost function Row(f: (int, int) -> int, i: int): int -> int {
    j => f(i, j)
  }

  ghost function Col(f: (int, int) -> int, j: int): int -> int {
    i => f(i, j)
  }

  lemma {:induction false} SumSwap(m: nat, n: nat, f: (int, int) -> int, r: int -> int, c: int -> int)
    requires forall i :: 0 <= i < m ==> r(i) == Sum(n, Row(f, i))
    requires forall j :: 0 <= j < n ==> c(j) == Sum(m, Col(f, j))
    ensures Sum(m, r) == Sum(n, c)
  {
    if m == 0 {
      SumZero(n, c);
    } else {
      var c' := j => Sum(m - 1, Col(f, j));
      forall j | 0 <= j < n
        ensures c(j) == c'(j) + Row(f, m - 1)(j)
      {
        assert Sum(m, Col(f, j)) == Sum(m - 1, Col(f, j)) + Col(f, j)(m - 1);
      }
      SumSwap(m - 1, n, f, r, c');
      SumAdd(n, c', Row(f, m - 1), c);
    }
  }

  // ---------------------------------------------------------- geometric sums

  ghost function Powers(x: int): int -> int {
    i => if i < 0 then 0 else Pow(x, i)
  }

  lemma {:induction false} Geometric(n: nat, x: int)
    ensures (x - 1) * Sum(n, Powers(x)) == Pow(x, n) - 1
  {
    if n > 0 {
      Geometric(n - 1, x);
      var s, p := Sum(n - 1, Powers(x)), Pow(x, n - 1);
      assert Powers(x)(n - 1) == p;
      assert (x - 1) * (s + p) == (x - 1) * s + x * p - p;
    }
  }
}
