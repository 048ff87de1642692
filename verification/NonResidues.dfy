/** Quadratic non-residues: every odd prime has one, and the least of them is small. */
module NonResidues {
  import opened Integers
  import opened NumberTheory
  import opened Lagrange

  /** x^((q-1)/2) = 1 modulo q. */
  ghost predicate Residue(x: int, q: int)
    requires q > 2
  {
    Cong(Pow(x, (q - 1) / 2), 1, q)
  }

  /** Euler: the power is 1 or -1. */
  lemma EulerDichotomy(x: int, q: int)
    requires IsPrime(q) && q > 2 && q % 2 == 1 && !Divides(q, x) && !Residue(x, q)
    ensures Cong(Pow(x, (q - 1) / 2), -1, q)
  {
    var h := (q - 1) / 2;
    var y := Pow(x, h);
    Fermat(q, x);
    PowAdd(x, h, h);
    assert h + h == q - 1;
    FactorSquare(y);
    hide IsPrime, Pow;
    PrimeDivides(q, y - 1, y + 1);
    assert y - -1 == y + 1;
  }

  lemma FactorSquare(y: int)
    ensures y * y - 1 == (y - 1) * (y + 1)
  {}

  lemma OneIsResidue(q: int)
    requires q > 2
    ensures Residue(1, q)
  {
    PowOne((q - 1) / 2);
    CongRefl(1, q);
  }

  // ------------------------------------------------------------------- existence

  /** The coefficients of x^k. */
  ghost function Monomial(k: nat): (c: seq<int>)
    ensures |c| == k + 1
  {
    if k == 0 then [1] else [0] + Monomial(k - 1)
  }

  lemma {:induction false} MonomialAt(k: nat, x: int)
    ensures PolyAt(Monomial(k), x) == Pow(x, k)
  {
    if k > 0 {
      assert Monomial(k)[1..] == Monomial(k - 1);
      MonomialAt(k - 1, x);
    }
  }

  /** The first `k` positive numbers. */
  ghost function Positives(k: nat): (xs: seq<int>)
    ensures |xs| == k && forall i :: 0 <= i < k ==> xs[i] == i + 1
  {
    seq(k, i => i + 1)
  }

  lemma PositivesDistinct(k: nat, q: int)
    requires k < q
    ensures DistinctPoints(Positives(k), q)
  {
    var xs := Positives(k);
    forall i, j | 0 <= i < |xs| && 0 <= j < |xs| && i != j ensures !Cong(xs[i], xs[j], q) {
      if Cong(xs[i], xs[j], q) {
        SmallMultiple(xs[i] - xs[j], q);
      }
    }
  }

  /** x^h - 1 has degree h, so it does not vanish at h + 1 distinct points. */
  lemma SomeNonResidue(q: int) returns (c: nat)
    requires IsPrime(q) && q > 2 && q % 2 == 1
    ensures 2 <= c < q && !Residue(c, q)
  {
    hide IsPrime, Cong, Weigh, DistinctPoints, PolyAt;
    var h := (q - 1) / 2;
    if forall k: nat :: 1 <= k <= h + 1 ==> Residue(k, q) {
      AllResidues(q, h);
      OneNotZero(q);
    }
    c :| 1 <= c <= h + 1 && !Residue(c, q);
    OneIsResidue(q);
  }

  lemma AllResidues(q: int, h: nat)
    requires IsPrime(q) && q > 2 && h == (q - 1) / 2 && h + 1 < q && h > 0
    requires forall k: nat :: 1 <= k <= h + 1 ==> Residue(k, q)
    ensures Cong(0, -1, q)
  {
    hide IsPrime, Cong, Weigh, DistinctPoints;
    var c, xs := [-1] + Monomial(h)[1..], Positives(h + 1);
    var zeros := seq(h + 1, _ => 0);
    assert c[1..] == Monomial(h)[1..] == Monomial(h - 1);
    forall i | 0 <= i < |xs| ensures Cong(Values(c, xs)[i], zeros[i], q) {
      MonomialAt(h - 1, xs[i]);
      assert PolyAt(c, xs[i]) == Pow(xs[i], h) - 1;
      assert Residue(i + 1, q);
      CongRefl(-1, q);
      CongAdd(Pow(xs[i], h), 1, -1, -1, q);
    }
    PositivesDistinct(h + 1, q);
    Interpolation(c, xs, q);
    WeighCong(xs, Values(c, xs), zeros, q);
    WeighZero(xs, zeros, q);
    CongSym(Weigh(xs, Values(c, xs), q), 0, q);
    CongTrans(0, Weigh(xs, Values(c, xs), q), -1, q);
  }

  lemma OneNotZero(q: int)
    requires q > 1
    ensures !Cong(0, -1, q)
  {
    if Cong(0, -1, q) {
      SmallMultiple(1, q);
    }
  }

  // ---------------------------------------------------------------- the least one

  ghost predicate LeastNonResidue(n: nat, q: int)
    requires q > 2
  {
    2 <= n < q && !Residue(n, q) && forall c: nat :: 1 <= c < n ==> Residue(c, q)
  }

  lemma {:induction false} Least(c: nat, q: int) returns (n: nat)
    requires q > 2 && 2 <= c < q && !Residue(c, q)
    ensures LeastNonResidue(n, q) && n <= c
  {
    hide Residue;
    if d: nat :| 1 <= d < c && !Residue(d, q) {
      OneIsResidue(q);
      n := Least(d, q);
    } else {
      n := c;
    }
  }

  /** The least non-residue n satisfies n (n - 1) <= q. */
  lemma LeastIsSmall(n: nat, q: int)
    requires IsPrime(q) && q > 2 && q % 2 == 1 && LeastNonResidue(n, q)
    ensures n * (n - 1) <= q
  {
    hide IsPrime, Residue;
    var k, r := q / n, q % n;
    DivModId(q, n);
    NoDivisor(q, n, k, r);
    var m := k + 1;
    if k < 0 {
      MulMono(k, -1, n);
    }
    assert m * n == q + (n - r);
    if m < n {
      ProductOfResidues(m, n, n - r, q);
      MinusOneNotOne(q);
    }
    MulMono(n - 1, k, n);
    IntMulSwap(n, n - 1);
  }

  lemma IntMulSwap(x: int, y: int)
    ensures x * y == y * x
  {}

  lemma NoDivisor(q: int, n: nat, k: int, r: int)
    requires IsPrime(q) && 2 <= n < q && q == k * n + r && r >= 0
    ensures r > 0
  {
    if r == 0 {
      DividesBy(n, q, k);
    }
  }

  /** m n = q + d with residues m and d would make n a residue. */
  lemma ProductOfResidues(m: nat, n: nat, d: nat, q: int)
    requires IsPrime(q) && q > 2 && q % 2 == 1 && LeastNonResidue(n, q)
    requires m * n == q + d && 1 <= d < n && 1 <= m < n
    ensures Cong(-1, 1, q)
  {
    hide IsPrime, Cong;
    var h := (q - 1) / 2;
    SmallNotDivisible(q, n);
    EulerDichotomy(n, q);
    assert Residue(m, q) && Residue(d, q);
    PowBase(m, n, h);
    CongBy(m * n, d, q, 1);
    CongPow(m * n, d, h, q);
    CongTrans(Pow(m * n, h), Pow(d, h), 1, q);
    CongMul(Pow(m, h), 1, Pow(n, h), -1, q);
    CongSym(Pow(m * n, h), -1, q);
    CongTrans(-1, Pow(m * n, h), 1, q);
  }

  lemma MinusOneNotOne(q: int)
    requires q > 2
    ensures !Cong(-1, 1, q)
  {
    if Cong(-1, 1, q) {
      SmallMultiple(-2, q);
    }
  }

  /** Below 99 990 000 the least non-residue is below 10 000. */
  lemma SmallNonResidue(q: int) returns (n: nat)
    requires IsPrime(q) && 2 < q < 99_990_000 && q % 2 == 1
    ensures 2 <= n < q && n < 10_000 && !Residue(n, q)
  {
    hide IsPrime, Residue;
    var c := SomeNonResidue(q);
    n := Least(c, q);
    LeastIsSmall(n, q);
    if n >= 10_000 {
      MulMono(9_999, n - 1, n);
    }
  }
}
