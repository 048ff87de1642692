/** Evaluation of a polynomial at a number, modulo q. */
module Evaluation {
  import opened Integers
  import opened Sums
  import opened Negacyclic
  import opened Substitution

  ghost function Eval(a: Poly, x: int): int
    requires |a| > 0
  {
    Lin(a, Powers(x))
  }

  lemma EvalCong(a: Poly, x: int, y: int, q: int)
    requires |a| > 0 && Cong(x, y, q)
    ensures Cong(Eval(a, x), Eval(a, y), q)
  {
    forall i | 0 <= i < |a| ensures Cong(Powers(x)(i), Powers(y)(i), q) {
      CongPow(x, y, i, q);
    }
    LinCong(a, Powers(x), Powers(y), q);
  }

  lemma EvalPolyCong(a: Poly, b: Poly, x: int, q: int)
    requires |a| > 0 && PCong(a, b, q)
    ensures Cong(Eval(a, x), Eval(b, x), q)
  {
    forall i | 0 <= i < |a|
      ensures Cong(LinTerm(a, Powers(x))(i), LinTerm(b, Powers(x))(i), q)
    {
      CoefAt(a, i);
      CoefAt(b, i);
      CongRefl(Pow(x, i), q);
      CongMul(a[i], b[i], Pow(x, i), Pow(x, i), q);
    }
    SumCong(|a|, LinTerm(a, Powers(x)), LinTerm(b, Powers(x)), q);
  }

  lemma EvalOne(a: Poly, x: int)
    requires |a| == 1
    ensures Eval(a, x) == a[0]
  {
    var f := LinTerm(a, Powers(x));
    CoefAt(a, 0);
    assert Sum(1, f) == Sum(0, f) + f(0);
    assert f(0) == a[0] * Pow(x, 0);
  }

  // ------------------------------------------- roots of X^N + 1: ring homomorphism

  /** e => x^(e mod 2n). */
  ghost function CyclicPowers(x: int, n: nat): int -> int
    requires n > 0
  {
    e => (DivModId(e, 2 * n); Pow(x, e % (2 * n)))
  }

  ghost predicate RootOfMinusOne(x: int, n: nat, q: int) {
    Cong(Pow(x, n), -1, q)
  }

  lemma RootFull(x: int, n: nat, q: int)
    requires RootOfMinusOne(x, n, q)
    ensures Cong(Pow(x, 2 * n), 1, q)
  {
    PowAdd(x, n, n);
    CongMul(Pow(x, n), -1, Pow(x, n), -1, q);
  }

  lemma CyclicPowersAnti(x: int, n: nat, q: int)
    requires n > 0 && RootOfMinusOne(x, n, q)
    ensures Anti(CyclicPowers(x, n), n, q)
  {
    var phi := CyclicPowers(x, n);
    forall e: int
      ensures AntiAt(phi, n, q, e)
    {
      CyclicStep(x, n, q, e);
    }
  }

  lemma CyclicStep(x: int, n: nat, q: int, e: int)
    requires n > 0 && RootOfMinusOne(x, n, q)
    ensures Cong(CyclicPowers(x, n)(e + n), -CyclicPowers(x, n)(e), q)
  {
    DivModId(e, 2 * n);
    var k, r := e / (2 * n), e % (2 * n);
    if r < n {
      DivModUnique(e + n, 2 * n, k, r + n);
      PowAdd(x, n, r);
      CongRefl(Pow(x, r), q);
      CongMul(Pow(x, n), -1, Pow(x, r), Pow(x, r), q);
    } else {
      NextPeriod(e, n, k, r);
      DivModUnique(e + n, 2 * n, k + 1, r - n);
      PowAdd(x, n, r - n);
      CongRefl(Pow(x, r - n), q);
      CongMul(Pow(x, n), -1, Pow(x, r - n), Pow(x, r - n), q);
      CongNeg(Pow(x, r), -1 * Pow(x, r - n), q);
      CongSym(-Pow(x, r), Pow(x, r - n), q);
    }
  }

  lemma EvalCyclic(a: Poly, x: int)
    requires |a| > 0
    ensures Eval(a, x) == Lin(a, CyclicPowers(x, |a|))
  {
    forall i | 0 <= i < |a|
      ensures Powers(x)(i) == CyclicPowers(x, |a|)(i)
    {
      SmallMod(i, 2 * |a|);
    }
    LinExt(a, Powers(x), CyclicPowers(x, |a|));
  }

  lemma ConvCyclic(b: Poly, x: int, i: int)
    requires 0 <= i < |b|
    ensures Conv(b, CyclicPowers(x, |b|))(i) == Eval(b, x) * Pow(x, i)
  {
    hide Coef;
    var f := Shift(CyclicPowers(x, |b|), i);
    forall j | 0 <= j < |b|
      ensures f(j) == Pow(x, i) * Powers(x)(j)
    {
      SmallMod(j + i, 2 * |b|);
      PowAdd(x, i, j);
    }
    LinScale(b, Pow(x, i), Powers(x), f);
    IntMulComm(Pow(x, i), Eval(b, x));
  }

  /** Evaluation at a root of X^N + 1 turns the negacyclic product into a product. */
  lemma EvalMul(a: Poly, b: Poly, x: int, q: int)
    requires |a| == |b| > 0 && RootOfMinusOne(x, |a|, q)
    ensures Cong(Eval(PMul(a, b), x), Eval(a, x) * Eval(b, x), q)
  {
    hide Coef;
    var n, phi := |a|, CyclicPowers(x, |a|);
    CyclicPowersAnti(x, n, q);
    LinMul(a, b, phi, q);
    EvalCyclic(PMul(a, b), x);
    forall i | 0 <= i < n
      ensures Conv(b, phi)(i) == Eval(b, x) * Powers(x)(i)
    {
      ConvCyclic(b, x, i);
    }
    LinScale(a, Eval(b, x), Powers(x), Conv(b, phi));
    IntMulComm(Eval(b, x), Eval(a, x));
  }

  lemma CyclicMultiple(x: int, n: nat, q: int, k: nat, i: nat)
    requires n > 0 && RootOfMinusOne(x, n, q)
    ensures Cong(CyclicPowers(x, n)(k * i), Powers(Pow(x, k))(i), q)
  {
    PowMul(x, k, i);
    CyclicReduce(x, n, q, k * i);
  }

  lemma PowPeriod(x: int, p: nat, q: int, k: nat, r: nat)
    requires Cong(Pow(x, p), 1, q)
    ensures p * k >= 0 && Cong(Pow(x, r), Pow(x, p * k + r), q)
  {
    PowMul(x, p, k);
    CongPow(Pow(x, p), 1, k, q);
    PowOne(k);
    PowAdd(x, p * k, r);
    CongRefl(Pow(x, r), q);
    CongMul(Pow(x, p * k), 1, Pow(x, r), Pow(x, r), q);
    CongSym(Pow(x, p * k + r), Pow(x, r), q);
  }

  /** x^e depends only on e modulo 2n. */
  lemma CyclicReduce(x: int, n: nat, q: int, e: nat)
    requires n > 0 && RootOfMinusOne(x, n, q)
    ensures (DivModId(e, 2 * n); Cong(Pow(x, e % (2 * n)), Pow(x, e), q))
  {
    var p := 2 * n;
    DivModId(e, p);
    NonnegQuotient(e, p);
    RootFull(x, n, q);
    PowPeriod(x, p, q, e / p, e % p);
    IntMulComm(e / p, p);
  }

  lemma NonnegQuotient(e: int, p: int)
    requires e >= 0 && p > 0
    ensures e / p >= 0
  {}

  /** Evaluating a(X^k) at x is evaluating a at x^k. */
  lemma EvalSubst(a: Poly, k: nat, x: int, q: int)
    requires |a| > 0 && RootOfMinusOne(x, |a|, q)
    ensures Cong(Eval(PSubst(a, k), x), Eval(a, Pow(x, k)), q)
  {
    var n, phi := |a|, CyclicPowers(x, |a|);
    CyclicPowersAnti(x, n, q);
    EvalCyclic(PSubst(a, k), x);
    LinSubst(a, k, phi, q);
    forall i | 0 <= i < n
      ensures Cong(Dilate(phi, k)(i), Powers(Pow(x, k))(i), q)
    {
      CyclicMultiple(x, n, q, k, i);
    }
    LinCong(a, Dilate(phi, k), Powers(Pow(x, k)), q);
    CongTrans(Eval(PSubst(a, k), x), Lin(a, Dilate(phi, k)), Eval(a, Pow(x, k)), q);
  }

  // --------------------------------------------------------- even and odd halves

  ghost function Evens(p: Poly): (r: Poly)
    requires |p| % 2 == 0
    ensures |r| == |p| / 2 && forall j :: 0 <= j < |r| ==> r[j] == p[2 * j]
  {
    seq(|p| / 2, j requires 0 <= j < |p| / 2 => p[2 * j])
  }

  ghost function Odds(p: Poly): (r: Poly)
    requires |p| % 2 == 0
    ensures |r| == |p| / 2 && forall j :: 0 <= j < |r| ==> r[j] == p[2 * j + 1]
  {
    seq(|p| / 2, j requires 0 <= j < |p| / 2 => p[2 * j + 1])
  }

  lemma EvenEntry(p: Poly, y: int, j: int)
    requires |p| % 2 == 0 && 0 <= j < |p| / 2
    ensures LinTerm(Evens(p), Powers(y * y))(j) == LinTerm(p, Powers(y))(2 * j)
  {
    hide Coef;
    CoefAt(p, 2 * j);
    CoefAt(Evens(p), j);
    PowBase(y, y, j);
    PowAdd(y, j, j);
  }

  lemma OddEntry(p: Poly, y: int, j: int)
    requires |p| % 2 == 0 && 0 <= j < |p| / 2
    ensures y * LinTerm(Odds(p), Powers(y * y))(j) == LinTerm(p, Powers(y))(2 * j + 1)
  {
    hide Coef;
    CoefAt(p, 2 * j + 1);
    CoefAt(Odds(p), j);
    PowBase(y, y, j);
    PowAdd(y, j, j);
    OddTerm(y, p[2 * j + 1], Pow(y, 2 * j));
  }

  lemma EvalEvenOdd(p: Poly, y: int)
    requires |p| > 0 && |p| % 2 == 0
    ensures Eval(p, y) == Eval(Evens(p), y * y) + y * Eval(Odds(p), y * y)
  {
    hide LinTerm, Powers;
    var h, f := |p| / 2, LinTerm(p, Powers(y));
    var e, t := LinTerm(Evens(p), Powers(y * y)), LinTerm(Odds(p), Powers(y * y));
    var o := j => y * t(j);
    forall j | 0 <= j < h
      ensures e(j) == f(2 * j) && o(j) == f(2 * j + 1)
    {
      EvenEntry(p, y, j);
      OddEntry(p, y, j);
    }
    SumEvenOdd(h, f, e, o);
    SumScale(h, y, t, o);
  }

  lemma OddTerm(y: int, c: int, p: int)
    ensures y * (c * p) == c * (y * p)
  {}

  /** The two outputs of a butterfly evaluate the interleaved polynomial at y and at -y. */
  lemma Butterfly(p: Poly, y: int, y': int, u: int, v: int, w: int, q: int)
    requires |p| > 0 && |p| % 2 == 0
    requires Cong(u, Eval(Evens(p), y * y), q) && Cong(v, Eval(Odds(p), y * y), q)
    requires Cong(w, y, q) && Cong(y', -y, q)
    ensures Cong(u + w * v, Eval(p, y), q)
    ensures Cong(u - w * v, Eval(p, y'), q)
  {
    var E, O := Eval(Evens(p), y * y), Eval(Odds(p), y * y);
    EvalEvenOdd(p, y);
    CongMul(w, y, v, O, q);
    CongAdd(u, E, w * v, y * O, q);
    CongSub(u, E, w * v, y * O, q);
    assert -y * -y == y * y;
    EvalEvenOdd(p, -y);
    assert -y * O == -(y * O);
    CongSym(y', -y, q);
    EvalCong(p, -y, y', q);
    CongTrans(u - w * v, Eval(p, -y), Eval(p, y'), q);
  }
}
