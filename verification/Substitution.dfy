/** The substitutions X -> X^k of Z[X]/(X^N + 1): ring homomorphisms that compose by
    multiplying exponents modulo 2N. */
module Substitution {
  import opened Integers
  import opened Sums
  import opened Negacyclic

  /** The constant coefficient of X^d. */
  ghost function Delta(n: nat, d: int): int
    requires n > 0
  {
    var r := d % (2 * n);
    if r == 0 then 1 else if r == n then -1 else 0
  }

  /** Where X^e lands when folded into [0, n), and with which sign. */
  function Pos(n: nat, e: int): (p: int)
    requires n > 0
    ensures 0 <= p < n
  {
    DivModId(e, 2 * n);
    var r := e % (2 * n);
    if r < n then r else r - n
  }

  function Sgn(n: nat, e: int): (s: int)
    requires n > 0
    ensures s == 1 || s == -1
  {
    if e % (2 * n) < n then 1 else -1
  }

  lemma DeltaAnti(n: nat, d: int)
    requires n > 0
    ensures Delta(n, d + n) == -Delta(n, d)
    ensures Delta(n, d - n) == -Delta(n, d)
  {
    DeltaUp(n, d);
    DeltaUp(n, d - n);
    assert d - n + n == d;
  }

  lemma DeltaUp(n: nat, d: int)
    requires n > 0
    ensures Delta(n, d + n) == -Delta(n, d)
  {
    DivModId(d, 2 * n);
    var q, r := d / (2 * n), d % (2 * n);
    if r < n {
      DivModUnique(d + n, 2 * n, q, r + n);
    } else {
      NextPeriod(d, n, q, r);
      DivModUnique(d + n, 2 * n, q + 1, r - n);
    }
  }

  lemma DeltaSmall(n: nat, d: int)
    requires n > 0 && 0 - n < d < n
    ensures Delta(n, d) == if d == 0 then 1 else 0
  {
    if d >= 0 {
      SmallMod(d, 2 * n);
    } else {
      DivModUnique(d, 2 * n, -1, d + 2 * n);
    }
  }

  lemma DeltaPeriod(n: nat, d: int, k: int)
    requires n > 0
    ensures Delta(n, d + k * (2 * n)) == Delta(n, d)
  {
    CongBy(d + k * (2 * n), d, 2 * n, k);
    CongIffMod(d + k * (2 * n), d, 2 * n);
  }

  /** An antiperiodic function at `e` is its value at the folded position, signed. */
  lemma {:induction false} AntiFold(phi: int -> int, n: nat, m: int, e: int)
    requires n > 0 && Anti(phi, n, m)
    ensures Cong(phi(e), Sgn(n, e) * phi(Pos(n, e)), m)
    decreases if e < 0 then 2 * n - e else e
  {
    if e >= n {
      AntiFold(phi, n, m, e - n);
      FoldStep(n, e - n);
      assert AntiAt(phi, n, m, e - n);
      var v := Sgn(n, e - n) * phi(Pos(n, e));
      CongNeg(phi(e - n), v, m);
      CongTrans(phi(e), -phi(e - n), -v, m);
      assert -v == Sgn(n, e) * phi(Pos(n, e));
    } else if e < 0 {
      AntiFold(phi, n, m, e + n);
      FoldStep(n, e);
      assert AntiAt(phi, n, m, e);
      var v := Sgn(n, e + n) * phi(Pos(n, e));
      CongNeg(phi(e + n), -phi(e), m);
      CongSym(-phi(e + n), phi(e), m);
      CongNeg(phi(e + n), v, m);
      CongTrans(phi(e), -phi(e + n), -v, m);
      assert -v == Sgn(n, e) * phi(Pos(n, e));
    } else {
      SmallMod(e, 2 * n);
      CongRefl(phi(e), m);
    }
  }

  lemma FoldStep(n: nat, e: int)
    requires n > 0
    ensures Pos(n, e + n) == Pos(n, e) && Sgn(n, e + n) == -Sgn(n, e)
  {
    DivModId(e, 2 * n);
    var q, r := e / (2 * n), e % (2 * n);
    if r < n {
      DivModUnique(e + n, 2 * n, q, r + n);
    } else {
      NextPeriod(e, n, q, r);
      DivModUnique(e + n, 2 * n, q + 1, r - n);
    }
  }

  /** e => coefficient of X^(ke) at exponent `m`. */
  ghost function SubstFn(n: nat, k: int, m: int): int -> int
    requires n > 0
  {
    e => Delta(n, k * e - m)
  }

  /** a(X^k). */
  ghost function PSubst(a: Poly, k: int): (r: Poly)
    ensures |r| == |a|
    ensures forall m :: 0 <= m < |r| ==> r[m] == Lin(a, SubstFn(|a|, k, m))
  {
    seq(|a|, m requires 0 <= m < |a| => Lin(a, SubstFn(|a|, k, m)))
  }

  ghost function Dilate(phi: int -> int, k: int): int -> int {
    e => phi(k * e)
  }

  lemma SubstFnAnti(n: nat, k: int, m: int)
    requires n > 0 && k % 2 == 1
    ensures Anti(SubstFn(n, k, m), n, 0)
  {
    forall e: int
      ensures AntiAt(SubstFn(n, k, m), n, 0, e)
    {
      SubstFnStep(n, k, m, e);
      CongRefl(SubstFn(n, k, m)(e + n), 0);
    }
  }

  lemma SubstFnStep(n: nat, k: int, m: int, e: int)
    requires n > 0 && k % 2 == 1
    ensures SubstFn(n, k, m)(e + n) == -SubstFn(n, k, m)(e)
  {
    hide Delta;
    DivModId(k, 2);
    OddMultiple(k, k / 2, n, e, m);
    DeltaPeriod(n, k * e - m + n, k / 2);
    DeltaAnti(n, k * e - m);
  }

  lemma OddMultiple(k: int, h: int, n: int, e: int, m: int)
    requires k == h * 2 + 1
    ensures k * (e + n) - m == k * e - m + n + h * (2 * n)
  {}

  ghost function SubstAt(a: Poly, k: int): int -> int
    requires |a| > 0
  {
    m => Lin(a, SubstFn(|a|, k, m))
  }

  lemma CoefSubst(a: Poly, k: int, m: int)
    requires |a| > 0
    ensures Coef(PSubst(a, k), m) == Lin(a, SubstFn(|a|, k, m))
  {
    hide Coef, Delta;
    var n, f := |a|, SubstAt(a, k);
    forall j: int
      ensures AntiAt(f, n, 0, j)
    {
      var g, h := SubstFn(n, k, j), SubstFn(n, k, j + n);
      forall i | 0 <= i < n
        ensures h(i) == -1 * g(i)
      {
        DeltaAnti(n, k * i - j);
        assert k * i - (j + n) == k * i - j - n;
      }
      LinScale(a, -1, g, h);
      CongRefl(f(j + n), 0);
    }
    AntiUnique(PSubst(a, k), f, m);
  }

  // ------------------------------------------- functionals after a substitution

  /** m => Delta(e - m) phi(m), which sums to phi(e). */
  ghost function DeltaTerm(n: nat, e: int, phi: int -> int): int -> int
    requires n > 0
  {
    m => Delta(n, e - m) * phi(m)
  }

  lemma DeltaAtFold(n: nat, e: int, m: int)
    requires n > 0 && 0 <= m < n
    ensures Delta(n, e - m) == if m == Pos(n, e) then Sgn(n, e) else 0
  {
    DivModId(e, 2 * n);
    var q, r := e / (2 * n), e % (2 * n);
    DeltaPeriod(n, r - m, q);
    assert r - m + q * (2 * n) == e - m;
    if r < n {
      DeltaSmall(n, r - m);
    } else {
      DeltaSmall(n, r - n - m);
      DeltaAnti(n, r - n - m);
      assert r - n - m + n == r - m;
    }
  }

  lemma DeltaSum(n: nat, e: int, phi: int -> int, q: int)
    requires n > 0 && Anti(phi, n, q)
    ensures Cong(Sum(n, DeltaTerm(n, e, phi)), phi(e), q)
  {
    hide Delta, Pos, Sgn;
    var f, p := DeltaTerm(n, e, phi), Pos(n, e);
    forall m | 0 <= m < n
      ensures f(m) == if m == p then Sgn(n, e) * phi(p) else 0
    {
      DeltaAtFold(n, e, m);
    }
    SumSingle(n, f, p);
    AntiFold(phi, n, q, e);
    CongSym(phi(e), Sgn(n, e) * phi(p), q);
  }

  ghost function SubstPair(a: Poly, k: int, phi: int -> int): (int, int) -> int
    requires |a| > 0
  {
    (m, i) => Coef(a, i) * (Delta(|a|, k * i - m) * phi(m))
  }

  lemma SubstRow(a: Poly, k: int, phi: int -> int, m: int)
    requires 0 <= m < |a|
    ensures LinTerm(PSubst(a, k), phi)(m) == Sum(|a|, Row(SubstPair(a, k, phi), m))
  {
    hide Coef, Delta, Lin, Sum;
    SubstRowSum(a, k, phi, m);
    CoefAt(PSubst(a, k), m);
    IntMulComm(phi(m), Lin(a, SubstFn(|a|, k, m)));
  }

  lemma SubstEntry(a: Poly, k: int, phi: int -> int, m: int, i: int)
    requires |a| > 0
    ensures Row(SubstPair(a, k, phi), m)(i) == phi(m) * LinTerm(a, SubstFn(|a|, k, m))(i)
  {
    hide Coef, Delta;
    ProductOrder(Coef(a, i), Delta(|a|, k * i - m), phi(m));
  }

  lemma SubstRowSum(a: Poly, k: int, phi: int -> int, m: int)
    requires |a| > 0
    ensures Sum(|a|, Row(SubstPair(a, k, phi), m)) == phi(m) * Lin(a, SubstFn(|a|, k, m))
  {
    hide *;
    forall i | 0 <= i < |a|
      ensures Row(SubstPair(a, k, phi), m)(i) == phi(m) * LinTerm(a, SubstFn(|a|, k, m))(i)
    {
      SubstEntry(a, k, phi, m, i);
    }
    SumScale(|a|, phi(m), LinTerm(a, SubstFn(|a|, k, m)), Row(SubstPair(a, k, phi), m));
    LinIsSum(a, SubstFn(|a|, k, m));
  }

  lemma SubstCol(a: Poly, k: int, phi: int -> int, i: int, q: int)
    requires |a| > 0 && Anti(phi, |a|, q)
    ensures Cong(Sum(|a|, Col(SubstPair(a, k, phi), i)), LinTerm(a, Dilate(phi, k))(i), q)
  {
    hide Coef, Delta;
    SumScale(|a|, Coef(a, i), DeltaTerm(|a|, k * i, phi), Col(SubstPair(a, k, phi), i));
    DeltaSum(|a|, k * i, phi, q);
    CongRefl(Coef(a, i), q);
    CongMul(Coef(a, i), Coef(a, i), Sum(|a|, DeltaTerm(|a|, k * i, phi)), phi(k * i), q);
  }

  /** A functional of a(X^k) is the dilated functional of a. */
  lemma LinSubst(a: Poly, k: int, phi: int -> int, q: int)
    requires |a| > 0 && Anti(phi, |a|, q)
    ensures Cong(Lin(PSubst(a, k), phi), Lin(a, Dilate(phi, k)), q)
  {
    hide Coef, Delta;
    var n, F := |a|, SubstPair(a, k, phi);
    var c := i => Sum(n, Col(F, i));
    forall m | 0 <= m < n
      ensures LinTerm(PSubst(a, k), phi)(m) == Sum(n, Row(F, m))
    {
      SubstRow(a, k, phi, m);
    }
    SumSwap(n, n, F, LinTerm(PSubst(a, k), phi), c);
    forall i | 0 <= i < n
      ensures Cong(c(i), LinTerm(a, Dilate(phi, k))(i), q)
    {
      SubstCol(a, k, phi, i, q);
    }
    SumCong(n, c, LinTerm(a, Dilate(phi, k)), q);
  }

  // --------------------------------------------------------------- main results

  /** X -> X^k is multiplicative for odd k. */
  lemma SubstMul(a: Poly, b: Poly, k: int)
    requires |a| == |b| && k % 2 == 1
    ensures PSubst(PMul(a, b), k) == PMul(PSubst(a, k), PSubst(b, k))
  {
    var l, r := PSubst(PMul(a, b), k), PMul(PSubst(a, k), PSubst(b, k));
    forall m | 0 <= m < |a|
      ensures l[m] == r[m]
    {
      SubstMulAt(a, b, k, m);
    }
  }

  lemma SubstConv(b: Poly, k: int, m: int, i: int)
    requires |b| > 0
    ensures Conv(b, SubstFn(|b|, k, m))(i) == Dilate(Rev(PSubst(b, k), m), k)(i)
  {
    hide Coef, Delta, Lin;
    CoefSubst(b, k, m - k * i);
    var f, g := Shift(SubstFn(|b|, k, m), i), SubstFn(|b|, k, m - k * i);
    forall j | 0 <= j < |b|
      ensures f(j) == g(j)
    {
      assert k * (j + i) - m == k * j - (m - k * i);
    }
    LinExt(b, f, g);
  }

  lemma SubstMulAt(a: Poly, b: Poly, k: int, m: int)
    requires |a| == |b| > 0 && k % 2 == 1
    ensures Lin(PMul(a, b), SubstFn(|a|, k, m)) == Lin(PSubst(a, k), Rev(PSubst(b, k), m))
  {
    hide *;
    var phi, psi := SubstFn(|a|, k, m), Rev(PSubst(b, k), m);
    SubstFnAnti(|a|, k, m);
    LinMul(a, b, phi, 0);
    CongZero(Lin(PMul(a, b), phi), Lin(a, Conv(b, phi)));
    RevAnti(PSubst(b, k), m);
    LinSubst(a, k, psi, 0);
    CongZero(Lin(PSubst(a, k), psi), Lin(a, Dilate(psi, k)));
    forall i | 0 <= i < |a|
      ensures Conv(b, phi)(i) == Dilate(psi, k)(i)
    {
      SubstConv(b, k, m, i);
    }
    LinExt(a, Conv(b, phi), Dilate(psi, k));
  }

  lemma SubstAdd(a: Poly, b: Poly, k: int)
    requires |a| == |b|
    ensures PSubst(PAdd(a, b), k) == PAdd(PSubst(a, k), PSubst(b, k))
  {
    hide Coef, Delta;
    var s := PAdd(a, b);
    var l, r := PSubst(s, k), PAdd(PSubst(a, k), PSubst(b, k));
    forall m | 0 <= m < |a|
      ensures l[m] == r[m]
    {
      var phi := SubstFn(|a|, k, m);
      forall i | 0 <= i < |a|
        ensures LinTerm(s, phi)(i) == LinTerm(a, phi)(i) + LinTerm(b, phi)(i)
      {
        CoefAt(a, i);
        CoefAt(b, i);
        CoefAt(s, i);
        assert (a[i] + b[i]) * phi(i) == a[i] * phi(i) + b[i] * phi(i);
      }
      SumAdd(|a|, LinTerm(a, phi), LinTerm(b, phi), LinTerm(s, phi));
    }
  }

  /** Substitutions compose by multiplying exponents. */
  lemma SubstCompose(a: Poly, k: int, l: int)
    requires k % 2 == 1
    ensures PSubst(PSubst(a, l), k) == PSubst(a, k * l)
  {
    var x, y := PSubst(PSubst(a, l), k), PSubst(a, k * l);
    forall m | 0 <= m < |a|
      ensures x[m] == y[m]
    {
      SubstComposeAt(a, k, l, m);
    }
  }

  lemma SubstComposeAt(a: Poly, k: int, l: int, m: int)
    requires |a| > 0 && k % 2 == 1
    ensures Lin(PSubst(a, l), SubstFn(|a|, k, m)) == Lin(a, SubstFn(|a|, k * l, m))
  {
    hide Coef, Delta;
    var phi := SubstFn(|a|, k, m);
    SubstFnAnti(|a|, k, m);
    LinSubst(a, l, phi, 0);
    CongZero(Lin(PSubst(a, l), phi), Lin(a, Dilate(phi, l)));
    forall i | 0 <= i < |a|
      ensures Dilate(phi, l)(i) == SubstFn(|a|, k * l, m)(i)
    {
      assert k * (l * i) - m == k * l * i - m;
    }
    LinExt(a, Dilate(phi, l), SubstFn(|a|, k * l, m));
  }

  /** Only the exponent modulo 2N matters. */
  lemma SubstMod(a: Poly, k: int, l: int)
    requires |a| > 0 && Cong(k, l, 2 * |a|)
    ensures PSubst(a, k) == PSubst(a, l)
  {
    hide Coef, Delta;
    var c := CongQuot(k, l, 2 * |a|);
    var x, y := PSubst(a, k), PSubst(a, l);
    forall m | 0 <= m < |a|
      ensures x[m] == y[m]
    {
      forall i | 0 <= i < |a|
        ensures SubstFn(|a|, k, m)(i) == SubstFn(|a|, l, m)(i)
      {
        DeltaPeriod(|a|, l * i - m, c * i);
        assert (l + c * (2 * |a|)) * i - m == l * i - m + c * i * (2 * |a|);
      }
      LinExt(a, SubstFn(|a|, k, m), SubstFn(|a|, l, m));
    }
  }

  lemma SubstOne(a: Poly)
    ensures PSubst(a, 1) == a
  {
    hide Coef, Delta;
    forall m | 0 <= m < |a|
      ensures PSubst(a, 1)[m] == a[m]
    {
      var f := LinTerm(a, SubstFn(|a|, 1, m));
      forall i | 0 <= i < |a|
        ensures f(i) == if i == m then a[m] else 0
      {
        CoefAt(a, i);
        assert 1 * i - m == i - m;
        DeltaSmall(|a|, i - m);
      }
      SumSingle(|a|, f, m);
    }
  }
}
