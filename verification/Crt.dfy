/** The Chinese remainder theorem as the residue number system uses it. */
module Crt {
  import opened Integers
  import opened NumberTheory
  import opened Negacyclic
  import opened Rns

  // ----------------------------------------------------------------- constants

  lemma CofactorDivisible(qs: seq<int>, c: int, i: int)
    requires 0 <= c < |qs| && 0 <= i < |qs| && c != i
    ensures Divides(qs[i], Cofactor(qs, c))
  {
    var w := Without(qs, c);
    var k := if i < c then i else i - 1;
    assert w[k] == qs[i];
    ProductCofactor(w, k);
    DividesBy(qs[i], Product(w), Cofactor(w, k));
  }

  lemma CofactorPos(qs: seq<int>, c: int)
    requires Moduli(qs) && 0 <= c < |qs|
    ensures Cofactor(qs, c) >= 1
  {
    var w := Without(qs, c);
    forall i | 0 <= i < |w| ensures w[i] >= 1 {
      assert w[i] == if i < c then qs[i] else qs[i + 1];
    }
    ProductPos(w);
  }

  /** The inverse of the c-th cofactor modulo the c-th prime. */
  ghost function CofactorInverse(qs: seq<int>, c: int): (y: int)
    requires Moduli(qs) && 0 <= c < |qs|
    ensures 0 <= y < qs[c]
  {
    Inverse(Cofactor(qs, c) % qs[c], qs[c])
  }

  lemma CofactorInverseCorrect(qs: seq<int>, c: int)
    requires PrimeBasis(qs) && Moduli(qs) && 0 <= c < |qs|
    ensures Cong(Cofactor(qs, c) * CofactorInverse(qs, c), 1, qs[c])
  {
    hide Inverse, Cofactor, IsPrime;
    var q, M := qs[c], Cofactor(qs, c);
    CofactorCoprime(qs, c);
    assert IsPrime(q);
    ResidueInvertible(M, q);
    InverseCorrect(M % q, q);
    ModCong(M, q);
    CongSym(M % q, M, q);
    var y := CofactorInverse(qs, c);
    CongRefl(y, q);
    CongMul(M, M % q, y, y, q);
    CongTrans(M * y, M % q * y, 1, q);
  }

  lemma ResidueInvertible(x: int, q: int)
    requires q > 0 && !Divides(q, x)
    ensures !Divides(q, x % q)
  {
    if Divides(q, x % q) {
      DivModId(x, q);
      var k := DividesQuot(q, x % q);
      assert x / q * q + k * q == (x / q + k) * q;
      DividesBy(q, x, x / q + k);
    }
  }

  /** G_c: congruent to 1 modulo `q_c` and to 0 modulo the other moduli. */
  ghost function LiftConstant(qs: seq<int>, c: int): int
    requires Moduli(qs) && 0 <= c < |qs|
  {
    Cofactor(qs, c) * CofactorInverse(qs, c)
  }

  lemma LiftConstantResidue(qs: seq<int>, c: int, i: int)
    requires PrimeBasis(qs) && Moduli(qs) && 0 <= c < |qs| && 0 <= i < |qs|
    ensures Cong(LiftConstant(qs, c), if c == i then 1 else 0, qs[i])
  {
    hide Cofactor, CofactorInverse, IsPrime;
    if c == i {
      CofactorInverseCorrect(qs, c);
    } else {
      CofactorDivisible(qs, c, i);
      MultipleVanishes(Cofactor(qs, c), CofactorInverse(qs, c), qs[i]);
    }
  }

  // ---------------------------------------------------------------- Garner's sum

  /** The c-th term of the reconstruction. */
  ghost function CrtTerm(rs: seq<int>, qs: seq<int>, c: int): int
    requires Moduli(qs) && |rs| == |qs| && 0 <= c < |qs|
  {
    Cofactor(qs, c) * (rs[c] * CofactorInverse(qs, c) % qs[c])
  }

  ghost function CrtSum(rs: seq<int>, qs: seq<int>, k: nat): int
    requires Moduli(qs) && |rs| == |qs| && k <= |qs|
  {
    if k == 0 then 0 else CrtSum(rs, qs, k - 1) + CrtTerm(rs, qs, k - 1)
  }

  lemma CrtTermBound(rs: seq<int>, qs: seq<int>, c: int)
    requires Moduli(qs) && |rs| == |qs| && 0 <= c < |qs|
    ensures 0 <= CrtTerm(rs, qs, c) < Product(qs)
  {
    hide Cofactor, CofactorInverse;
    var M, q := Cofactor(qs, c), qs[c];
    var s := rs[c] * CofactorInverse(qs, c) % q;
    DivModId(rs[c] * CofactorInverse(qs, c), q);
    CofactorPos(qs, c);
    ProductCofactor(qs, c);
    MulBound(s, q - 1, M, M);
    IntMulComm(M, s);
    IntMulComm(M, q);
    assert (q - 1) * M == q * M - M;
  }

  lemma {:induction false} CrtSumBound(rs: seq<int>, qs: seq<int>, k: nat)
    requires Moduli(qs) && |rs| == |qs| && k <= |qs|
    ensures 0 <= CrtSum(rs, qs, k)
    ensures k > 0 ==> CrtSum(rs, qs, k) < k * Product(qs)
  {
    if k > 0 {
      CrtSumBound(rs, qs, k - 1);
      CrtTermBound(rs, qs, k - 1);
      assert k * Product(qs) == (k - 1) * Product(qs) + Product(qs);
    }
  }

  lemma CrtTermResidue(rs: seq<int>, qs: seq<int>, c: int, i: int)
    requires PrimeBasis(qs) && Moduli(qs) && |rs| == |qs| && 0 <= c < |qs| && 0 <= i < |qs|
    ensures Cong(CrtTerm(rs, qs, c), if c == i then rs[i] else 0, qs[i])
  {
    hide Cofactor, CofactorInverse, IsPrime, Cong;
    var M, y := Cofactor(qs, c), CofactorInverse(qs, c);
    if c == i {
      CofactorInverseCorrect(qs, c);
      OwnTerm(M, rs[c], y, qs[c]);
    } else {
      CofactorDivisible(qs, c, i);
      MultipleVanishes(M, rs[c] * y % qs[c], qs[i]);
    }
  }

  lemma OwnTerm(M: int, r: int, y: int, q: int)
    requires q > 0 && Cong(M * y, 1, q)
    ensures Cong(M * (r * y % q), r, q)
  {
    ModCong(r * y, q);
    CongRefl(M, q);
    CongMul(M, M, r * y % q, r * y, q);
    CongRefl(r, q);
    CongMul(r, r, M * y, 1, q);
    assert r * (M * y) == M * (r * y);
    CongTrans(M * (r * y % q), M * (r * y), r, q);
  }

  lemma MultipleVanishes(M: int, s: int, q: int)
    requires Divides(q, M)
    ensures Cong(M * s, 0, q)
  {
    var k := DividesQuot(q, M);
    assert k * q * s == k * s * q;
    CongBy(M * s, 0, q, k * s);
  }

  lemma {:induction false} CrtSumResidue(rs: seq<int>, qs: seq<int>, k: nat, i: int)
    requires PrimeBasis(qs) && Moduli(qs) && |rs| == |qs| && k <= |qs| && 0 <= i < |qs|
    ensures Cong(CrtSum(rs, qs, k), if i < k then rs[i] else 0, qs[i])
  {
    if k == 0 {
      CongRefl(0, qs[i]);
    } else {
      hide CrtTerm, Cong, IsPrime;
      CrtSumResidue(rs, qs, k - 1, i);
      CrtTermResidue(rs, qs, k - 1, i);
      CongAdd(CrtSum(rs, qs, k - 1), if i < k - 1 then rs[i] else 0,
              CrtTerm(rs, qs, k - 1), if k - 1 == i then rs[i] else 0, qs[i]);
    }
  }

  // ------------------------------------------------------- the value of residues

  /** `x` is the number in [0, Q) with the given residues. */
  ghost predicate IsCrt(x: int, rs: seq<int>, qs: seq<int>) {
    && |rs| == |qs| && 0 <= x < Product(qs)
    && forall i :: 0 <= i < |qs| ==> Cong(x, rs[i], qs[i])
  }

  ghost function CrtValue(rs: seq<int>, qs: seq<int>): (x: int)
    requires PrimeBasis(qs) && |rs| == |qs|
    ensures IsCrt(x, rs, qs)
  {
    PrimeModuli(qs);
    CrtExists(rs, qs);
    CrtSum(rs, qs, |qs|) % Product(qs)
  }

  lemma CrtExists(rs: seq<int>, qs: seq<int>)
    requires PrimeBasis(qs) && Moduli(qs) && Product(qs) >= 1 && |rs| == |qs|
    ensures IsCrt(CrtSum(rs, qs, |qs|) % Product(qs), rs, qs)
  {
    hide Product, Cong, CrtSum, IsPrime;
    var Q, s := Product(qs), CrtSum(rs, qs, |qs|);
    DivModId(s, Q);
    ModCong(s, Q);
    forall i | 0 <= i < |qs| ensures Cong(s % Q, rs[i], qs[i]) {
      CongProduct(qs, s % Q, s, i);
      CrtSumResidue(rs, qs, |qs|, i);
      CongTrans(s % Q, s, rs[i], qs[i]);
    }
  }

  /** The residues determine the number. */
  lemma CrtIs(x: int, rs: seq<int>, qs: seq<int>)
    requires PrimeBasis(qs) && IsCrt(x, rs, qs)
    ensures x == CrtValue(rs, qs)
  {
    hide Product, Cong, CrtValue, IsPrime;
    var y := CrtValue(rs, qs);
    forall i | 0 <= i < |qs| ensures Cong(x, y, qs[i]) {
      CongSym(y, rs[i], qs[i]);
      CongTrans(x, rs[i], y, qs[i]);
    }
    CrtUnique(qs, x, y);
    EqualBelow(x, y, Product(qs));
  }

  lemma EqualBelow(x: int, y: int, m: int)
    requires 0 <= x < m && 0 <= y < m && Cong(x, y, m)
    ensures x == y
  {
    SmallMultiple(x - y, m);
  }

  // ------------------------------------------------------------- whole polynomials

  ghost function Column(x: seq<Poly>, i: nat): (r: seq<int>)
    requires forall c :: 0 <= c < |x| ==> i < |x[c]|
    ensures |r| == |x| && forall c :: 0 <= c < |x| ==> r[c] == x[c][i]
  {
    seq(|x|, c requires 0 <= c < |x| => x[c][i])
  }

  /** The integer polynomial in [0, Q) that the residues stand for. */
  ghost function Lift(x: seq<Poly>, n: nat, qs: seq<int>): (r: Poly)
    requires PrimeBasis(qs) && Shape(x, n, |qs|)
    ensures |r| == n && Below(r, Product(qs))
    ensures forall i :: 0 <= i < n ==> r[i] == CrtValue(Column(x, i), qs)
  {
    seq(n, i requires 0 <= i < n => CrtValue(Column(x, i), qs))
  }

  lemma LiftCong(x: seq<Poly>, n: nat, qs: seq<int>, j: nat)
    requires PrimeBasis(qs) && Shape(x, n, |qs|) && j < |qs|
    ensures PCong(Lift(x, n, qs), x[j], qs[j])
  {
    hide Cong, IsPrime, Product;
    forall i | 0 <= i < n ensures Cong(Lift(x, n, qs)[i], x[j][i], qs[j]) {
      assert Column(x, i)[j] == x[j][i];
    }
  }

  /** Reduced residues are the residues of what they stand for. */
  lemma LiftResidues(x: seq<Poly>, n: nat, qs: seq<int>)
    requires PrimeBasis(qs) && Moduli(qs) && Shape(x, n, |qs|) && Reduced(x, qs)
    ensures Residues(Lift(x, n, qs), qs) == x
  {
    hide Cong, IsPrime, Product, PMod, Lift;
    forall j | 0 <= j < |qs| ensures Residues(Lift(x, n, qs), qs)[j] == x[j] {
      LiftCong(x, n, qs, j);
      PCongSym(Lift(x, n, qs), x[j], qs[j]);
      PModIs(x[j], Lift(x, n, qs), qs[j]);
    }
  }

  /** Lifting residues gives back a polynomial with coefficients in [0, Q). */
  lemma LiftOfResidues(a: Poly, qs: seq<int>)
    requires PrimeBasis(qs) && Moduli(qs) && Product(qs) >= 1
    ensures Lift(Residues(a, qs), |a|, qs) == PMod(a, Product(qs))
  {
    hide Cong, IsPrime, Product, Lift;
    var x := Residues(a, qs);
    var Q := Product(qs);
    forall i | 0 <= i < |a|
      ensures Lift(x, |a|, qs)[i] == PMod(a, Q)[i]
    {
      var v := a[i] % Q;
      DivModId(a[i], Q);
      ModCong(a[i], Q);
      forall j | 0 <= j < |qs| ensures Cong(v, Column(x, i)[j], qs[j]) {
        CongProduct(qs, v, a[i], j);
        ModCong(a[i], qs[j]);
        CongSym(a[i] % qs[j], a[i], qs[j]);
        CongTrans(v, a[i], a[i] % qs[j], qs[j]);
      }
      CrtIs(v, Column(x, i), qs);
    }
  }

  // ------------------------------------------------------------------ centering

  /** The representative in (-Q/2, Q/2]. */
  ghost function Center(x: int, Q: int): int {
    if 2 * x > Q then x - Q else x
  }

  ghost function CenterPoly(a: Poly, Q: int): (r: Poly)
    ensures |r| == |a| && forall i :: 0 <= i < |a| ==> r[i] == Center(a[i], Q)
  {
    seq(|a|, i requires 0 <= i < |a| => Center(a[i], Q))
  }

  /** A number smaller than Q/2 in magnitude is the centered value of its residue. */
  lemma CenterOfSmall(v: int, Q: int)
    requires Q > 0 && -Q < 2 * v < Q
    ensures Center(v % Q, Q) == v
  {
    if v >= 0 {
      SmallMod(v, Q);
    } else {
      DivModUnique(v, Q, -1, v + Q);
    }
  }

  lemma CenterPolyOfSmall(a: Poly, Q: int)
    requires Q > 0 && forall i :: 0 <= i < |a| ==> -Q < 2 * a[i] < Q
    ensures CenterPoly(PMod(a, Q), Q) == a
  {
    forall i | 0 <= i < |a| ensures CenterPoly(PMod(a, Q), Q)[i] == a[i] {
      CenterOfSmall(a[i], Q);
    }
  }

  /** The centered integer polynomial the residues stand for. */
  ghost function CenteredLift(x: seq<Poly>, n: nat, qs: seq<int>): (r: Poly)
    requires PrimeBasis(qs) && Shape(x, n, |qs|)
    ensures |r| == n
  {
    CenterPoly(Lift(x, n, qs), Product(qs))
  }

  lemma CenteredLiftOfResidues(a: Poly, qs: seq<int>)
    requires PrimeBasis(qs) && Moduli(qs) && Product(qs) >= 1
    requires forall i :: 0 <= i < |a| ==> -Product(qs) < 2 * a[i] < Product(qs)
    ensures CenteredLift(Residues(a, qs), |a|, qs) == a
  {
    hide Product, IsPrime, Lift, PMod;
    LiftOfResidues(a, qs);
    CenterPolyOfSmall(a, Product(qs));
  }

  /** Residues of the centered lift are again the same residues. */
  lemma CenteredLiftResidues(x: seq<Poly>, n: nat, qs: seq<int>)
    requires PrimeBasis(qs) && Moduli(qs) && Shape(x, n, |qs|) && Reduced(x, qs)
    ensures Residues(CenteredLift(x, n, qs), qs) == x
  {
    hide Product, IsPrime, Cong;
    var a, Q := Lift(x, n, qs), Product(qs);
    LiftResidues(x, n, qs);
    forall i | 0 <= i < n ensures Cong(CenterPoly(a, Q)[i], a[i], Q) {
      CongBy(a[i] - Q, a[i], Q, -1);
      CongRefl(a[i], Q);
    }
    ResiduesCong(CenterPoly(a, Q), a, qs);
  }

  // --------------------------------------------------------- the lift constants

  /** Sum of G_c (x mod q_c) over the first `k` moduli. */
  ghost function LiftSum(x: int, qs: seq<int>, k: nat): int
    requires Moduli(qs) && k <= |qs|
  {
    if k == 0 then 0 else LiftSum(x, qs, k - 1) + LiftConstant(qs, k - 1) * (x % qs[k - 1])
  }

  lemma {:induction false} LiftSumResidue(x: int, qs: seq<int>, k: nat, i: int)
    requires PrimeBasis(qs) && Moduli(qs) && k <= |qs| && 0 <= i < |qs|
    ensures Cong(LiftSum(x, qs, k), if i < k then x else 0, qs[i])
  {
    if k == 0 {
      CongRefl(0, qs[i]);
    } else {
      hide LiftConstant, Cong, IsPrime;
      LiftSumResidue(x, qs, k - 1, i);
      LiftTermResidue(x, qs, k - 1, i);
      CongAdd(LiftSum(x, qs, k - 1), if i < k - 1 then x else 0,
              LiftConstant(qs, k - 1) * (x % qs[k - 1]), if k - 1 == i then x else 0, qs[i]);
    }
  }

  lemma LiftTermResidue(x: int, qs: seq<int>, c: int, i: int)
    requires PrimeBasis(qs) && Moduli(qs) && 0 <= c < |qs| && 0 <= i < |qs|
    ensures Cong(LiftConstant(qs, c) * (x % qs[c]), if c == i then x else 0, qs[i])
  {
    hide LiftConstant, Cong, IsPrime;
    LiftConstantResidue(qs, c, i);
    var d, q := x % qs[c], qs[i];
    CongRefl(d, q);
    CongMul(LiftConstant(qs, c), if c == i then 1 else 0, d, d, q);
    if c == i {
      ModCong(x, q);
      CongTrans(LiftConstant(qs, c) * d, d, x, q);
    }
  }

  /** x is recovered modulo Q from its residues and the lift constants. */
  lemma LiftSumCorrect(x: int, qs: seq<int>)
    requires PrimeBasis(qs) && Moduli(qs)
    ensures Cong(LiftSum(x, qs, |qs|), x, Product(qs))
  {
    hide Cong, IsPrime, LiftSum;
    forall i | 0 <= i < |qs| ensures Cong(LiftSum(x, qs, |qs|), x, qs[i]) {
      LiftSumResidue(x, qs, |qs|, i);
    }
    CrtUnique(qs, LiftSum(x, qs, |qs|), x);
  }
}
