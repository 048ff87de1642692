/** Polynomials in residue form, and the ring operations on them.

    Component `j` of every operation is the operation of Z[X]/(X^N + 1) reduced
    modulo `q_j`.  `Residues` maps an integer polynomial to its residue form and
    is a ring homomorphism; the layers above reason about integer polynomials and
    let congruence enter only here. */
module Rns {
  import opened Integers
  import opened NumberTheory
  import opened Negacyclic
  import opened Substitution

  /** Odd machine-word modulus above 1. */
  type Modulus = m: u64 | m > 1 && m % 2 == 1 witness 3

  type RnsPoly = seq<seq<u64>>

  ghost predicate Moduli(qs: seq<int>) {
    forall j :: 0 <= j < |qs| ==> qs[j] >= 2
  }

  ghost predicate Shape(x: seq<Poly>, n: nat, k: nat) {
    |x| == k && forall j :: 0 <= j < k ==> |x[j]| == n
  }

  /** Every coefficient is its own remainder. */
  ghost predicate Below(a: Poly, q: int) {
    forall i :: 0 <= i < |a| ==> 0 <= a[i] < q
  }

  ghost predicate Reduced(x: seq<Poly>, qs: seq<int>) {
    |x| == |qs| && forall j :: 0 <= j < |x| ==> Below(x[j], qs[j])
  }

  // ----------------------------------------------------- reduction modulo one q

  ghost function PMod(a: Poly, q: int): (r: Poly)
    requires q > 0
    ensures |r| == |a| && Below(r, q)
    ensures forall i :: 0 <= i < |a| ==> r[i] == a[i] % q
  {
    forall i | 0 <= i < |a| ensures 0 <= a[i] % q < q {
      DivModId(a[i], q);
    }
    seq(|a|, i requires 0 <= i < |a| => a[i] % q)
  }

  lemma PModCong(a: Poly, q: int)
    requires q > 0
    ensures PCong(PMod(a, q), a, q)
  {
    hide Cong;
    forall i | 0 <= i < |a| ensures Cong(PMod(a, q)[i], a[i], q) {
      ModCong(a[i], q);
    }
  }

  /** The reduced polynomial congruent to `a` is unique. */
  lemma PModIs(r: Poly, a: Poly, q: int)
    requires q > 0 && PCong(r, a, q) && Below(r, q)
    ensures r == PMod(a, q)
  {
    hide Cong;
    forall i | 0 <= i < |a| ensures r[i] == PMod(a, q)[i] {
      ModIs(a[i], r[i], q);
    }
  }

  lemma PModEq(a: Poly, b: Poly, q: int)
    requires q > 0 && PCong(a, b, q)
    ensures PMod(a, q) == PMod(b, q)
  {
    hide Cong;
    PModCong(a, q);
    PCongTrans(PMod(a, q), a, b, q);
    PModIs(PMod(a, q), b, q);
  }

  // ------------------------------------------------------------------ operations

  ghost function RAdd(x: seq<Poly>, y: seq<Poly>, qs: seq<int>): (r: seq<Poly>)
    requires Moduli(qs) && |x| == |y| == |qs| && forall j :: 0 <= j < |x| ==> |x[j]| == |y[j]|
    ensures |r| == |qs| && Reduced(r, qs)
    ensures forall j :: 0 <= j < |r| ==> |r[j]| == |x[j]|
  {
    seq(|qs|, j requires 0 <= j < |qs| => PMod(PAdd(x[j], y[j]), qs[j]))
  }

  ghost function RSub(x: seq<Poly>, y: seq<Poly>, qs: seq<int>): (r: seq<Poly>)
    requires Moduli(qs) && |x| == |y| == |qs| && forall j :: 0 <= j < |x| ==> |x[j]| == |y[j]|
    ensures |r| == |qs| && Reduced(r, qs)
    ensures forall j :: 0 <= j < |r| ==> |r[j]| == |x[j]|
  {
    seq(|qs|, j requires 0 <= j < |qs| => PMod(PSub(x[j], y[j]), qs[j]))
  }

  ghost function RNeg(x: seq<Poly>, qs: seq<int>): (r: seq<Poly>)
    requires Moduli(qs) && |x| == |qs|
    ensures |r| == |qs| && Reduced(r, qs)
    ensures forall j :: 0 <= j < |r| ==> |r[j]| == |x[j]|
  {
    seq(|qs|, j requires 0 <= j < |qs| => PMod(PNeg(x[j]), qs[j]))
  }

  ghost function RScale(c: int, x: seq<Poly>, qs: seq<int>): (r: seq<Poly>)
    requires Moduli(qs) && |x| == |qs|
    ensures |r| == |qs| && Reduced(r, qs)
    ensures forall j :: 0 <= j < |r| ==> |r[j]| == |x[j]|
  {
    seq(|qs|, j requires 0 <= j < |qs| => PMod(PScale(c, x[j]), qs[j]))
  }

  ghost function RMul(x: seq<Poly>, y: seq<Poly>, qs: seq<int>): (r: seq<Poly>)
    requires Moduli(qs) && |x| == |y| == |qs| && forall j :: 0 <= j < |x| ==> |x[j]| == |y[j]|
    ensures |r| == |qs| && Reduced(r, qs)
    ensures forall j :: 0 <= j < |r| ==> |r[j]| == |x[j]|
  {
    seq(|qs|, j requires 0 <= j < |qs| => PMod(PMul(x[j], y[j]), qs[j]))
  }

  ghost function RAut(x: seq<Poly>, k: int, qs: seq<int>): (r: seq<Poly>)
    requires Moduli(qs) && |x| == |qs|
    ensures |r| == |qs| && Reduced(r, qs)
    ensures forall j :: 0 <= j < |r| ==> |r[j]| == |x[j]|
  {
    seq(|qs|, j requires 0 <= j < |qs| => PMod(PSubst(x[j], k), qs[j]))
  }

  // ------------------------------------------------------------------- residues

  ghost function Residues(a: Poly, qs: seq<int>): (r: seq<Poly>)
    requires Moduli(qs)
    ensures Shape(r, |a|, |qs|) && Reduced(r, qs)
    ensures forall j :: 0 <= j < |qs| ==> r[j] == PMod(a, qs[j])
  {
    seq(|qs|, j requires 0 <= j < |qs| => PMod(a, qs[j]))
  }

  lemma ResAdd(a: Poly, b: Poly, qs: seq<int>)
    requires Moduli(qs) && |a| == |b|
    ensures RAdd(Residues(a, qs), Residues(b, qs), qs) == Residues(PAdd(a, b), qs)
  {
    hide PMod, PAdd, PCong;
    var l, r := RAdd(Residues(a, qs), Residues(b, qs), qs), Residues(PAdd(a, b), qs);
    forall j | 0 <= j < |qs| ensures l[j] == r[j] {
      var q := qs[j];
      PModCong(a, q);
      PModCong(b, q);
      PCongAdd(PMod(a, q), a, PMod(b, q), b, q);
      PModEq(PAdd(PMod(a, q), PMod(b, q)), PAdd(a, b), q);
    }
  }

  lemma ResMul(a: Poly, b: Poly, qs: seq<int>)
    requires Moduli(qs) && |a| == |b|
    ensures RMul(Residues(a, qs), Residues(b, qs), qs) == Residues(PMul(a, b), qs)
  {
    hide PMod, PMul, PCong;
    var l, r := RMul(Residues(a, qs), Residues(b, qs), qs), Residues(PMul(a, b), qs);
    forall j | 0 <= j < |qs| ensures l[j] == r[j] {
      var q := qs[j];
      PModCong(a, q);
      PModCong(b, q);
      PCongMulBoth(PMod(a, q), a, PMod(b, q), b, q);
      PModEq(PMul(PMod(a, q), PMod(b, q)), PMul(a, b), q);
    }
  }

  lemma PCongScale(c: int, a: Poly, b: Poly, q: int)
    requires PCong(a, b, q)
    ensures PCong(PScale(c, a), PScale(c, b), q)
  {
    hide Cong;
    forall i | 0 <= i < |a| ensures Cong(c * a[i], c * b[i], q) {
      CongRefl(c, q);
      CongMul(c, c, a[i], b[i], q);
    }
  }

  lemma ResScale(c: int, a: Poly, qs: seq<int>)
    requires Moduli(qs)
    ensures RScale(c, Residues(a, qs), qs) == Residues(PScale(c, a), qs)
  {
    hide PMod, PScale, PCong;
    var l, r := RScale(c, Residues(a, qs), qs), Residues(PScale(c, a), qs);
    forall j | 0 <= j < |qs| ensures l[j] == r[j] {
      var q := qs[j];
      PModCong(a, q);
      PCongScale(c, PMod(a, q), a, q);
      PModEq(PScale(c, PMod(a, q)), PScale(c, a), q);
    }
  }

  lemma ResNeg(a: Poly, qs: seq<int>)
    requires Moduli(qs)
    ensures RNeg(Residues(a, qs), qs) == Residues(PNeg(a), qs)
  {
    hide PMod, PCong;
    var l, r := RNeg(Residues(a, qs), qs), Residues(PNeg(a), qs);
    forall j | 0 <= j < |qs| ensures l[j] == r[j] {
      var q := qs[j];
      PModCong(a, q);
      PCongScale(-1, PMod(a, q), a, q);
      assert PScale(-1, PMod(a, q)) == PNeg(PMod(a, q)) && PScale(-1, a) == PNeg(a);
      PModEq(PNeg(PMod(a, q)), PNeg(a), q);
    }
  }

  lemma ResSub(a: Poly, b: Poly, qs: seq<int>)
    requires Moduli(qs) && |a| == |b|
    ensures RSub(Residues(a, qs), Residues(b, qs), qs) == Residues(PSub(a, b), qs)
  {
    hide PMod, PCong;
    var l, r := RSub(Residues(a, qs), Residues(b, qs), qs), Residues(PSub(a, b), qs);
    forall j | 0 <= j < |qs| ensures l[j] == r[j] {
      var q := qs[j];
      PModCong(a, q);
      PModCong(b, q);
      PCongScale(-1, PMod(b, q), b, q);
      PCongAdd(PMod(a, q), a, PScale(-1, PMod(b, q)), PScale(-1, b), q);
      assert PAdd(PMod(a, q), PScale(-1, PMod(b, q))) == PSub(PMod(a, q), PMod(b, q));
      assert PAdd(a, PScale(-1, b)) == PSub(a, b);
      PModEq(PSub(PMod(a, q), PMod(b, q)), PSub(a, b), q);
    }
  }

  lemma PCongSubst(a: Poly, b: Poly, k: int, q: int)
    requires PCong(a, b, q)
    ensures PCong(PSubst(a, k), PSubst(b, k), q)
  {
    hide Coef;
    forall m | 0 <= m < |a|
      ensures Cong(PSubst(a, k)[m], PSubst(b, k)[m], q)
    {
      SubstCongAt(a, b, k, q, m);
    }
  }

  lemma SubstCongAt(a: Poly, b: Poly, k: int, q: int, m: int)
    requires |a| > 0 && PCong(a, b, q)
    ensures Cong(Lin(a, SubstFn(|a|, k, m)), Lin(b, SubstFn(|b|, k, m)), q)
  {
    hide Coef, Cong, SubstFn;
    var phi := SubstFn(|a|, k, m);
    forall i | 0 <= i < |a|
      ensures Cong(LinTerm(a, phi)(i), LinTerm(b, phi)(i), q)
    {
      CoefAt(a, i);
      CoefAt(b, i);
      CongRefl(phi(i), q);
      CongMul(a[i], b[i], phi(i), phi(i), q);
    }
    Sums.SumCong(|a|, LinTerm(a, phi), LinTerm(b, phi), q);
  }

  lemma ResAut(a: Poly, k: int, qs: seq<int>)
    requires Moduli(qs)
    ensures RAut(Residues(a, qs), k, qs) == Residues(PSubst(a, k), qs)
  {
    hide PMod, PSubst, PCong;
    var l, r := RAut(Residues(a, qs), k, qs), Residues(PSubst(a, k), qs);
    forall j | 0 <= j < |qs| ensures l[j] == r[j] {
      var q := qs[j];
      PModCong(a, q);
      PCongSubst(PMod(a, q), a, k, q);
      PModEq(PSubst(PMod(a, q), k), PSubst(a, k), q);
    }
  }

  // ---------------------------------------------- polynomials modulo the product

  lemma ResiduesCong(a: Poly, b: Poly, qs: seq<int>)
    requires Moduli(qs) && PCong(a, b, Product(qs))
    ensures Residues(a, qs) == Residues(b, qs)
  {
    hide PMod, Cong;
    forall j | 0 <= j < |qs|
      ensures Residues(a, qs)[j] == Residues(b, qs)[j]
    {
      forall i | 0 <= i < |a| ensures Cong(a[i], b[i], qs[j]) {
        CongProduct(qs, a[i], b[i], j);
      }
      PModEq(a, b, qs[j]);
    }
  }

  lemma PrimeModuli(qs: seq<int>)
    requires PrimeBasis(qs)
    ensures Moduli(qs) && Product(qs) >= 1
  {
    ProductPos(qs);
  }
}
