/** Why hybrid key switching preserves decryption: exact identities over Z[X]/(X^N + 1). */
module KeySwitchMath {
  import opened Integers
  import opened NumberTheory
  import opened Negacyclic
  import opened Rns
  import opened Crt
  import opened PolySums
  import opened RnsRescale
  import opened Rlwe

  // -------------------------------------------------------------------- digits

  /** The j-th digit: (c1 mod q_j) times the inverse of Q/q_j, reduced modulo q_j. */
  ghost function Digit(c1: seq<Poly>, qs: seq<int>, j: nat): (d: Poly)
    requires Moduli(qs) && |c1| == |qs| && j < |qs|
    ensures |d| == |c1[j]| && Below(d, qs[j])
  {
    PMod(PScale(CofactorInverse(qs, j), c1[j]), qs[j])
  }

  ghost function Digits(c1: seq<Poly>, n: nat, qs: seq<int>): (ds: seq<Poly>)
    requires Moduli(qs) && Shape(c1, n, |qs|)
    ensures |ds| == |qs| && Uniform(ds, n)
    ensures forall j :: 0 <= j < |qs| ==> ds[j] == Digit(c1, qs, j)
  {
    seq(|qs|, j requires 0 <= j < |qs| => Digit(c1, qs, j))
  }

  ghost function Cofactors(qs: seq<int>): (gs: seq<int>)
    ensures |gs| == |qs| && forall j :: 0 <= j < |qs| ==> gs[j] == Cofactor(qs, j)
  {
    seq(|qs|, j requires 0 <= j < |qs| => Cofactor(qs, j))
  }

  /** Cofactors of QP at the primes of Q. */
  ghost function RowScales(qs: seq<int>, ps: seq<int>): (gs: seq<int>)
    ensures |gs| == |qs| && forall j :: 0 <= j < |qs| ==> gs[j] == Cofactor(qs + ps, j)
  {
    seq(|qs|, j requires 0 <= j < |qs| => Cofactor(qs + ps, j))
  }

  lemma CofactorConcat(qs: seq<int>, ps: seq<int>, j: nat)
    requires j < |qs|
    ensures Cofactor(qs + ps, j) == Product(ps) * Cofactor(qs, j)
  {
    assert Without(qs + ps, j) == Without(qs, j) + ps;
    ProductConcat(Without(qs, j), ps);
    IntMulComm(Product(ps), Cofactor(qs, j));
  }

  /** Coefficient `i` of the weighted digits is the reconstruction sum of its residues. */
  lemma {:induction false} DigitSum(c1: seq<Poly>, n: nat, qs: seq<int>, k: nat, i: nat)
    requires Moduli(qs) && Shape(c1, n, |qs|) && k <= |qs| && i < n
    ensures Weighted(n, Cofactors(qs)[..k], Digits(c1, n, qs)[..k])[i] == CrtSum(Column(c1, i), qs, k)
  {
    hide Digit, Cofactor, CrtTerm;
    if k > 0 {
      var gs, ds := Cofactors(qs)[..k], Digits(c1, n, qs)[..k];
      assert gs[..k - 1] == Cofactors(qs)[..k - 1] && ds[..k - 1] == Digits(c1, n, qs)[..k - 1];
      DigitSum(c1, n, qs, k - 1, i);
      DigitTerm(c1, qs, k - 1, i);
    }
  }

  lemma DigitTerm(c1: seq<Poly>, qs: seq<int>, j: nat, i: nat)
    requires Moduli(qs) && |c1| == |qs| && j < |qs| && forall c :: 0 <= c < |c1| ==> i < |c1[c]|
    ensures Cofactor(qs, j) * Digit(c1, qs, j)[i] == CrtTerm(Column(c1, i), qs, j)
  {
    hide Cofactor, CofactorInverse;
    IntMulComm(CofactorInverse(qs, j), c1[j][i]);
  }

  /** The digits weighted by Q/q_j sum to c1 modulo Q. */
  lemma DigitsRecompose(C1: Poly, qs: seq<int>)
    requires PrimeBasis(qs) && Moduli(qs)
    ensures PCong(Weighted(|C1|, Cofactors(qs), Digits(Residues(C1, qs), |C1|, qs)), C1, Product(qs))
  {
    hide Cong, Weighted, Digits, Cofactors, Product, CrtSum, PMod, IsPrime;
    var n, c1 := |C1|, Residues(C1, qs);
    var w := Weighted(n, Cofactors(qs), Digits(c1, n, qs));
    forall i | 0 <= i < n ensures Cong(w[i], C1[i], Product(qs)) {
      DigitSum(c1, n, qs, |qs|, i);
      assert Cofactors(qs)[..|qs|] == Cofactors(qs) && Digits(c1, n, qs)[..|qs|] == Digits(c1, n, qs);
      forall j | 0 <= j < |qs| ensures Cong(w[i], C1[i], qs[j]) {
        CrtSumResidue(Column(c1, i), qs, |qs|, j);
        ModCong(C1[i], qs[j]);
        CongTrans(w[i], C1[i] % qs[j], C1[i], qs[j]);
      }
      CrtUnique(qs, w[i], C1[i]);
    }
  }

  // ------------------------------------------------------------ combining the rows

  /** A row encrypts g s_old under s with error e, modulo M. */
  ghost predicate RowRelation(b: Poly, a: Poly, e: Poly, s: Poly, g: int, oldKey: Poly, M: int) {
    |b| == |a| == |e| == |s| == |oldKey| && PCong(PAdd(b, PMul(a, s)), PAdd(e, PScale(g, oldKey)), M)
  }

  ghost predicate Rows(bs: seq<Poly>, aRows: seq<Poly>, es: seq<Poly>, s: Poly, gs: seq<int>, oldKey: Poly, M: int) {
    && |bs| == |aRows| == |es| == |gs|
    && forall j :: 0 <= j < |bs| ==> RowRelation(bs[j], aRows[j], es[j], s, gs[j], oldKey, M)
  }

  ghost function TimesAll(ps: seq<Poly>, s: Poly): (ts: seq<Poly>)
    requires Uniform(ps, |s|)
    ensures |ts| == |ps| && Uniform(ts, |s|) && forall j :: 0 <= j < |ps| ==> ts[j] == PMul(ps[j], s)
  {
    seq(|ps|, j requires 0 <= j < |ps| => PMul(ps[j], s))
  }

  ghost function AddAll(ps: seq<Poly>, rs: seq<Poly>, n: nat): (ts: seq<Poly>)
    requires |ps| == |rs| && Uniform(ps, n) && Uniform(rs, n)
    ensures |ts| == |ps| && Uniform(ts, n) && forall j :: 0 <= j < |ps| ==> ts[j] == PAdd(ps[j], rs[j])
  {
    seq(|ps|, j requires 0 <= j < |ps| => PAdd(ps[j], rs[j]))
  }

  ghost function ScaleAll(gs: seq<int>, x: Poly): (ts: seq<Poly>)
    ensures |ts| == |gs| && Uniform(ts, |x|) && forall j :: 0 <= j < |gs| ==> ts[j] == PScale(gs[j], x)
  {
    seq(|gs|, j requires 0 <= j < |gs| => PScale(gs[j], x))
  }

  /** Combining rows with digits combines the errors with the same digits. */
  lemma RowsCombine(n: nat, ds: seq<Poly>, bs: seq<Poly>, aRows: seq<Poly>, es: seq<Poly>, s: Poly,
                    gs: seq<int>, oldKey: Poly, M: int)
    requires |ds| == |bs| && Uniform(ds, n) && |s| == |oldKey| == n && Rows(bs, aRows, es, s, gs, oldKey, M)
    ensures Uniform(bs, n) && Uniform(aRows, n) && Uniform(es, n)
    ensures PCong(PAdd(Dot(n, ds, bs), PMul(Dot(n, ds, aRows), s)),
                  PAdd(Dot(n, ds, es), PMul(Weighted(n, gs, ds), oldKey)), M)
  {
    hide PMul, PAdd, PScale, PCong, Cong;
    RowsUniform(bs, aRows, es, s, gs, oldKey, M);
    var ts, ws := TimesAll(aRows, s), ScaleAll(gs, oldKey);
    var us, vs := AddAll(bs, ts, n), AddAll(es, ws, n);
    DotTimes(n, ds, aRows, ts, s);
    DotAdd(n, ds, bs, ts, us);
    DotAdd(n, ds, es, ws, vs);
    DotWeighted(n, ds, gs, ws, oldKey);
    forall j | 0 <= j < |us| ensures PCong(us[j], vs[j], M) {
      assert RowRelation(bs[j], aRows[j], es[j], s, gs[j], oldKey, M);
    }
    DotCong(n, ds, us, vs, M);
  }

  lemma RowsUniform(bs: seq<Poly>, aRows: seq<Poly>, es: seq<Poly>, s: Poly, gs: seq<int>, oldKey: Poly, M: int)
    requires Rows(bs, aRows, es, s, gs, oldKey, M)
    ensures Uniform(bs, |s|) && Uniform(aRows, |s|) && Uniform(es, |s|)
  {
    forall j | 0 <= j < |bs| ensures |bs[j]| == |aRows[j]| == |es[j]| == |s| {
      assert RowRelation(bs[j], aRows[j], es[j], s, gs[j], oldKey, M);
    }
  }

  // ---------------------------------------------------------------- dividing by P

  lemma QuotientRemainder(a: Poly, d: int)
    requires d > 0
    ensures a == PAdd(PScale(d, PDiv(a, d)), PMod(a, d))
  {
    forall i | 0 <= i < |a| ensures a[i] == PAdd(PScale(d, PDiv(a, d)), PMod(a, d))[i] {
      DivModId(a[i], d);
      IntMulComm(d, a[i] / d);
    }
  }

  /** The noise that dividing (fb, fa) by P leaves, times P: the remainders are in [0, P). */
  ghost function Leftover(noise: Poly, fb: Poly, fa: Poly, s: Poly, P: int): (r: Poly)
    requires P > 0 && |noise| == |fb| == |fa| == |s|
    ensures |r| == |s|
  {
    PSub(PSub(noise, PMod(fb, P)), PMul(PMod(fa, P), s))
  }

  /** What division by P leaves of the noise. */
  lemma SwitchNoise(fb: Poly, fa: Poly, noise: Poly, w: Poly, oldKey: Poly, s: Poly, P: int, Q: int)
    returns (eta: Poly)
    requires P > 0 && |fb| == |fa| == |noise| == |w| == |oldKey| == |s|
    requires PCong(PAdd(fb, PMul(fa, s)), PAdd(noise, PMul(PScale(P, w), oldKey)), Q * P)
    ensures |eta| == |s|
    ensures PScale(P, eta) == Leftover(noise, fb, fa, s, P)
    ensures PCong(PAdd(PDiv(fb, P), PMul(PDiv(fa, P), s)), PAdd(PMul(w, oldKey), eta), Q)
  {
    hide PMul, PDiv, PMod, Cong;
    var b, a, rb, ra := PDiv(fb, P), PDiv(fa, P), PMod(fb, P), PMod(fa, P);
    var K := PQuot(PAdd(fb, PMul(fa, s)), PAdd(noise, PMul(PScale(P, w), oldKey)), Q * P);
    QuotientRemainder(fb, P);
    QuotientRemainder(fa, P);
    MulAddLeft(PScale(P, a), ra, s);
    MulScaleLeft(P, a, s);
    MulScaleLeft(P, w, oldKey);
    eta := SolveEta(b, PMul(a, s), PMul(w, oldKey), rb, PMul(ra, s), noise, K, P, Q);
    PCongBy(PAdd(b, PMul(a, s)), PAdd(PMul(w, oldKey), eta), Q, K);
  }

  lemma SolveEta(x: Poly, y: Poly, z: Poly, r: Poly, u: Poly, noise: Poly, K: Poly, P: int, Q: int)
    returns (eta: Poly)
    requires |x| == |y| == |z| == |r| == |u| == |noise| == |K|
    requires PAdd(PAdd(PScale(P, x), r), PAdd(PScale(P, y), u)) == PAdd(PAdd(noise, PScale(P, z)), PScale(Q * P, K))
    ensures |eta| == |x|
    ensures PScale(P, eta) == PSub(PSub(noise, r), u)
    ensures PAdd(x, y) == PAdd(PAdd(z, eta), PScale(Q, K))
  {
    hide PSub, PAdd, PScale;
    eta := PSub(PSub(PAdd(x, y), z), PScale(Q, K));
    EtaRestores(PAdd(x, y), z, PScale(Q, K));
    EtaScaled(x, y, z, r, u, noise, K, P, Q);
  }

  lemma EtaRestores(v: Poly, z: Poly, w: Poly)
    requires |v| == |z| == |w|
    ensures v == PAdd(PAdd(z, PSub(PSub(v, z), w)), w)
  {}

  lemma EtaScaled(x: Poly, y: Poly, z: Poly, r: Poly, u: Poly, noise: Poly, K: Poly, P: int, Q: int)
    requires |x| == |y| == |z| == |r| == |u| == |noise| == |K|
    requires PAdd(PAdd(PScale(P, x), r), PAdd(PScale(P, y), u)) == PAdd(PAdd(noise, PScale(P, z)), PScale(Q * P, K))
    ensures PScale(P, PSub(PSub(PAdd(x, y), z), PScale(Q, K))) == PSub(PSub(noise, r), u)
  {
    var l, m := PAdd(PAdd(PScale(P, x), r), PAdd(PScale(P, y), u)), PAdd(PAdd(noise, PScale(P, z)), PScale(Q * P, K));
    var v, w := PScale(P, PSub(PSub(PAdd(x, y), z), PScale(Q, K))), PSub(PSub(noise, r), u);
    forall i | 0 <= i < |x| ensures v[i] == w[i] {
      assert l[i] == m[i];
      SolveCoefficient(x[i], y[i], z[i], r[i], u[i], noise[i], K[i], P, Q);
    }
  }

  lemma SolveCoefficient(x: int, y: int, z: int, r: int, u: int, e: int, k: int, P: int, Q: int)
    requires P * x + r + (P * y + u) == e + P * z + Q * P * k
    ensures P * (x + y - z - Q * k) == e - r - u
  {
    assert P * (x + y - z - Q * k) == P * x + P * y - P * z - P * (Q * k);
    assert P * (Q * k) == Q * P * k;
  }

  // --------------------------------------------------------------- main theorem

  /** Switching with any rows that encrypt (QP/q_j) s_old: the new pair decrypts, modulo Q, to
      c0 + c1 s_old + eta with P eta = sum d_j e_j - r_b - r_a s and remainders in [0, P). */
  lemma KeySwitchCorrect(C0: Poly, C1: Poly, bs: seq<Poly>, aRows: seq<Poly>, es: seq<Poly>, s: Poly, oldKey: Poly,
                         qs: seq<int>, ps: seq<int>) returns (eta: Poly)
    requires |C0| == |C1| == |s| == |oldKey| > 0
    requires |qs| > 0 && |ps| > 0 && PrimeBasis(qs + ps) && Moduli(qs) && Product(ps) >= 1
    requires Rows(bs, aRows, es, s, RowScales(qs, ps), oldKey, Product(qs + ps))
    ensures Uniform(bs, |s|) && Uniform(aRows, |s|) && Uniform(es, |s|) && |eta| == |s|
    ensures var n, P, ds := |s|, Product(ps), Digits(Residues(C1, qs), |s|, qs);
      && PScale(P, eta) == Leftover(Dot(n, ds, es), Dot(n, ds, bs), Dot(n, ds, aRows), s, P)
      && PCong(Phase2(PAdd(C0, PDiv(Dot(n, ds, bs), P)), PDiv(Dot(n, ds, aRows), P), s),
               PAdd(Phase2(C0, C1, oldKey), eta), Product(qs))
  {
    hide PMul, PAdd, PScale, PCong, Cong, Product, Leftover, PDiv, Dot, Weighted, Digits, Phase2;
    var n, Q, P := |s|, Product(qs), Product(ps);
    var ds := Digits(Residues(C1, qs), n, qs);
    BasisParts(qs, ps);
    RowsUniform(bs, aRows, es, s, RowScales(qs, ps), oldKey, Product(qs + ps));
    RowsCombine(n, ds, bs, aRows, es, s, RowScales(qs, ps), oldKey, Product(qs + ps));
    forall j | 0 <= j < |qs| ensures RowScales(qs, ps)[j] == P * Cofactors(qs)[j] {
      CofactorConcat(qs, ps, j);
    }
    var w := Weighted(n, Cofactors(qs), ds);
    WeightedScale(n, P, Cofactors(qs), RowScales(qs, ps), ds);
    var fb, fa, noise := Dot(n, ds, bs), Dot(n, ds, aRows), Dot(n, ds, es);
    eta := SwitchNoise(fb, fa, noise, w, oldKey, s, P, Q);
    DigitsRecompose(C1, qs);
    AssemblePhase(C0, C1, PDiv(fb, P), PDiv(fa, P), w, oldKey, s, eta, Q);
  }

  lemma AssemblePhase(C0: Poly, C1: Poly, b: Poly, a: Poly, w: Poly, oldKey: Poly, s: Poly, eta: Poly, Q: int)
    requires |C0| == |C1| == |b| == |a| == |w| == |oldKey| == |s| == |eta| > 0
    requires PCong(PAdd(b, PMul(a, s)), PAdd(PMul(w, oldKey), eta), Q) && PCong(w, C1, Q)
    ensures PCong(Phase2(PAdd(C0, b), a, s), PAdd(Phase2(C0, C1, oldKey), eta), Q)
  {
    hide PMul, PAdd, PCong;
    AddAssoc(C0, b, PMul(a, s));
    AddAssoc(C0, PMul(C1, oldKey), eta);
    PCongRefl(oldKey, Q);
    PCongMulBoth(w, C1, oldKey, oldKey, Q);
    PCongRefl(eta, Q);
    PCongAdd(PMul(w, oldKey), PMul(C1, oldKey), eta, eta, Q);
    PCongTrans(PAdd(b, PMul(a, s)), PAdd(PMul(w, oldKey), eta), PAdd(PMul(C1, oldKey), eta), Q);
    PCongRefl(C0, Q);
    PCongAdd(C0, C0, PAdd(b, PMul(a, s)), PAdd(PMul(C1, oldKey), eta), Q);
  }

  /** The largest digit of each position. */
  ghost function DigitBounds(qs: seq<int>): (bs: seq<int>)
    ensures |bs| == |qs| && forall j :: 0 <= j < |qs| ==> bs[j] == qs[j] - 1
  {
    seq(|qs|, j requires 0 <= j < |qs| => qs[j] - 1)
  }

  lemma BelowBound(a: Poly, q: int)
    requires Below(a, q)
    ensures PBound(a, q - 1)
  {}

  lemma SubBound(a: Poly, b: Poly, A: int, B: int)
    requires |a| == |b| && PBound(a, A) && PBound(b, B)
    ensures PBound(PSub(a, b), A + B)
  {}

  /** N B sum(q_j - 1) + (P - 1)(N + 1). */
  ghost function SwitchBound(n: nat, qs: seq<int>, P: int, B: int): int {
    DigitNoise(n, qs, B) + (P - 1) * (n + 1)
  }

  ghost function DigitNoise(n: nat, qs: seq<int>, B: int): int {
    n * (SumOf(DigitBounds(qs)) * B)
  }

  /** For |e| <= B and a ternary key, P |eta| <= N B sum(q_j - 1) + (P - 1)(N + 1). */
  lemma SwitchNoiseBound(c1: seq<Poly>, bs: seq<Poly>, aRows: seq<Poly>, es: seq<Poly>, s: Poly,
                         qs: seq<int>, P: int, B: int)
    requires Moduli(qs) && Shape(c1, |s|, |qs|) && P >= 1 && B >= 0 && PBound(s, 1)
    requires |bs| == |aRows| == |es| == |qs| && Uniform(bs, |s|) && Uniform(aRows, |s|) && Uniform(es, |s|)
    requires forall j :: 0 <= j < |es| ==> PBound(es[j], B)
    ensures var n, ds := |s|, Digits(c1, |s|, qs);
      PBound(Leftover(Dot(n, ds, es), Dot(n, ds, bs), Dot(n, ds, aRows), s, P), SwitchBound(n, qs, P, B))
  {
    hide *;
    var n, ds := |s|, Digits(c1, |s|, qs);
    NoiseDotBound(c1, es, n, qs, B);
    RemaindersBound(Dot(n, ds, es), Dot(n, ds, bs), Dot(n, ds, aRows), s, P, DigitNoise(n, qs, B));
    SwitchBoundIs(n, qs, P, B);
  }

  lemma SwitchBoundIs(n: nat, qs: seq<int>, P: int, B: int)
    ensures SwitchBound(n, qs, P, B) == DigitNoise(n, qs, B) + (P - 1) * (n + 1)
  {}

  /** Every modulus adds N B (q - 1) to the bound, and without any it is (P - 1)(N + 1). */
  lemma SwitchBoundGrows(n: nat, qs: seq<int>, q: int, P: int, B: int)
    ensures SwitchBound(n, [], P, B) == (P - 1) * (n + 1)
    ensures SwitchBound(n, qs + [q], P, B) == SwitchBound(n, qs, P, B) + n * B * (q - 1)
  {
    assert DigitBounds(qs + [q])[..|qs|] == DigitBounds(qs);
    var s := SumOf(DigitBounds(qs));
    assert n * ((s + (q - 1)) * B) == n * (s * B) + n * B * (q - 1);
  }

  lemma NoiseDotBound(c1: seq<Poly>, es: seq<Poly>, n: nat, qs: seq<int>, B: int)
    requires Moduli(qs) && Shape(c1, n, |qs|) && B >= 0 && |es| == |qs| && Uniform(es, n)
    requires forall j :: 0 <= j < |es| ==> PBound(es[j], B)
    ensures PBound(Dot(n, Digits(c1, n, qs), es), DigitNoise(n, qs, B))
  {
    hide PMul, Dot, SumOf, PBound, DigitBounds, Digits;
    DigitsBounded(c1, n, qs);
    DotBound(n, Digits(c1, n, qs), es, DigitBounds(qs), B);
  }

  lemma DigitsBounded(c1: seq<Poly>, n: nat, qs: seq<int>)
    requires Moduli(qs) && Shape(c1, n, |qs|)
    ensures forall j :: 0 <= j < |qs| ==> DigitBounds(qs)[j] >= 0 && PBound(Digits(c1, n, qs)[j], DigitBounds(qs)[j])
  {
    hide Digit, PBound, Below;
    forall j | 0 <= j < |qs| ensures DigitBounds(qs)[j] >= 0 && PBound(Digits(c1, n, qs)[j], DigitBounds(qs)[j]) {
      BelowBound(Digit(c1, qs, j), qs[j]);
    }
  }

  lemma RemaindersBound(noise: Poly, fb: Poly, fa: Poly, s: Poly, P: int, B: int)
    requires |noise| == |fb| == |fa| == |s| && P >= 1 && PBound(noise, B) && PBound(s, 1)
    ensures PBound(Leftover(noise, fb, fa, s, P), B + (P - 1) * (|s| + 1))
  {
    hide PMul, PSub, PBound, PMod;
    var n, rb, ra := |s|, PMod(fb, P), PMod(fa, P);
    BelowBound(rb, P);
    BelowBound(ra, P);
    MulBoundPoly(ra, s, P - 1, 1);
    SubBound(noise, rb, B, P - 1);
    SubBound(PSub(noise, rb), PMul(ra, s), B + (P - 1), n * ((P - 1) * 1));
    BoundTotal(P - 1, n);
  }

  lemma BoundTotal(p: int, n: int)
    ensures p * (n + 1) == p + n * (p * 1)
  {}
}
