/** BFV: Delta scaling, encryption, plaintext addition, and the tensor-and-rescale product. */
module Bfv {
  import opened Integers
  import opened NumberTheory
  import opened Results
  import opened Negacyclic
  import opened Rns
  import opened Crt
  import opened PolySums
  import opened RnsExtension
  import opened RnsRescale
  import opened Rings
  import opened Rlwe
  import opened KeySwitch

  /** Delta = floor(Q / t). */
  ghost function Delta(qs: seq<int>, t: int): int
    requires t > 0
  {
    Product(qs) / t
  }

  /** The plaintext times Delta, component by component. */
  method ScaleByDelta(ring: Ring, poly: RnsPoly, t: u64, ghost m: Poly) returns (r: RnsPoly)
    requires ring.Valid() && t > 0 && |m| == ring.degree && poly == Residues(m, ring.moduli)
    ensures r == Residues(PScale(Delta(ring.moduli, t), m), ring.moduli)
  {
    hide PMod, Residues, TwoTo, Product;
    var residues := FloorDivideResidues(ring.moduli, t);
    r := ScalePolyPerComponent(ring, poly, residues, Delta(ring.moduli, t));
    ResScale(Delta(ring.moduli, t), m, ring.moduli);
  }

  /** (Delta m + e - a s, a). */
  method EncryptSecretReal(ring: Ring, t: u64, pt: RnsPoly, sk: RnsPoly, a: RnsPoly, e: RnsPoly,
                           ghost m: Poly, ghost s: Poly, ghost A: Poly, ghost E: Poly) returns (r: Result<Ciphertext>)
    requires ring.Sound() && t > 0 && |m| == |s| == |A| == |E| == ring.degree
    requires sk == Residues(s, ring.moduli) && a == Residues(A, ring.moduli) && e == Residues(E, ring.moduli)
    requires ring.Fits(pt) ==> pt == Residues(m, ring.moduli)
    ensures r.Ok? <==> ring.Fits(pt)
    ensures r.Ok? ==> |r.value| == 2 && r.value[1] == a
                      && r.value[0] == Residues(PSub(PAdd(PScale(Delta(ring.moduli, t), m), E), PMul(A, s)),
                                                ring.moduli)
    ensures r.Err? ==> r.error == DimensionMismatch
  {
    hide PMul, PMod, Residues, IsPrime, Ring.Sound, TwoTo, Delta;
    SoundIsValid(ring);
    if !ring.Fits(pt) {
      return Err(DimensionMismatch);
    }
    ghost var D := PScale(Delta(ring.moduli, t), m);
    var deltaM := ScaleByDelta(ring, pt, t, m);
    var product := ring.Mul(a, sk);
    ResMul(A, s, ring.moduli);
    var noisy := ring.Add(deltaM, e);
    ResAdd(D, E, ring.moduli);
    var c0 := ring.Sub(noisy.value, product.value);
    ResSub(PAdd(D, E), PMul(A, s), ring.moduli);
    return Ok([c0.value, a]);
  }

  /** (Delta m + b u + e0, a u + e1). */
  method EncryptPublicReal(ring: Ring, t: u64, pt: RnsPoly, b: RnsPoly, a: RnsPoly, u: RnsPoly, e0: RnsPoly,
                           e1: RnsPoly,
                           ghost m: Poly, ghost B: Poly, ghost A: Poly, ghost U: Poly, ghost E0: Poly, ghost E1: Poly)
    returns (r: Result<Ciphertext>)
    requires ring.Sound() && t > 0 && |m| == |B| == |A| == |U| == |E0| == |E1| == ring.degree
    requires a == Residues(A, ring.moduli) && b == Residues(B, ring.moduli) && u == Residues(U, ring.moduli)
    requires e0 == Residues(E0, ring.moduli) && e1 == Residues(E1, ring.moduli)
    requires ring.Fits(pt) ==> pt == Residues(m, ring.moduli)
    ensures r.Ok? <==> ring.Fits(pt)
    ensures r.Ok? ==> |r.value| == 2
                      && r.value[0] == Residues(PAdd(PAdd(PScale(Delta(ring.moduli, t), m), PMul(B, U)), E0),
                                                ring.moduli)
                      && r.value[1] == Residues(PAdd(PMul(A, U), E1), ring.moduli)
    ensures r.Err? ==> r.error == DimensionMismatch
  {
    hide PMul, PMod, Residues, IsPrime, Ring.Sound, TwoTo, Delta;
    SoundIsValid(ring);
    if !ring.Fits(pt) {
      return Err(DimensionMismatch);
    }
    ghost var D := PScale(Delta(ring.moduli, t), m);
    var deltaM := ScaleByDelta(ring, pt, t, m);
    r := EncryptPublic(ring, deltaM, b, a, u, e0, e1, D, B, A, U, E0, E1);
  }

  /** c0 + Delta m2; the other components are kept. */
  method AddPlainReal(ring: Ring, t: u64, ct: Ciphertext, pt: RnsPoly, ghost m: Poly, ghost c0: Poly)
    returns (r: Result<Ciphertext>)
    requires ring.Valid() && t > 0 && |m| == |c0| == ring.degree
    requires ring.Fits(pt) ==> pt == Residues(m, ring.moduli)
    requires |ct| > 0 && ring.Fits(ct[0]) ==> ct[0] == Residues(c0, ring.moduli)
    ensures r.Ok? <==> ring.Fits(pt) && |ct| > 0 && ring.Fits(ct[0])
    ensures r.Ok? ==> |r.value| == |ct| && r.value[1..] == ct[1..]
                      && r.value[0] == Residues(PAdd(c0, PScale(Delta(ring.moduli, t), m)), ring.moduli)
    ensures r.Err? ==> r.error == DimensionMismatch
  {
    hide PMul, PMod, Residues, IsPrime, TwoTo, Delta;
    if !ring.Fits(pt) {
      return Err(DimensionMismatch);
    }
    var deltaM := ScaleByDelta(ring, pt, t, m);
    if |ct| == 0 {
      return Err(DimensionMismatch);
    }
    var sum :- ring.Add(ct[0], deltaM);
    ResAdd(c0, PScale(Delta(ring.moduli, t), m), ring.moduli);
    return Ok(ct[0 := sum]);
  }

  /** A fresh ciphertext decrypts to Delta m + e, exactly. */
  lemma RealEncryptionPhase(D: Poly, E: Poly, A: Poly, s: Poly)
    requires |D| == |E| == |A| == |s|
    ensures Phase2(PSub(PAdd(D, E), PMul(A, s)), A, s) == PAdd(D, E)
  {
    hide PMul, PAdd, PSub;
    RestoreMasked(PAdd(D, E), PMul(A, s));
  }

  lemma RestoreMasked(x: Poly, y: Poly)
    requires |x| == |y|
    ensures PAdd(PSub(x, y), y) == x
  {}

  /** Adding Delta m2 to the first component adds it to the decrypted value. */
  lemma AddPlainPhase(c0: Poly, c1: Poly, s: Poly, D: Poly)
    requires |c0| == |c1| == |s| == |D|
    ensures Phase2(PAdd(c0, D), c1, s) == PAdd(Phase2(c0, c1, s), D)
  {
    hide PMul;
    SwapLast(c0, D, PMul(c1, s));
  }

  /** Decoding Delta m + e, taken modulo Q, returns m while the error is small. */
  lemma BfvDecodes(x: Poly, m: Poly, e: Poly, qs: seq<int>, t: int)
    requires PrimeBasis(qs) && Moduli(qs) && t > 1 && |x| == |m| == |e| > 0 && Product(qs) >= 1
    requires PCong(x, PAdd(PScale(Delta(qs, t), m), e), Product(qs))
    requires forall i :: 0 <= i < |m| ==> 0 <= m[i] < t && 2 * (t * Abs(e[i]) + Product(qs) % t * m[i]) < Product(qs)
    ensures PMod(RoundPoly(PScale(t, CenteredLift(Residues(x, qs), |x|, qs)), Product(qs)), t) == m
  {
    hide PMod, RoundDiv, Lift, IsPrime, Product, Cong, Residues;
    var Q, v := Product(qs), CenteredLift(Residues(x, qs), |x|, qs);
    LiftOfResidues(x, qs);
    var w := PAdd(PScale(Delta(qs, t), m), e);
    forall i | 0 <= i < |m| ensures PMod(RoundPoly(PScale(t, v), Q), t)[i] == m[i] {
      assert Cong(x[i], w[i], Q);
      CenteredResidueCong(x[i], w[i], Q);
      DecodeDelta(v[i], m[i], e[i], Q, t);
    }
  }

  lemma CenteredResidueCong(x: int, w: int, Q: int)
    requires Q > 0 && Cong(x, w, Q)
    ensures Cong(Center(x % Q, Q), w, Q)
  {
    ModCong(x, Q);
    CongTrans(x % Q, x, w, Q);
    CongRefl(x % Q, Q);
    CongBy(x % Q - Q, x % Q, Q, -1);
    CongTrans(x % Q - Q, x % Q, w, Q);
  }

  // ------------------------------------------------------------- multiplication

  /** Extends one component to the auxiliary basis: the residues of its [0, Q) representative. */
  method Extend(poly: RnsPoly, ring: Ring, qp: seq<Modulus>) returns (r: RnsPoly)
    requires ring.Valid() && ring.Fits(poly) && PrimeBasis(ring.moduli) && |qp| > 0
    ensures r == Residues(Lift(poly, ring.degree, ring.moduli), qp)
  {
    hide TwoTo, Lift, PMod;
    var extended := ExtendBasis(poly, ring.moduli, qp);
    r := extended.value;
  }

  /** The three components of the exact integer tensor product. */
  ghost function TensorOf(l0: Poly, l1: Poly, r0: Poly, r1: Poly): (d: (Poly, Poly, Poly))
    requires |l0| == |l1| == |r0| == |r1|
    ensures |d.0| == |d.1| == |d.2| == |l0|
  {
    (PMul(l0, r0), PAdd(PMul(l0, r1), PMul(l1, r0)), PMul(l1, r1))
  }

  /** round(t v / Q) of the value that `d` has modulo QP, centered. */
  ghost function Rescaled(d: Poly, qs: seq<int>, ps: seq<int>, t: int): (r: Poly)
    requires PrimeBasis(qs + ps) && Moduli(qs + ps) && Product(qs) >= 1
    ensures |r| == |d|
  {
    RoundPoly(PScale(t, CenteredLift(Residues(d, qs + ps), |d|, qs + ps)), Product(qs))
  }

  /** The unrelinearized product of two degree-1 ciphertexts. */
  method MulReal(ring: Ring, t: Modulus, lhs: Ciphertext, rhs: Ciphertext, pModuli: seq<Modulus>)
    returns (r: Result<Ciphertext>)
    requires ring.Valid() && PrimeBasis(ring.moduli + pModuli) && PrimeBasis(ring.moduli)
    requires |lhs| >= 2 && |rhs| >= 2
    ensures Product(ring.moduli) >= 1
    ensures r.Ok? <==> |pModuli| > 0 && ring.Fits(lhs[0]) && ring.Fits(lhs[1])
                       && ring.Fits(rhs[0]) && ring.Fits(rhs[1])
    ensures r.Err? ==> r.error == DimensionMismatch
    ensures r.Ok? ==> var n, qs := ring.degree, ring.moduli;
      var d := TensorOf(Lift(lhs[0], n, qs), Lift(lhs[1], n, qs), Lift(rhs[0], n, qs), Lift(rhs[1], n, qs));
      && |r.value| == 3
      && r.value[0] == Residues(Rescaled(d.0, qs, pModuli, t), qs)
      && r.value[1] == Residues(Rescaled(d.1, qs, pModuli, t), qs)
      && r.value[2] == Residues(Rescaled(d.2, qs, pModuli, t), qs)
  {
    hide PMul, PMod, Residues, IsPrime, TwoTo, Ring.Sound, Lift, Product, RoundPoly, CenteredLift, Residues;
    PrimeModuli(ring.moduli);
    var n, qp := ring.degree, ring.moduli + pModuli;
    if |pModuli| == 0 {
      return Err(DimensionMismatch);
    }
    BasisParts(ring.moduli, pModuli);
    if !ring.Fits(lhs[0]) || !ring.Fits(lhs[1]) || !ring.Fits(rhs[0]) || !ring.Fits(rhs[1]) {
      return Err(DimensionMismatch);
    }
    var qpRing := ExtendedRing(ring, pModuli);
    SoundIsValid(qpRing);
    ghost var l0, l1 := Lift(lhs[0], n, ring.moduli), Lift(lhs[1], n, ring.moduli);
    ghost var r0, r1 := Lift(rhs[0], n, ring.moduli), Lift(rhs[1], n, ring.moduli);
    var lhs0 := Extend(lhs[0], ring, qp);
    var lhs1 := Extend(lhs[1], ring, qp);
    var rhs0 := Extend(rhs[0], ring, qp);
    var rhs1 := Extend(rhs[1], ring, qp);
    var d0, d1, d2 := TensorRing(qpRing, lhs0, lhs1, rhs0, rhs1, l0, l1, r0, r1);
    var c0 := Rescale(d0, ring, pModuli, t, PMul(l0, r0));
    var c1 := Rescale(d1, ring, pModuli, t, PAdd(PMul(l0, r1), PMul(l1, r0)));
    var c2 := Rescale(d2, ring, pModuli, t, PMul(l1, r1));
    return Ok([c0, c1, c2]);
  }

  method TensorRing(qpRing: Ring, lhs0: RnsPoly, lhs1: RnsPoly, rhs0: RnsPoly, rhs1: RnsPoly,
                    ghost l0: Poly, ghost l1: Poly, ghost r0: Poly, ghost r1: Poly)
    returns (d0: RnsPoly, d1: RnsPoly, d2: RnsPoly)
    requires qpRing.Sound() && |l0| == |l1| == |r0| == |r1| == qpRing.degree
    requires lhs0 == Residues(l0, qpRing.moduli) && lhs1 == Residues(l1, qpRing.moduli)
    requires rhs0 == Residues(r0, qpRing.moduli) && rhs1 == Residues(r1, qpRing.moduli)
    ensures d0 == Residues(PMul(l0, r0), qpRing.moduli)
    ensures d1 == Residues(PAdd(PMul(l0, r1), PMul(l1, r0)), qpRing.moduli)
    ensures d2 == Residues(PMul(l1, r1), qpRing.moduli)
  {
    hide PMul, PMod, Residues, IsPrime, TwoTo, Ring.Sound;
    SoundIsValid(qpRing);
    var qp := qpRing.moduli;
    var p00 := qpRing.Mul(lhs0, rhs0);
    ResMul(l0, r0, qp);
    var p01 := qpRing.Mul(lhs0, rhs1);
    ResMul(l0, r1, qp);
    var p10 := qpRing.Mul(lhs1, rhs0);
    ResMul(l1, r0, qp);
    var sum := qpRing.Add(p01.value, p10.value);
    ResAdd(PMul(l0, r1), PMul(l1, r0), qp);
    var p11 := qpRing.Mul(lhs1, rhs1);
    ResMul(l1, r1, qp);
    d0, d1, d2 := p00.value, sum.value, p11.value;
  }

  method Rescale(d: RnsPoly, ring: Ring, pModuli: seq<Modulus>, t: Modulus, ghost D: Poly) returns (c: RnsPoly)
    requires ring.Valid() && |pModuli| > 0 && PrimeBasis(ring.moduli + pModuli) && Product(ring.moduli) >= 1
    requires |D| == ring.degree && d == Residues(D, ring.moduli + pModuli)
    ensures c == Residues(Rescaled(D, ring.moduli, pModuli, t), ring.moduli)
  {
    hide PMod, IsPrime, TwoTo, Lift, Product, RoundPoly;
    var rescaled := RescaleAndRound(d, ring.moduli, pModuli, t);
    c := rescaled.value;
  }

  /** For P >= 4 N Q the centered value modulo QP is the exact tensor, so the product is round(t D / Q). */
  lemma TensorIsExact(l0: Poly, l1: Poly, r0: Poly, r1: Poly, qs: seq<int>, ps: seq<int>, t: int)
    requires |l0| == |l1| == |r0| == |r1| > 0 && |qs| > 0 && |ps| > 0
    requires PrimeBasis(qs + ps) && Moduli(qs + ps) && Product(qs) >= 1
    requires Below(l0, Product(qs)) && Below(l1, Product(qs)) && Below(r0, Product(qs)) && Below(r1, Product(qs))
    requires Product(ps) >= 4 * |l0| * Product(qs)
    ensures var d := TensorOf(l0, l1, r0, r1);
      && Rescaled(d.0, qs, ps, t) == RoundPoly(PScale(t, d.0), Product(qs))
      && Rescaled(d.1, qs, ps, t) == RoundPoly(PScale(t, d.1), Product(qs))
      && Rescaled(d.2, qs, ps, t) == RoundPoly(PScale(t, d.2), Product(qs))
  {
    hide PMul, Product, IsPrime, PrimeBasis, Rescaled, RoundPoly, PScale, PAdd, TensorSize, PBound, Below;
    var Q := Product(qs);
    TensorBounds(l0, l1, r0, r1, Q);
    TensorFits(|l0|, Q, Product(ps));
    ExactRescale(PMul(l0, r0), qs, ps, t, 2 * TensorSize(|l0|, Q));
    ExactRescale(PAdd(PMul(l0, r1), PMul(l1, r0)), qs, ps, t, 2 * TensorSize(|l0|, Q));
    ExactRescale(PMul(l1, r1), qs, ps, t, 2 * TensorSize(|l0|, Q));
  }

  /** N (Q - 1)^2: the size of one product of [0, Q) representatives. */
  ghost function TensorSize(n: nat, Q: int): int {
    n * ((Q - 1) * (Q - 1))
  }

  lemma TensorBounds(l0: Poly, l1: Poly, r0: Poly, r1: Poly, Q: int)
    requires |l0| == |l1| == |r0| == |r1| && Q >= 1
    requires Below(l0, Q) && Below(l1, Q) && Below(r0, Q) && Below(r1, Q)
    ensures PBound(PMul(l0, r0), 2 * TensorSize(|l0|, Q)) && PBound(PMul(l1, r1), 2 * TensorSize(|l0|, Q))
    ensures PBound(PAdd(PMul(l0, r1), PMul(l1, r0)), 2 * TensorSize(|l0|, Q))
  {
    hide PMul, PAdd, Below;
    BelowBoundAll(l0, l1, r0, r1, Q);
    ProductSize(l0, r0, Q);
    ProductSize(l0, r1, Q);
    ProductSize(l1, r0, Q);
    ProductSize(l1, r1, Q);
    hide TensorSize;
    AddBound(PMul(l0, r1), PMul(l1, r0), TensorSize(|l0|, Q), TensorSize(|l0|, Q));
  }

  lemma ProductSize(a: Poly, b: Poly, Q: int)
    requires |a| == |b| && Q >= 1 && PBound(a, Q - 1) && PBound(b, Q - 1)
    ensures 0 <= TensorSize(|a|, Q) && PBound(PMul(a, b), TensorSize(|a|, Q))
  {
    hide PMul, PBound;
    MulBoundPoly(a, b, Q - 1, Q - 1);
    MulBound(Q - 1, Q - 1, Q - 1, Q - 1);
    MulMono(0, (Q - 1) * (Q - 1), |a|);
    IntMulComm(|a|, (Q - 1) * (Q - 1));
  }

  lemma BelowBoundAll(a: Poly, b: Poly, c: Poly, d: Poly, Q: int)
    requires Below(a, Q) && Below(b, Q) && Below(c, Q) && Below(d, Q)
    ensures PBound(a, Q - 1) && PBound(b, Q - 1) && PBound(c, Q - 1) && PBound(d, Q - 1)
  {}

  lemma TensorFits(n: nat, Q: int, P: int)
    requires n > 0 && Q >= 1 && P >= 4 * n * Q
    ensures 2 * (2 * TensorSize(n, Q)) < Q * P
  {
    MulMono(4 * n * Q, P, Q);
    MulBound(Q - 1, Q - 1, Q - 1, Q - 1);
    SquareBelow(Q);
    MulMono((Q - 1) * (Q - 1), Q * Q - 1, n);
    MulMono(0, (Q - 1) * (Q - 1), n);
    assert n * ((Q - 1) * (Q - 1)) == (Q - 1) * (Q - 1) * n;
    assert (Q * Q - 1) * n == Q * Q * n - n;
    assert 4 * n * Q * Q == 4 * (Q * Q * n);
  }

  lemma SquareBelow(Q: int)
    requires Q >= 1
    ensures (Q - 1) * (Q - 1) <= Q * Q - 1
  {
    assert (Q - 1) * (Q - 1) == Q * Q - 2 * Q + 1;
  }

  lemma ExactRescale(d: Poly, qs: seq<int>, ps: seq<int>, t: int, B: int)
    requires PrimeBasis(qs + ps) && Moduli(qs + ps) && Product(qs) >= 1 && |qs| > 0 && |ps| > 0
    requires PBound(d, B) && 2 * B < Product(qs) * Product(ps)
    ensures Rescaled(d, qs, ps, t) == RoundPoly(PScale(t, d), Product(qs))
  {
    hide Product, IsPrime, Lift, RoundPoly, PScale, PMod;
    BasisParts(qs, ps);
    ProductConcat(qs, ps);
    PrimeModuli(qs + ps);
    CenteredLiftOfResidues(d, qs + ps);
  }

  // ---------------------------------------- what the product ciphertext decrypts to

  /** Q round(t d / Q) - t d: at most Q/2 in magnitude. */
  ghost function RoundingError(d: Poly, t: int, Q: int): (r: Poly)
    requires Q > 0
    ensures |r| == |d| && PScale(Q, RoundPoly(PScale(t, d), Q)) == PAdd(PScale(t, d), r)
    ensures PBound(PScale(2, r), Q)
  {
    hide RoundDiv;
    var x := PScale(t, d);
    var r := seq(|d|, i requires 0 <= i < |d| => Q * RoundDiv(x[i], Q) - x[i]);
    forall i | 0 <= i < |d| ensures -Q <= PScale(2, r)[i] <= Q {
      RoundDivNearest(x[i], Q);
    }
    assert PScale(Q, RoundPoly(x, Q)) == PAdd(x, r);
    r
  }

  /** Q times the product's phase is t times the product of the phases, plus the rounding
      errors rho_0 + rho_1 s + rho_2 s^2. */
  lemma ProductPhaseReal(l0: Poly, l1: Poly, r0: Poly, r1: Poly, s: Poly, t: int, Q: int)
    requires |l0| == |l1| == |r0| == |r1| == |s| && Q > 0
    ensures var d := TensorOf(l0, l1, r0, r1);
      PScale(Q, Phase3(RoundPoly(PScale(t, d.0), Q), RoundPoly(PScale(t, d.1), Q), RoundPoly(PScale(t, d.2), Q), s))
      == PAdd(PScale(t, PMul(Phase2(l0, l1, s), Phase2(r0, r1, s))),
              Phase3(RoundingError(d.0, t, Q), RoundingError(d.1, t, Q), RoundingError(d.2, t, Q), s))
  {
    hide PMul, PAdd, PScale, RoundPoly, RoundingError, Phase3, Phase2;
    var d := TensorOf(l0, l1, r0, r1);
    Phase3Scale(Q, RoundPoly(PScale(t, d.0), Q), RoundPoly(PScale(t, d.1), Q), RoundPoly(PScale(t, d.2), Q), s);
    Phase3Add(PScale(t, d.0), PScale(t, d.1), PScale(t, d.2),
              RoundingError(d.0, t, Q), RoundingError(d.1, t, Q), RoundingError(d.2, t, Q), s);
    Phase3Scale(t, d.0, d.1, d.2, s);
    TensorPhase3(l0, l1, r0, r1, s);
  }

  /** c_0 + c_1 s + c_2 s^2. */
  ghost function Phase3(c0: Poly, c1: Poly, c2: Poly, s: Poly): (r: Poly)
    requires |c0| == |c1| == |c2| == |s|
    ensures |r| == |s|
  {
    PAdd(PAdd(c0, PMul(c1, s)), PMul(c2, PMul(s, s)))
  }

  lemma Phase3Scale(c: int, x: Poly, y: Poly, z: Poly, s: Poly)
    requires |x| == |y| == |z| == |s|
    ensures PScale(c, Phase3(x, y, z, s)) == Phase3(PScale(c, x), PScale(c, y), PScale(c, z), s)
  {
    hide PMul, PAdd, PScale;
    ScaleAdd(c, PAdd(x, PMul(y, s)), PMul(z, PMul(s, s)));
    ScaleAdd(c, x, PMul(y, s));
    MulScaleLeft(c, y, s);
    MulScaleLeft(c, z, PMul(s, s));
  }

  lemma Phase3Add(x: Poly, y: Poly, z: Poly, x': Poly, y': Poly, z': Poly, s: Poly)
    requires |x| == |y| == |z| == |x'| == |y'| == |z'| == |s|
    ensures Phase3(PAdd(x, x'), PAdd(y, y'), PAdd(z, z'), s) == PAdd(Phase3(x, y, z, s), Phase3(x', y', z', s))
  {
    hide PMul, PAdd;
    var sq := PMul(s, s);
    MulAddLeft(y, y', s);
    MulAddLeft(z, z', sq);
    AddInterchange(x, x', PMul(y, s), PMul(y', s));
    AddInterchange(PAdd(x, PMul(y, s)), PAdd(x', PMul(y', s)), PMul(z, sq), PMul(z', sq));
  }

  lemma TensorPhase3(l0: Poly, l1: Poly, r0: Poly, r1: Poly, s: Poly)
    requires |l0| == |l1| == |r0| == |r1| == |s|
    ensures Phase3(PMul(l0, r0), PAdd(PMul(l0, r1), PMul(l1, r0)), PMul(l1, r1), s)
         == PMul(Phase2(l0, l1, s), Phase2(r0, r1, s))
  {
    hide PMul, PAdd;
    var x, y := PMul(l1, s), PMul(r1, s);
    MulAddLeft(l0, x, PAdd(r0, y));
    MulAddRight(l0, r0, y);
    MulAddRight(x, r0, y);
    // (l0 r1 + l1 r0) s
    MulAddLeft(PMul(l0, r1), PMul(l1, r0), s);
    MulAssoc(l0, r1, s);
    MulAssoc(l1, r0, s);
    MulComm(r0, s);
    MulAssoc(l1, s, r0);
    // l1 r1 s s
    RegroupRow(l1, r1, s, s);
    FourTerms(PMul(l0, r0), PMul(l0, y), PMul(x, r0), PMul(x, y));
  }

  lemma FourTerms(a: Poly, b: Poly, c: Poly, d: Poly)
    requires |a| == |b| == |c| == |d|
    ensures PAdd(PAdd(a, PAdd(b, c)), d) == PAdd(PAdd(a, b), PAdd(c, d))
  {}

  /** For a ternary key the rounding contributes at most Q (1 + N + N^2) / 2 to Q times the phase. */
  lemma RoundingErrorBound(x: Poly, y: Poly, z: Poly, s: Poly, Q: int)
    requires |x| == |y| == |z| == |s| && Q >= 0 && PBound(s, 1)
    requires PBound(PScale(2, x), Q) && PBound(PScale(2, y), Q) && PBound(PScale(2, z), Q)
    ensures PBound(PScale(2, Phase3(x, y, z, s)), Q + |s| * (Q * 1) + |s| * (Q * (|s| * (1 * 1))))
  {
    hide PMul, PAdd, PScale, PBound;
    Phase3Scale(2, x, y, z, s);
    var n := |s|;
    MulBoundPoly(PScale(2, y), s, Q, 1);
    MulBoundPoly(s, s, 1, 1);
    MulBoundPoly(PScale(2, z), PMul(s, s), Q, n * (1 * 1));
    AddBound(PScale(2, x), PMul(PScale(2, y), s), Q, n * (Q * 1));
    AddBound(PAdd(PScale(2, x), PMul(PScale(2, y), s)), PMul(PScale(2, z), PMul(s, s)),
             Q + n * (Q * 1), n * (Q * (n * (1 * 1))));
  }
}
