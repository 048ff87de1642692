/** Relinearization and Galois automorphisms: key switching with the keys the generator makes. */
module Evaluator {
  import opened Integers
  import opened NumberTheory
  import opened Results
  import opened Negacyclic
  import opened Substitution
  import opened Automorphisms
  import opened Rns
  import opened Crt
  import opened PolySums
  import opened RnsExtension
  import opened RnsRescale
  import opened Rings
  import opened Rlwe
  import opened KeySwitchMath
  import opened KeySwitch

  /** The key-switching outputs for c1, as integer polynomials. */
  ghost function SwitchedB(c1: seq<Poly>, bs: seq<Poly>, n: nat, qs: seq<int>, P: int): (r: Poly)
    requires Moduli(qs) && Shape(c1, n, |qs|) && |bs| == |qs| && Uniform(bs, n) && P > 0
    ensures |r| == n
  {
    PDiv(Dot(n, Digits(c1, n, qs), bs), P)
  }

  /** A key and a ring that belong together. */
  ghost predicate Matches(ksk: KeySwitchKey, ring: Ring) {
    && ksk.ring.Sound() && ksk.ring.degree == ring.degree && PrimeBasis(ksk.ring.moduli)
    && |ring.moduli| <= |ksk.ring.moduli| && ksk.ring.moduli[..|ring.moduli|] == ring.moduli
  }

  /** What the decryption of a switched ciphertext is, with the bound on the noise: for |e| <= B and a ternary key,
      P |eta| <= N B sum(q_j - 1) + (P - 1)(N + 1). */
  lemma KeySwitchDecrypts(cs: seq<Poly>, switched: seq<Poly>, bs: seq<Poly>, aRows: seq<Poly>, es: seq<Poly>, s: Poly,
                          oldKey: Poly, qs: seq<int>, ps: seq<int>, B: int) returns (eta: Poly)
    requires |cs| == |switched| == 2 && Uniform(cs, |s|) && Uniform(switched, |s|) && |s| == |oldKey| > 0
    requires |qs| > 0 && |ps| > 0 && PrimeBasis(qs + ps) && Moduli(qs) && Product(ps) >= 1 && B >= 0
    requires Rows(bs, aRows, es, s, RowScales(qs, ps), oldKey, Product(qs + ps)) && PBound(s, 1)
    requires forall j :: 0 <= j < |es| ==> PBound(es[j], B)
    requires Uniform(bs, |s|) && Uniform(aRows, |s|)
    requires switched[0] == PAdd(cs[0], SwitchedB(Residues(cs[1], qs), bs, |s|, qs, Product(ps)))
    requires switched[1] == SwitchedB(Residues(cs[1], qs), aRows, |s|, qs, Product(ps))
    ensures |eta| == |s| && PCong(Phase(switched, s), PAdd(Phase(cs, oldKey), eta), Product(qs))
    ensures PBound(PScale(Product(ps), eta), SwitchBound(|s|, qs, Product(ps), B))
  {
    hide PMul, PAdd, PScale, PCong, Product, Leftover, PDiv, Dot, Digits, Phase, Phase2, RowRelation, IsPrime, PBound,
      SwitchBound, Residues;
    eta := KeySwitchCorrect(cs[0], cs[1], bs, aRows, es, s, oldKey, qs, ps);
    PhaseTwo(switched, s);
    PhaseTwo(cs, oldKey);
    SwitchNoiseBound(Residues(cs[1], qs), bs, aRows, es, s, qs, Product(ps), B);
  }

  ghost predicate RowErrors(es: seq<Poly>, B: int) {
    B >= 0 && forall j :: 0 <= j < |es| ==> PBound(es[j], B)
  }

  /** For a ternary key, every bound on the row errors bounds the key-switching noise. */
  lemma SwitchedNoise(c1: seq<Poly>, bs: seq<Poly>, aRows: seq<Poly>, es: seq<Poly>, s: Poly, eta: Poly,
                      qs: seq<int>, P: int)
    requires Moduli(qs) && Shape(c1, |s|, |qs|) && P >= 1 && |eta| == |s| && PBound(s, 1)
    requires |bs| == |aRows| == |es| == |qs| && Uniform(bs, |s|) && Uniform(aRows, |s|) && Uniform(es, |s|)
    requires var n, ds := |s|, Digits(c1, |s|, qs);
      PScale(P, eta) == Leftover(Dot(n, ds, es), Dot(n, ds, bs), Dot(n, ds, aRows), s, P)
    ensures forall B :: RowErrors(es, B) ==> PBound(PScale(P, eta), SwitchBound(|s|, qs, P, B))
  {
    hide PBound, PScale, Leftover, Dot, Digits, SwitchBound;
    forall B | RowErrors(es, B) ensures PBound(PScale(P, eta), SwitchBound(|s|, qs, P, B)) {
      SwitchNoiseBound(c1, bs, aRows, es, s, qs, P, B);
    }
  }

  // ------------------------------------------------------------- relinearization

  /** Key-switches (0, c2) from s^2 to s and adds it to (c0, c1). */
  method Relinearize(ring: Ring, ct: Ciphertext, key: Option<KeySwitchKey>,
                     ghost cs: seq<Poly>, ghost bs: seq<Poly>, ghost aRows: seq<Poly>) returns (r: Result<Ciphertext>)
    requires ring.Valid()
    requires WellFormed(ring, ct) ==> Represents(ct, cs, ring.degree, ring.moduli)
    requires key.Some? ==>
               Matches(key.value, ring) && KeyRows(key.value.rows, bs, aRows, ring.degree, key.value.ring.moduli)
    ensures key.Some? ==> Product(key.value.ring.moduli[|ring.moduli|..]) >= 1
    ensures !WellFormed(ring, ct) ==> r == Err(DimensionMismatch)
    ensures WellFormed(ring, ct) && key.None? ==> r == Ok(ct)
    ensures WellFormed(ring, ct) && key.Some? && |ct| != 3 ==> r == Err(InvalidParameters)
    ensures WellFormed(ring, ct) && key.Some? && |ct| == 3 ==>
              if |key.value.rows| == |ring.moduli| < |key.value.ring.moduli| then
                var P := Product(key.value.ring.moduli[|ring.moduli|..]);
                && r.Ok? && |r.value| == 2 && Uniform(bs, ring.degree) && Uniform(aRows, ring.degree)
                && r.value[0] == Residues(PAdd(cs[0], SwitchedB(ct[2], bs, ring.degree, ring.moduli, P)), ring.moduli)
                && r.value[1] == Residues(PAdd(cs[1], SwitchedB(ct[2], aRows, ring.degree, ring.moduli, P)),
                                          ring.moduli)
              else r == Err(DimensionMismatch)
  {
    hide PMul, PMod, Residues, IsPrime, TwoTo, Ring.Sound, Digits, Dot, PDiv, Product, KeyRow,
      Ring.Zero;
    if key.Some? {
      SpecialPositive(key.value.ring.moduli, |ring.moduli|);
    }
    if !WellFormed(ring, ct) {
      return Err(DimensionMismatch);
    }
    if key.None? {
      return Ok(ct);
    }
    if |ct| != 3 {
      return Err(InvalidParameters);
    }
    var ksk := key.value;
    ghost var n, P := ring.degree, Product(ksk.ring.moduli[|ring.moduli|..]);
    KeyRowsUniform(ksk.rows, bs, aRows, n, ksk.ring.moduli);
    ZeroResidues(ring);
    var switched :- Switch([ring.Zero(), ct[2]], ksk, ring, bs, aRows);
    ghost var b, a := SwitchedB(ct[2], bs, n, ring.moduli, P), SwitchedB(ct[2], aRows, n, ring.moduli, P);
    ResAdd(PZero(n), b, ring.moduli);
    AddZero(b);
    var c0 := ring.Add(ct[0], switched[0]);
    ResAdd(cs[0], b, ring.moduli);
    var c1 := ring.Add(ct[1], switched[1]);
    ResAdd(cs[1], a, ring.moduli);
    return Ok([c0.value, c1.value]);
  }

  /** Relinearization preserves decryption up to the key-switching noise. */
  lemma RelinearizeCorrect(cs: seq<Poly>, bs: seq<Poly>, aRows: seq<Poly>, es: seq<Poly>, s: Poly, oldKey: Poly,
                           qs: seq<int>, ps: seq<int>) returns (eta: Poly)
    requires |cs| == 3 && |s| == |oldKey| > 0 && Uniform(cs, |s|)
    requires |qs| > 0 && |ps| > 0 && PrimeBasis(qs + ps) && Moduli(qs) && Product(ps) >= 1
    requires Rows(bs, aRows, es, s, RowScales(qs, ps), oldKey, Product(qs + ps))
    requires PCong(oldKey, PMul(s, s), Product(qs))
    ensures Uniform(bs, |s|) && Uniform(aRows, |s|) && Uniform(es, |s|) && |eta| == |s|
    ensures var n, P, c2 := |s|, Product(ps), Residues(cs[2], qs);
      && PScale(P, eta) == Leftover(Dot(n, Digits(c2, n, qs), es), Dot(n, Digits(c2, n, qs), bs),
                                    Dot(n, Digits(c2, n, qs), aRows), s, P)
      && PCong(Phase2(PAdd(cs[0], SwitchedB(c2, bs, n, qs, P)), PAdd(cs[1], SwitchedB(c2, aRows, n, qs, P)), s),
               PAdd(Phase(cs, s), eta), Product(qs))
    ensures PBound(s, 1) ==> forall B :: RowErrors(es, B) ==>
              PBound(PScale(Product(ps), eta), SwitchBound(|s|, qs, Product(ps), B))
  {
    hide PMul, PAdd, PScale, PCong, Product, Leftover, PDiv, Dot, Digits, Phase, Phase2, RowRelation, IsPrime, PBound,
      SwitchBound, RowErrors;
    var n, P, Q, c2 := |s|, Product(ps), Product(qs), Residues(cs[2], qs);
    eta := KeySwitchCorrect(PZero(n), cs[2], bs, aRows, es, s, oldKey, qs, ps);
    if PBound(s, 1) {
      SwitchedNoise(c2, bs, aRows, es, s, eta, qs, P);
    }
    var b, a := SwitchedB(c2, bs, n, qs, P), SwitchedB(c2, aRows, n, qs, P);
    AddZero(b);
    PhaseThree(cs, s);
    RelinearizedPhase(cs[0], cs[1], cs[2], b, a, oldKey, s, eta, Q);
  }

  lemma RelinearizedPhase(c0: Poly, c1: Poly, c2: Poly, b: Poly, a: Poly, oldKey: Poly, s: Poly, eta: Poly, Q: int)
    requires |c0| == |c1| == |c2| == |b| == |a| == |oldKey| == |s| == |eta|
    requires PCong(Phase2(b, a, s), PAdd(Phase2(PZero(|s|), c2, oldKey), eta), Q)
    requires PCong(oldKey, PMul(s, s), Q)
    ensures PCong(Phase2(PAdd(c0, b), PAdd(c1, a), s),
                  PAdd(PAdd(PAdd(c0, PMul(c1, s)), PMul(c2, PMul(s, s))), eta), Q)
  {
    hide PMul, PAdd, PCong;
    MulAddLeft(c1, a, s);
    AddInterchange(c0, b, PMul(c1, s), PMul(a, s));
    AddZero(PMul(c2, oldKey));
    SwitchedSquare(PAdd(b, PMul(a, s)), c2, oldKey, PMul(s, s), eta, Q);
    AddBelow(PAdd(c0, PMul(c1, s)), PAdd(b, PMul(a, s)), PMul(c2, PMul(s, s)), eta, Q);
  }

  lemma SwitchedSquare(v: Poly, c2: Poly, oldKey: Poly, sq: Poly, eta: Poly, Q: int)
    requires |v| == |c2| == |oldKey| == |sq| == |eta|
    requires PCong(v, PAdd(PMul(c2, oldKey), eta), Q) && PCong(oldKey, sq, Q)
    ensures PCong(v, PAdd(PMul(c2, sq), eta), Q)
  {
    hide *;
    PCongRefl(c2, Q);
    PCongMulBoth(c2, c2, oldKey, sq, Q);
    PCongRefl(eta, Q);
    PCongAdd(PMul(c2, oldKey), PMul(c2, sq), eta, eta, Q);
    PCongTrans(v, PAdd(PMul(c2, oldKey), eta), PAdd(PMul(c2, sq), eta), Q);
  }

  lemma AddBelow(x: Poly, v: Poly, y: Poly, eta: Poly, Q: int)
    requires |x| == |v| == |y| == |eta| && PCong(v, PAdd(y, eta), Q)
    ensures PCong(PAdd(x, v), PAdd(PAdd(x, y), eta), Q)
  {
    hide *;
    PCongRefl(x, Q);
    PCongAdd(x, x, v, PAdd(y, eta), Q);
    AddAssoc(x, y, eta);
  }

  /** The relinearization key encrypts the [0, Q) representative of s^2 under the secret read from the first component,
      which for a ternary secret is s itself (`KeySwitch.TernaryRead`); any other secret is refused. */
  method GenerateHybridRelinearizationKey(ring: Ring, sk: RnsPoly, pModuli: seq<Modulus>,
                                          aRows: seq<RnsPoly>, es: seq<RnsPoly>,
                                          ghost As: seq<Poly>, ghost Es: seq<Poly>, ghost s: Poly)
    returns (r: Result<KeySwitchKey>, ghost oldKey: Poly)
    requires ring.Sound() && PrimeBasis(ring.moduli + pModuli) && PrimeBasis(ring.moduli)
    requires |s| == ring.degree && sk == Residues(s, ring.moduli)
    requires |aRows| == |es| == |As| == |Es| == |ring.moduli| && Uniform(As, ring.degree) && Uniform(Es, ring.degree)
    requires forall j :: 0 <= j < |aRows| ==> aRows[j] == Residues(As[j], ring.moduli + pModuli)
    requires forall j :: 0 <= j < |es| ==> es[j] == Residues(Es[j], ring.moduli + pModuli)
    ensures r.Ok? <==> |pModuli| > 0 && AllTernary(sk[0], ring.moduli[0])
    ensures PBound(s, 1) ==> AllTernary(sk[0], ring.moduli[0]) && TernaryPoly(sk[0]) == s
    ensures |oldKey| == ring.degree && PCong(oldKey, PMul(s, s), Product(ring.moduli))
    ensures r.Ok? ==>
              && Matches(r.value, ring) && r.value.ring.moduli == ring.moduli + pModuli
              && KeyRows(r.value.rows, RowBs(As, Es, TernaryPoly(sk[0]), RowScales(ring.moduli, pModuli), oldKey), As,
                         ring.degree, ring.moduli + pModuli)
    ensures r.Err? ==> r.error == InvalidParameters
  {
    hide PMul, PMod, IsPrime, TwoTo, Ring.Sound, Product, RowB, Lift, KeyRow, Cong;
    SoundIsValid(ring);
    var squared := ring.Mul(sk, sk);
    ResMul(s, s, ring.moduli);
    oldKey := Lift(squared.value, ring.degree, ring.moduli);
    SquareLift(s, ring.moduli);
    var extended := ExtendBasis(squared.value, ring.moduli, ring.moduli + pModuli);
    if PBound(s, 1) {
      TernaryRead(s, ring.moduli[0]);
    }
    r := GenerateKeySwitchKey(ring, pModuli, extended.value, sk, aRows, es, As, Es, oldKey);
    assert |pModuli| > 0 ==> (ring.moduli + pModuli)[..|ring.moduli|] == ring.moduli;
  }

  lemma SquareLift(s: Poly, qs: seq<int>)
    requires PrimeBasis(qs) && Moduli(qs)
    ensures PCong(Lift(Residues(PMul(s, s), qs), |s|, qs), PMul(s, s), Product(qs))
  {
    hide PMul, Product, IsPrime;
    PrimeModuli(qs);
    LiftOfResidues(PMul(s, s), qs);
    PModCong(PMul(s, s), Product(qs));
  }

  // --------------------------------------------------------- Galois automorphisms

  /** Substitution permutes coefficients up to sign, so it keeps every bound. */
  lemma SubstBound(a: Poly, k: int, u: int, B: int)
    requires |a| > 0 && Unit(k, u, |a|) && PBound(a, B)
    ensures PBound(PSubst(a, k), B)
  {
    hide PSubst, Unit, Pos, Sgn;
    forall m | 0 <= m < |a| ensures -B <= PSubst(a, k)[m] <= B {
      SourceCorrect(|a|, k, u, m);
      SubstScatter(a, k, u, Source(|a|, u, m));
    }
  }

  /** sigma_k(ciphertext), then a key switch from sigma_k(s) to s. */
  method ApplyGaloisAutomorphism(ring: Ring, ct: Ciphertext, element: nat, key: Option<KeySwitchKey>,
                                 ghost cs: seq<Poly>, ghost bs: seq<Poly>, ghost aRows: seq<Poly>)
    returns (r: Result<Ciphertext>)
    requires ring.Valid()
    requires WellFormed(ring, ct) ==> Represents(ct, cs, ring.degree, ring.moduli)
    requires key.Some? ==>
               Matches(key.value, ring) && KeyRows(key.value.rows, bs, aRows, ring.degree, key.value.ring.moduli)
    ensures key.Some? ==> Product(key.value.ring.moduli[|ring.moduli|..]) >= 1
    ensures !WellFormed(ring, ct) ==> r == Err(DimensionMismatch)
    ensures WellFormed(ring, ct) && key.None? ==> r == Ok(ct)
    ensures WellFormed(ring, ct) && key.Some? && |ct| != 2 ==> r == Err(InvalidParameters)
    ensures WellFormed(ring, ct) && key.Some? && |ct| == 2 ==>
              if element % 2 == 0 then r == Err(InvalidAutomorphismElement)
              else if |key.value.rows| == |ring.moduli| < |key.value.ring.moduli| then
                var P := Product(key.value.ring.moduli[|ring.moduli|..]);
                var c1 := Residues(PSubst(cs[1], element), ring.moduli);
                && r.Ok? && |r.value| == 2 && Uniform(bs, ring.degree) && Uniform(aRows, ring.degree)
                && r.value[0] == Residues(PAdd(PSubst(cs[0], element), SwitchedB(c1, bs, ring.degree, ring.moduli, P)),
                                          ring.moduli)
                && r.value[1] == Residues(SwitchedB(c1, aRows, ring.degree, ring.moduli, P), ring.moduli)
              else r == Err(DimensionMismatch)
  {
    hide PMul, PMod, Residues, IsPrime, TwoTo, Ring.Sound, Digits, Dot, PDiv, Product, KeyRow, PSubst;
    if key.Some? {
      SpecialPositive(key.value.ring.moduli, |ring.moduli|);
    }
    if !WellFormed(ring, ct) {
      return Err(DimensionMismatch);
    }
    if key.None? {
      return Ok(ct);
    }
    if |ct| != 2 {
      return Err(InvalidParameters);
    }
    var ksk := key.value;
    ghost var n, P := ring.degree, Product(ksk.ring.moduli[|ring.moduli|..]);
    KeyRowsUniform(ksk.rows, bs, aRows, n, ksk.ring.moduli);
    var sigma0 :- ring.ApplyAutomorphism(ct[0], element);
    ResAut(cs[0], element, ring.moduli);
    var sigma1 := ring.ApplyAutomorphism(ct[1], element);
    ResAut(cs[1], element, ring.moduli);
    r := Switch([sigma0, sigma1.value], ksk, ring, bs, aRows);
    if r.Err? {
      return;
    }
    ResAdd(PSubst(cs[0], element), SwitchedB(sigma1.value, bs, n, ring.moduli, P), ring.moduli);
  }

  /** A rotated ciphertext decrypts to the substituted plaintext plus the key-switching noise. */
  lemma GaloisCorrect(c0: Poly, c1: Poly, k: nat, bs: seq<Poly>, aRows: seq<Poly>, es: seq<Poly>, s: Poly,
                      qs: seq<int>, ps: seq<int>) returns (eta: Poly)
    requires |c0| == |c1| == |s| > 0 && k % 2 == 1
    requires |qs| > 0 && |ps| > 0 && PrimeBasis(qs + ps) && Moduli(qs) && Product(ps) >= 1
    requires Rows(bs, aRows, es, s, RowScales(qs, ps), PSubst(s, k), Product(qs + ps))
    ensures Uniform(bs, |s|) && Uniform(aRows, |s|) && Uniform(es, |s|) && |eta| == |s|
    ensures var n, P, d1 := |s|, Product(ps), Residues(PSubst(c1, k), qs);
      && PScale(P, eta) == Leftover(Dot(n, Digits(d1, n, qs), es), Dot(n, Digits(d1, n, qs), bs),
                                    Dot(n, Digits(d1, n, qs), aRows), s, P)
      && PCong(Phase2(PAdd(PSubst(c0, k), SwitchedB(d1, bs, n, qs, P)), SwitchedB(d1, aRows, n, qs, P), s),
               PAdd(PSubst(Phase2(c0, c1, s), k), eta), Product(qs))
    ensures PBound(s, 1) ==> forall B :: RowErrors(es, B) ==>
              PBound(PScale(Product(ps), eta), SwitchBound(|s|, qs, Product(ps), B))
  {
    hide PMul, PAdd, PScale, PCong, Product, Leftover, PDiv, Dot, Digits, Phase, Phase2, RowRelation, PSubst, IsPrime,
      PBound, SwitchBound, RowErrors;
    eta := KeySwitchCorrect(PSubst(c0, k), PSubst(c1, k), bs, aRows, es, s, PSubst(s, k), qs, ps);
    if PBound(s, 1) {
      SwitchedNoise(Residues(PSubst(c1, k), qs), bs, aRows, es, s, eta, qs, Product(ps));
    }
    SubstPhase(c0, c1, s, k);
  }

  /** sigma_k is a ring homomorphism, so it commutes with decryption. */
  lemma SubstPhase(c0: Poly, c1: Poly, s: Poly, k: int)
    requires |c0| == |c1| == |s| > 0 && k % 2 == 1
    ensures Phase2(PSubst(c0, k), PSubst(c1, k), PSubst(s, k)) == PSubst(Phase2(c0, c1, s), k)
  {
    hide PMul, PAdd, PSubst;
    SubstMul(c1, s, k);
    SubstAdd(c0, PMul(c1, s), k);
  }

  /** The image of a ternary secret is ternary, and is read back from its residues. */
  lemma SigmaTernary(s: Poly, k: nat, q0: Modulus)
    requires |s| > 0 && k % 2 == 1 && (exists l: nat :: |s| == TwoTo(l)) && PBound(s, 1)
    ensures TernaryPoly(PMod(PSubst(s, k), q0)) == PSubst(s, k)
    ensures forall i :: 0 <= i < |s| ==> IsTernaryResidue(PMod(PSubst(s, k), q0)[i], q0)
  {
    hide PMod, PSubst, Unit, TwoTo;
    var u := OddUnit(k, |s|);
    SubstBound(s, k, u, 1);
    TernaryRead(PSubst(s, k), q0);
  }

  /** The image of a secret that reads as ternary reads as the image of what was read. */
  lemma SigmaRead(c: seq<u64>, k: nat, q0: Modulus)
    requires |c| > 0 && k % 2 == 1 && (exists l: nat :: |c| == TwoTo(l)) && AllTernary(c, q0)
    ensures AllTernary(PMod(PSubst(c, k), q0), q0) && TernaryPoly(PMod(PSubst(c, k), q0)) == PSubst(TernaryPoly(c), k)
  {
    hide PSubst, PMod, TwoTo;
    TernaryCong(c, q0);
    PCongSubst(c, TernaryPoly(c), k, q0);
    PModEq(PSubst(c, k), PSubst(TernaryPoly(c), k), q0);
    SigmaTernary(TernaryPoly(c), k, q0);
  }

  /** The Galois key encrypts sigma_k(s), which is again ternary, for the s read from the first component. */
  method GenerateHybridGaloisKey(ring: Ring, element: nat, sk: RnsPoly, pModuli: seq<Modulus>,
                                 aRows: seq<RnsPoly>, es: seq<RnsPoly>, ghost As: seq<Poly>, ghost Es: seq<Poly>)
    returns (r: Result<KeySwitchKey>)
    requires ring.Sound() && PrimeBasis(ring.moduli + pModuli) && ring.Fits(sk) && Reduced(sk, ring.moduli)
    requires |aRows| == |es| == |As| == |Es| == |ring.moduli| && Uniform(As, ring.degree) && Uniform(Es, ring.degree)
    requires forall j :: 0 <= j < |aRows| ==> aRows[j] == Residues(As[j], ring.moduli + pModuli)
    requires forall j :: 0 <= j < |es| ==> es[j] == Residues(Es[j], ring.moduli + pModuli)
    ensures r.Ok? <==> element % 2 == 1 && |pModuli| > 0 && AllTernary(sk[0], ring.moduli[0])
    ensures r.Ok? ==>
              && Matches(r.value, ring) && r.value.ring.moduli == ring.moduli + pModuli
              && var s := TernaryPoly(sk[0]);
                 KeyRows(r.value.rows, RowBs(As, Es, s, RowScales(ring.moduli, pModuli), PSubst(s, element)), As,
                         ring.degree, ring.moduli + pModuli)
    ensures r.Err? ==> r.error == if element % 2 == 0 then InvalidAutomorphismElement else InvalidParameters
  {
    hide PMul, PMod, IsPrime, Ring.Sound, Product, RowB, KeyRow, PSubst, Unit, TwoTo;
    SoundIsValid(ring);
    var sigma :- ring.ApplyAutomorphism(sk, element);
    var qpRing := ExtendedRing(ring, pModuli);
    SoundIsValid(qpRing);
    if AllTernary(sk[0], ring.moduli[0]) {
      SigmaRead(sk[0], element, ring.moduli[0]);
    }
    var sigmaQp :- RebaseTernarySecret(sigma, ring.moduli[0], qpRing);
    ghost var oldKey := TernaryPoly(sigma[0]);
    r := GenerateKeySwitchKey(ring, pModuli, sigmaQp, sk, aRows, es, As, Es, oldKey);
    assert |pModuli| > 0 ==> (ring.moduli + pModuli)[..|ring.moduli|] == ring.moduli;
  }

  lemma OddUnit(k: nat, n: nat) returns (u: int)
    requires k % 2 == 1 && exists l: nat :: n == TwoTo(l)
    ensures Unit(k, u, n)
  {
    var l: nat :| n == TwoTo(l);
    OddIsCoprime(k, l);
    u := UnitOf(k, n);
  }
}
