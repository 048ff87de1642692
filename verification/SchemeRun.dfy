/** The schemes from end to end: encode, encrypt, compute, decrypt and decode give back the messages. */
module SchemeRun {
  import opened Integers
  import opened NumberTheory
  import opened Results
  import opened Negacyclic
  import opened Rns
  import opened Crt
  import opened PolySums
  import opened RnsExtension
  import opened RnsRescale
  import opened Rings
  import opened Rlwe
  import opened KeySwitch
  import opened KeySwitchMath
  import opened Batching
  import opened Bfv
  import BfvProduct
  import BgvModulusSwitch
  import Gadget
  import NttTables
  import Rgsw
  import Slots

  // ------------------------------------------------------------------------ encoding

  /** `EncodeBatched`, then `DecodeBatched`: the values modulo t, and zeros in the slots that were not given. */
  method BatchRun(params: BgvParams, values: seq<u64>) returns (decoded: Result<seq<u64>>)
    requires params.Valid() && params.ring.degree >= 2 && IsPrime(params.t) && 2 < params.t < 99_990_000
    requires |values| <= params.ring.degree && 2 * (params.t - 1) <= params.ring.moduli[0]
    ensures decoded.Ok? <==> params.t % (2 * params.ring.degree) == 1
    ensures decoded.Ok? ==> |decoded.value| == params.ring.degree && forall slot :: 0 <= slot < |decoded.value| ==>
              decoded.value[slot] == if slot < |values| then values[slot] % params.t else 0
  {
    hide IsPrime, PMod, HoldsSlots, NttTables.Found, Slots.SlotValue, TwoTo, Batchable;
    ghost var n, t, q := params.ring.degree, params.t, params.ring.moduli[0];
    var encoded, psi, m := EncodeBatched(params, values);
    if encoded.Err? {
      return Err(encoded.error);
    }
    FirstComponent(m, params.ring.moduli);
    ghost var psi';
    decoded, psi' := DecodeBatched(params, encoded.value);
    NttTables.FoundUnique(2 * n, t, psi, psi');
    SmallModulusRecovers(m, psi, values, q, t);
    assert encoded.value[0] == FirstResidues(m, q);
  }

  lemma FirstComponent(m: Poly, qs: seq<Modulus>)
    requires |qs| > 0
    ensures Below(Residues(m, qs)[0], qs[0]) && Residues(m, qs)[0] == PMod(m, qs[0])
  {}

  /** `EncodeU64`, then `DecodeU64`: the values modulo t, zero-padded. */
  method CoefficientRun(params: BgvParams, values: seq<u64>) returns (decoded: Result<seq<u64>>)
    requires params.Valid() && |values| <= params.ring.degree && 2 * (params.t - 1) <= params.ring.moduli[0]
    ensures decoded.Ok? && |decoded.value| == params.ring.degree
    ensures forall i :: 0 <= i < |decoded.value| ==>
              decoded.value[i] == if i < |values| then values[i] % params.t else 0
  {
    hide PMod, TwoTo;
    ghost var q, t, m := params.ring.moduli[0], params.t, PaddedValues(values, params.ring.degree, params.t);
    var encoded := EncodeU64(params, values);
    FirstComponent(m, params.ring.moduli);
    decoded := DecodeU64(params, encoded.value);
    forall i | 0 <= i < |m| ensures decoded.value[i] == m[i] {
      assert encoded.value[0][i] == PMod(m, q)[i] == m[i] % q;
      SmallMod(m[i], q);
      SmallMod(m[i], t);
      CenterSmall(m[i], q);
    }
  }

  lemma CenterSmall(x: int, q: int)
    requires 0 <= x < q && 2 * x <= q && q % 2 == 1
    ensures Center(x, q) == x
  {}

  // ---------------------------------------------------------------------------- RLWE

  /** Key generation, public encryption, decryption: m + e1 + e2 s - e u. */
  method PublicRun(ring: Ring, pt: RnsPoly, sk: RnsPoly, a: RnsPoly, e: RnsPoly, u: RnsPoly, e1: RnsPoly, e2: RnsPoly,
                   ghost m: Poly, ghost s: Poly, ghost A: Poly, ghost E: Poly, ghost U: Poly, ghost E1: Poly,
                   ghost E2: Poly)
    returns (plain: RnsPoly)
    requires ring.Sound() && |m| == |s| == |A| == |E| == |U| == |E1| == |E2| == ring.degree
    requires pt == Residues(m, ring.moduli) && sk == Residues(s, ring.moduli) && a == Residues(A, ring.moduli)
    requires e == Residues(E, ring.moduli) && u == Residues(U, ring.moduli)
    requires e1 == Residues(E1, ring.moduli) && e2 == Residues(E2, ring.moduli)
    ensures plain == Residues(PAdd(m, PSub(PAdd(E1, PMul(E2, s)), PMul(E, U))), ring.moduli)
  {
    hide PMul, PMod, PAdd, PSub, PNeg, Residues, IsPrime, Ring.Sound, TwoTo, Phase, Phase2;
    SoundIsValid(ring);
    var b := GeneratePublicKey(ring, sk, a, e, s, A, E);
    ghost var B := PNeg(PAdd(PMul(A, s), E));
    var ct := EncryptPublic(ring, pt, b, a, u, e1, e2, m, B, A, U, E1, E2);
    ghost var cs := [PAdd(PAdd(m, PMul(B, U)), E1), PAdd(PMul(A, U), E2)];
    var decrypted := Decrypt(ring, ct.value, sk, cs, s);
    PhaseTwo(cs, s);
    PublicEncryptionPhase(m, s, A, E, U, E1, E2);
    plain := decrypted.value;
  }

  // ---------------------------------------------------------------------------- RGSW

  /** `Rgsw.Encrypt`, `ExternalProduct`, decryption: m (c0 + c1 s) plus the row noise. */
  method ExternalProductRun(ring: Ring, message: RnsPoly, sk: RnsPoly, params: Gadget.GadgetParams, ct: Ciphertext,
                            as0: seq<RnsPoly>, es0: seq<RnsPoly>, as1: seq<RnsPoly>, es1: seq<RnsPoly>,
                            ghost m: Poly, ghost s: Poly, ghost cs: seq<Poly>,
                            ghost A0: seq<Poly>, ghost E0: seq<Poly>, ghost A1: seq<Poly>, ghost E1: seq<Poly>)
    returns (plain: RnsPoly)
    requires ring.Sound() && PrimeBasis(ring.moduli) && params.Valid() && params.ShiftsFit()
    requires forall c :: 0 <= c < |ring.moduli| ==> ring.moduli[c] <= Pow(TwoTo(params.baseLog), params.levels)
    requires |m| == |s| == ring.degree && sk == Residues(s, ring.moduli) && message == Residues(m, ring.moduli)
    requires |ct| == 2 && Represents(ct, cs, ring.degree, ring.moduli)
    requires Rgsw.Samples(as0, A0, |ring.moduli| * params.levels, ring)
    requires Rgsw.Samples(es0, E0, |ring.moduli| * params.levels, ring)
    requires Rgsw.Samples(as1, A1, |ring.moduli| * params.levels, ring)
    requires Rgsw.Samples(es1, E1, |ring.moduli| * params.levels, ring)
    ensures |E0| == |E1| == |ring.moduli| * params.levels && Uniform(E0, ring.degree) && Uniform(E1, ring.degree)
    ensures plain == Residues(PAdd(PMul(m, Phase2(cs[0], cs[1], s)),
                                   Rgsw.RowNoise(cs[0], cs[1], E0, E1, ring.moduli, params.Base(), params.levels)),
                              ring.moduli)
  {
    hide PMul, PMod, PAdd, Residues, IsPrime, Ring.Sound, TwoTo, Phase, Phase2, Product, PCong, KeyRow, RowB,
      RowRelation, Rgsw.RowNoise, Rgsw.PairedDot, Rgsw.Samples, Gadget.CodeDigits, Gadget.CodeWeights;
    SoundIsValid(ring);
    ghost var n, qs := ring.degree, ring.moduli;
    PrimeModuli(qs);
    ghost var count := |qs| * params.levels;
    Rgsw.SamplesUniform(as0, A0, count, ring);
    Rgsw.SamplesUniform(es0, E0, count, ring);
    Rgsw.SamplesUniform(as1, A1, count, ring);
    Rgsw.SamplesUniform(es1, E1, count, ring);
    var rgsw := Rgsw.Encrypt(ring, message, sk, params, as0, es0, as1, es1, m, s, A0, E0, A1, E1);
    ghost var gs, sm := Gadget.CodeWeights(qs, params), PMul(s, m);
    ghost var bs0, bs1 := RowBs(A0, E0, s, gs, m), RowBs(A1, E1, s, gs, sm);
    GeneratedRows(A0, E0, s, gs, m, Product(qs));
    GeneratedRows(A1, E1, s, gs, sm, Product(qs));
    var r := Rgsw.ExternalProduct(ring, params, ct, rgsw.value, bs0, A0, bs1, A1);
    Rgsw.ExternalProductDecrypts(cs[0], cs[1], m, s, bs0, A0, E0, bs1, A1, E1, qs, params);
    ghost var ds0, ds1 := Gadget.CodeDigits(ct[0], n, params), Gadget.CodeDigits(ct[1], n, params);
    ghost var outs := [PAdd(Rgsw.PairedDot(n, ds0, bs0), Rgsw.PairedDot(n, ds1, bs1)),
                       PAdd(Rgsw.PairedDot(n, ds0, A0), Rgsw.PairedDot(n, ds1, A1))];
    var decrypted := Decrypt(ring, r.value, sk, outs, s);
    PhaseTwo(outs, s);
    ghost var target := PAdd(PMul(m, Phase2(cs[0], cs[1], s)),
                             Rgsw.RowNoise(cs[0], cs[1], E0, E1, qs, params.Base(), params.levels));
    ResiduesCong(Phase(outs, s), target, qs);
    plain := decrypted.value;
  }

  // ----------------------------------------------------------------------------- BFV

  /** `EncryptSecretReal`, decryption, `DecodeScaledValue`: the message, while the error is small. */
  method BfvRun(ring: Ring, t: Modulus, pt: RnsPoly, sk: RnsPoly, a: RnsPoly, e: RnsPoly,
                ghost m: Poly, ghost s: Poly, ghost A: Poly, ghost E: Poly) returns (decoded: seq<u64>)
    requires ring.Sound() && PrimeBasis(ring.moduli) && |m| == |s| == |A| == |E| == ring.degree
    requires pt == Residues(m, ring.moduli) && sk == Residues(s, ring.moduli)
    requires a == Residues(A, ring.moduli) && e == Residues(E, ring.moduli)
    requires forall i :: 0 <= i < |m| ==>
               0 <= m[i] < t && 2 * (t * Abs(E[i]) + Product(ring.moduli) % t * m[i]) < Product(ring.moduli)
    ensures decoded == m
  {
    hide PMul, PMod, PAdd, PSub, PScale, PCong, Residues, IsPrime, Ring.Sound, TwoTo, Phase, Phase2, Product, RoundPoly;
    SoundIsValid(ring);
    ghost var qs := ring.moduli;
    PrimeModuli(qs);
    ghost var D := PScale(Delta(qs, t), m);
    var ct := EncryptSecretReal(ring, t, pt, sk, a, e, m, s, A, E);
    ghost var cs := [PSub(PAdd(D, E), PMul(A, s)), A];
    var decrypted := Decrypt(ring, ct.value, sk, cs, s);
    PhaseTwo(cs, s);
    RealEncryptionPhase(D, E, A, s);
    PCongRefl(PAdd(D, E), Product(qs));
    FitsRectangular(ring, decrypted.value);
    BfvDecodes(PAdd(D, E), m, E, qs, t);
    var values := DecodeScaledValue(decrypted.value, ring.moduli, t);
    decoded := values.value;
  }

  lemma FitsRectangular(ring: Ring, x: RnsPoly)
    requires ring.Valid() && ring.Fits(x)
    ensures Rectangular(x) && Degree(x) == ring.degree
  {
    hide TwoTo;
  }

  /** `MulReal`, decryption, `DecodeScaledValue`: the product of the two messages modulo t. */
  method BfvProductRun(ring: Ring, t: Modulus, lhs: Ciphertext, rhs: Ciphertext, pModuli: seq<Modulus>, sk: RnsPoly,
                       ghost s: Poly, ghost m1: Poly, ghost e1: Poly, ghost m2: Poly, ghost e2: Poly, ghost B: int)
    returns (decoded: seq<u64>)
    requires ring.Sound() && PrimeBasis(ring.moduli + pModuli) && PrimeBasis(ring.moduli) && |pModuli| > 0
    requires |s| == ring.degree && PBound(s, 1) && sk == Residues(s, ring.moduli)
    requires |lhs| == |rhs| == 2 && WellFormed(ring, lhs) && WellFormed(ring, rhs)
    requires Product(pModuli) >= 4 * ring.degree * Product(ring.moduli)
    requires var n, qs := ring.degree, ring.moduli;
      && BfvProduct.Encrypts(Lift(lhs[0], n, qs), Lift(lhs[1], n, qs), s, m1, e1, t, Product(qs), B)
      && BfvProduct.Encrypts(Lift(rhs[0], n, qs), Lift(rhs[1], n, qs), s, m2, e2, t, Product(qs), B)
    requires var n, Q := ring.degree, Product(ring.moduli);
      var M, E := t - 1 + t * (n + 1), t * B + Q % t * (t - 1);
      4 * Q * n * M * E + 2 * n * E * E + t * Q * (1 + n + n * n) < Q * Q
    ensures |m1| == |m2| && decoded == PMod(PMul(m1, m2), t)
  {
    hide PMul, PMod, PAdd, PScale, PCong, PBound, Residues, IsPrime, Ring.Sound, TwoTo, Phase, Phase2, Phase3, Product,
      RoundPoly, Lift, CenteredLift, Rescaled, Below, BfvProduct.ProductBudget;
    SoundIsValid(ring);
    BasisParts(ring.moduli, pModuli);
    ghost var n, qs, Q := ring.degree, ring.moduli, Product(ring.moduli);
    ghost var l0, l1, r0, r1 := Lift(lhs[0], n, qs), Lift(lhs[1], n, qs), Lift(rhs[0], n, qs), Lift(rhs[1], n, qs);
    ghost var d := TensorOf(l0, l1, r0, r1);
    var product := MulReal(ring, t, lhs, rhs, pModuli);
    TensorIsExact(l0, l1, r0, r1, qs, pModuli, t);
    ghost var cs := [RoundPoly(PScale(t, d.0), Q), RoundPoly(PScale(t, d.1), Q), RoundPoly(PScale(t, d.2), Q)];
    var decrypted := Decrypt(ring, product.value, sk, cs, s);
    ghost var x := Phase(cs, s);
    PhaseThree(cs, s);
    IsPhase3(cs[0], cs[1], cs[2], s);
    PCongRefl(x, Q);
    BfvProduct.BudgetIs(n, t, Q, B);
    BfvProduct.ProductDecodes(l0, l1, r0, r1, s, m1, e1, m2, e2, x, qs, t, B);
    FitsRectangular(ring, decrypted.value);
    DecodedOf(x, qs, t);
    var values := DecodeScaledValue(decrypted.value, ring.moduli, t);
    decoded := values.value;
  }

  lemma IsPhase3(c0: Poly, c1: Poly, c2: Poly, s: Poly)
    requires |c0| == |c1| == |c2| == |s|
    ensures Phase3(c0, c1, c2, s) == PAdd(PAdd(c0, PMul(c1, s)), PMul(c2, PMul(s, s)))
  {}

  lemma DecodedOf(x: Poly, qs: seq<int>, t: int)
    requires PrimeBasis(qs) && Moduli(qs) && Product(qs) >= 1 && t > 0
    ensures BfvProduct.Decoded(x, qs, t)
         == PMod(RoundPoly(PScale(t, CenteredLift(Residues(x, qs), |x|, qs)), Product(qs)), t)
  {}

  // ------------------------------------------------------------------ BGV modulus switching

  /** The parameters, the key and the ciphertext switched to the smaller basis, then decrypted: for q_L = 1 modulo t
      the residues of a value congruent to the old one modulo t, with q_L |v'| < |v| + q_L t (N + 1). */
  method ModulusSwitchRun(params: BgvParams, ct: Ciphertext, sk: RnsPoly, ghost s: Poly, ghost V: int)
    returns (plain: RnsPoly)
    requires params.Valid() && PrimeBasis(params.ring.moduli) && IsPrime(params.t) && params.t % 2 == 1
    requires |params.ring.moduli| > 1 && |s| == params.ring.degree && PBound(s, 1)
    requires sk == Residues(s, params.ring.moduli)
    requires |ct| == 2 && WellFormed(params.ring, ct)
    requires Reduced(ct[0], params.ring.moduli) && Reduced(ct[1], params.ring.moduli)
    requires var n, qs := params.ring.degree, params.ring.moduli;
      var q, t := qs[|qs| - 1], params.t;
      && q % t == 1 && 2 * (V + q * t * (n + 1)) < Product(qs) && Product(qs) >= 1
      && PBound(BgvModulusSwitch.Centered2(Lift(ct[0], n, qs), Lift(ct[1], n, qs), s, Product(qs)), V)
    ensures Product(params.ring.moduli[..|params.ring.moduli| - 1]) >= 1
    ensures var n, qs, t := params.ring.degree, params.ring.moduli, params.t;
      var q, X0, X1 := qs[|qs| - 1], Lift(ct[0], n, qs), Lift(ct[1], n, qs);
      var v := BgvModulusSwitch.Centered2(X0, X1, s, Product(qs));
      var v' := BgvModulusSwitch.Centered2(SwitchPoly(X0, q, t), SwitchPoly(X1, q, t), s, Product(qs[..|qs| - 1]));
      && plain == Residues(v', qs[..|qs| - 1])
      && PCong(v', v, t) && PBound(PScale(q, v'), V + q * t * (n + 1) - 1)
  {
    hide PMul, PMod, PScale, PCong, PBound, Residues, IsPrime, TwoTo, Phase, Phase2, Product, Lift, SwitchPoly, Cong,
      BgvModulusSwitch.Centered2, BgvParams.Valid;
    ghost var n, qs, t := params.ring.degree, params.ring.moduli, params.t;
    ghost var k := |qs| - 1;
    ghost var q, Q' := qs[k], Product(qs[..k]);
    assert params.ring.Valid() by {
      ParamsRing(params);
    }
    SplitLast(qs);
    var next := BgvModulusSwitch.NextParams(params);
    var nextKey := BgvModulusSwitch.SwitchSecretKey(sk, s, qs);
    var switched := BgvModulusSwitch.SwitchNextReal(params, ct);
    ghost var X0, X1 := Lift(ct[0], n, qs), Lift(ct[1], n, qs);
    ghost var cs := [SwitchPoly(X0, q, t), SwitchPoly(X1, q, t)];
    SoundNext(next.value.ring, qs[..k]);
    var decrypted := Decrypt(next.value.ring, switched.value, nextKey.value, cs, s);
    plain := decrypted.value;
    PhaseTwo(cs, s);
    OneCong(q, t);
    BgvModulusSwitch.ModulusSwitchCorrect(X0, X1, s, Q', q, t, V);
    ghost var v' := BgvModulusSwitch.Centered2(cs[0], cs[1], s, Q');
    CenteredCong(cs[0], cs[1], s, Q');
    ResiduesCong(Phase2(cs[0], cs[1], s), v', qs[..k]);
  }

  lemma ParamsRing(params: BgvParams)
    requires params.Valid()
    ensures params.ring.Valid() && params.t > 1
  {}

  lemma OneCong(q: int, t: int)
    requires t > 1 && q % t == 1
    ensures Cong(q, 1, t)
  {
    SmallMod(1, t);
    CongIffMod(q, 1, t);
  }

  lemma SplitLast(qs: seq<Modulus>)
    requires PrimeBasis(qs) && |qs| > 1
    ensures PrimeBasis(qs[..|qs| - 1]) && Moduli(qs[..|qs| - 1]) && Product(qs[..|qs| - 1]) >= 1
    ensures Product(qs) == Product(qs[..|qs| - 1]) * qs[|qs| - 1]
  {
    hide IsPrime;
    PrimeModuli(qs[..|qs| - 1]);
  }

  lemma SoundNext(ring: Ring, qs: seq<int>)
    requires ring.Valid() && ring.moduli == qs && PrimeBasis(qs)
    ensures ring.Sound()
  {
    hide TwoTo, IsPrime;
  }

  lemma CenteredCong(c0: Poly, c1: Poly, s: Poly, Q: int)
    requires |c0| == |c1| == |s| && Q > 0
    ensures PCong(Phase2(c0, c1, s), BgvModulusSwitch.Centered2(c0, c1, s, Q), Q)
  {
    hide Phase2, Cong, BgvModulusSwitch.Centered2;
    PCongBy(Phase2(c0, c1, s), BgvModulusSwitch.Centered2(c0, c1, s, Q), Q, BgvModulusSwitch.Wraps(c0, c1, s, Q));
  }
}
