/** Key switching from end to end: what the ciphertexts that key switching, relinearization and Galois application
    return decrypt to. */
module KeySwitchRun {
  import opened Integers
  import opened NumberTheory
  import opened Results
  import opened Negacyclic
  import opened Substitution
  import opened Rns
  import opened PolySums
  import opened RnsRescale
  import opened Rings
  import opened Rlwe
  import opened KeySwitchMath
  import opened KeySwitch
  import opened Evaluator

  /** The key's rows encrypt (QP/q_j) s_old under s with errors e_j. */
  ghost predicate KeyFor(ksk: KeySwitchKey, ring: Ring, bs: seq<Poly>, aRows: seq<Poly>, es: seq<Poly>, s: Poly,
                         oldKey: Poly) {
    && Matches(ksk, ring) && |ksk.rows| == |ring.moduli| < |ksk.ring.moduli| && |s| == |oldKey| == ring.degree
    && KeyRows(ksk.rows, bs, aRows, ring.degree, ksk.ring.moduli)
    && Rows(bs, aRows, es, s, RowScales(ring.moduli, ksk.ring.moduli[|ring.moduli|..]), oldKey,
            Product(ksk.ring.moduli))
  }

  /** P eta = sum d_j e_j - r_b - r_a s for the digits d_j of c1, with the bound it has for a ternary s. */
  ghost predicate SwitchingNoise(eta: Poly, c1: Poly, bs: seq<Poly>, aRows: seq<Poly>, es: seq<Poly>, s: Poly,
                                 qs: seq<int>, P: int)
    requires Moduli(qs) && P >= 1 && |c1| == |s| && |bs| == |aRows| == |es| == |qs|
    requires Uniform(bs, |s|) && Uniform(aRows, |s|) && Uniform(es, |s|)
  {
    && |eta| == |s|
    && (var n, ds := |s|, Digits(Residues(c1, qs), |s|, qs);
        PScale(P, eta) == Leftover(Dot(n, ds, es), Dot(n, ds, bs), Dot(n, ds, aRows), s, P))
    && (PBound(s, 1) ==> forall B :: RowErrors(es, B) ==> PBound(PScale(P, eta), SwitchBound(|s|, qs, P, B)))
  }

  /** What the moduli of a key and its ring have in common. */
  lemma KeyParts(ksk: KeySwitchKey, ring: Ring, bs: seq<Poly>, aRows: seq<Poly>, es: seq<Poly>, s: Poly, oldKey: Poly)
    requires ring.Valid() && KeyFor(ksk, ring, bs, aRows, es, s, oldKey)
    ensures var qs, ps := ring.moduli, ksk.ring.moduli[|ring.moduli|..];
      && ksk.ring.moduli == qs + ps && PrimeBasis(qs + ps) && PrimeBasis(qs) && Moduli(qs) && |qs| > 0 && |ps| > 0
      && Product(ps) >= 1
    ensures |bs| == |aRows| == |es| == |ring.moduli|
    ensures Uniform(bs, ring.degree) && Uniform(aRows, ring.degree) && Uniform(es, ring.degree)
  {
    hide Product, IsPrime, RowRelation, KeyRow, TwoTo;
    var qs, ps := ring.moduli, ksk.ring.moduli[|ring.moduli|..];
    assert ksk.ring.moduli == qs + ps;
    BasisParts(qs, ps);
    RowsUniform(bs, aRows, es, s, RowScales(qs, ps), oldKey, Product(ksk.ring.moduli));
  }

  lemma SoundRing(ring: Ring, ksk: KeySwitchKey)
    requires ring.Valid() && Matches(ksk, ring)
    ensures ring.Sound()
  {
    hide TwoTo, IsPrime;
    forall j | 0 <= j < |ring.moduli| ensures IsPrime(ring.moduli[j]) {
      assert ksk.ring.moduli[j] == ring.moduli[j];
    }
  }

  /** `Switch`, then decryption under the new secret: c0 + c1 s_old + eta. */
  method SwitchRun(ring: Ring, ct: Ciphertext, ksk: KeySwitchKey, sk: RnsPoly,
                   ghost cs: seq<Poly>, ghost bs: seq<Poly>, ghost aRows: seq<Poly>, ghost es: seq<Poly>,
                   ghost s: Poly, ghost oldKey: Poly)
    returns (switched: Ciphertext, plain: RnsPoly, ghost outs: seq<Poly>, ghost eta: Poly)
    requires ring.Valid() && KeyFor(ksk, ring, bs, aRows, es, s, oldKey) && sk == Residues(s, ring.moduli)
    requires |ct| == 2 && Represents(ct, cs, ring.degree, ring.moduli)
    ensures Product(ksk.ring.moduli[|ring.moduli|..]) >= 1 && |bs| == |aRows| == |es| == |ring.moduli|
    ensures Uniform(bs, ring.degree) && Uniform(aRows, ring.degree) && Uniform(es, ring.degree)
    ensures SwitchingNoise(eta, cs[1], bs, aRows, es, s, ring.moduli, Product(ksk.ring.moduli[|ring.moduli|..]))
    ensures |eta| == ring.degree && |outs| == 2 && Represents(switched, outs, ring.degree, ring.moduli)
    ensures PCong(Phase2(outs[0], outs[1], s), PAdd(Phase2(cs[0], cs[1], oldKey), eta), Product(ring.moduli))
    ensures plain == Residues(PAdd(Phase2(cs[0], cs[1], oldKey), eta), ring.moduli)
  {
    hide PMul, PAdd, PMod, PCong, PScale, Residues, IsPrime, TwoTo, Ring.Sound, Dot, PDiv, Digits, Product, KeyRow,
      Phase, Phase2, Leftover, PBound, SwitchBound, RowErrors;
    KeyParts(ksk, ring, bs, aRows, es, s, oldKey);
    SoundRing(ring, ksk);
    ghost var n, qs, ps := ring.degree, ring.moduli, ksk.ring.moduli[|ring.moduli|..];
    var r := Switch(ct, ksk, ring, bs, aRows);
    switched := r.value;
    ghost var b, a := SwitchedB(ct[1], bs, n, qs, Product(ps)), SwitchedB(ct[1], aRows, n, qs, Product(ps));
    ResAdd(cs[0], b, qs);
    outs := [PAdd(cs[0], b), a];
    eta := KeySwitchCorrect(cs[0], cs[1], bs, aRows, es, s, oldKey, qs, ps);
    if PBound(s, 1) {
      SwitchedNoise(Residues(cs[1], qs), bs, aRows, es, s, eta, qs, Product(ps));
    }
    var decrypted := Decrypt(ring, switched, sk, outs, s);
    plain := decrypted.value;
    PhaseTwo(outs, s);
    ResiduesCong(Phase(outs, s), PAdd(Phase2(cs[0], cs[1], oldKey), eta), qs);
  }

  /** `Relinearize`, then decryption: c0 + c1 s + c2 s^2 + eta. */
  method RelinearizeRun(ring: Ring, ct: Ciphertext, ksk: KeySwitchKey, sk: RnsPoly,
                        ghost cs: seq<Poly>, ghost bs: seq<Poly>, ghost aRows: seq<Poly>, ghost es: seq<Poly>,
                        ghost s: Poly, ghost oldKey: Poly)
    returns (relinearized: Ciphertext, plain: RnsPoly, ghost outs: seq<Poly>, ghost eta: Poly)
    requires ring.Valid() && KeyFor(ksk, ring, bs, aRows, es, s, oldKey) && sk == Residues(s, ring.moduli)
    requires PCong(oldKey, PMul(s, s), Product(ring.moduli))
    requires |ct| == 3 && Represents(ct, cs, ring.degree, ring.moduli)
    ensures Product(ksk.ring.moduli[|ring.moduli|..]) >= 1 && |bs| == |aRows| == |es| == |ring.moduli|
    ensures Uniform(bs, ring.degree) && Uniform(aRows, ring.degree) && Uniform(es, ring.degree)
    ensures SwitchingNoise(eta, cs[2], bs, aRows, es, s, ring.moduli, Product(ksk.ring.moduli[|ring.moduli|..]))
    ensures |eta| == ring.degree && |outs| == 2 && Represents(relinearized, outs, ring.degree, ring.moduli)
    ensures Uniform(cs, |s|) && |s| > 0
    ensures PCong(Phase2(outs[0], outs[1], s), PAdd(Phase(cs, s), eta), Product(ring.moduli))
    ensures plain == Residues(PAdd(Phase(cs, s), eta), ring.moduli)
  {
    hide PMul, PAdd, PMod, PCong, PScale, Residues, IsPrime, TwoTo, Ring.Sound, Dot, PDiv, Digits, Product, KeyRow,
      Phase, Phase2, Leftover, PBound, SwitchBound, RowErrors;
    KeyParts(ksk, ring, bs, aRows, es, s, oldKey);
    SoundRing(ring, ksk);
    RepresentedFits(ring, ct, cs);
    ghost var n, qs, ps := ring.degree, ring.moduli, ksk.ring.moduli[|ring.moduli|..];
    var r := Relinearize(ring, ct, Some(ksk), cs, bs, aRows);
    relinearized := r.value;
    ghost var b, a := SwitchedB(ct[2], bs, n, qs, Product(ps)), SwitchedB(ct[2], aRows, n, qs, Product(ps));
    outs := [PAdd(cs[0], b), PAdd(cs[1], a)];
    eta := RelinearizeCorrect(cs, bs, aRows, es, s, oldKey, qs, ps);
    var decrypted := Decrypt(ring, relinearized, sk, outs, s);
    plain := decrypted.value;
    PhaseTwo(outs, s);
    ResiduesCong(Phase(outs, s), PAdd(Phase(cs, s), eta), qs);
  }

  /** `ApplyGaloisAutomorphism`, then decryption: sigma_k(c0 + c1 s) + eta. */
  method GaloisRun(ring: Ring, ct: Ciphertext, element: nat, ksk: KeySwitchKey, sk: RnsPoly,
                   ghost cs: seq<Poly>, ghost bs: seq<Poly>, ghost aRows: seq<Poly>, ghost es: seq<Poly>,
                   ghost s: Poly)
    returns (rotated: Ciphertext, plain: RnsPoly, ghost outs: seq<Poly>, ghost eta: Poly)
    requires ring.Valid() && element % 2 == 1 && |s| == ring.degree
    requires KeyFor(ksk, ring, bs, aRows, es, s, PSubst(s, element)) && sk == Residues(s, ring.moduli)
    requires |ct| == 2 && Represents(ct, cs, ring.degree, ring.moduli)
    ensures Product(ksk.ring.moduli[|ring.moduli|..]) >= 1 && |bs| == |aRows| == |es| == |ring.moduli|
    ensures Uniform(bs, ring.degree) && Uniform(aRows, ring.degree) && Uniform(es, ring.degree)
    ensures SwitchingNoise(eta, PSubst(cs[1], element), bs, aRows, es, s, ring.moduli,
                           Product(ksk.ring.moduli[|ring.moduli|..]))
    ensures |eta| == ring.degree && |outs| == 2 && Represents(rotated, outs, ring.degree, ring.moduli)
    ensures PCong(Phase2(outs[0], outs[1], s), PAdd(PSubst(Phase2(cs[0], cs[1], s), element), eta),
                  Product(ring.moduli))
    ensures plain == Residues(PAdd(PSubst(Phase2(cs[0], cs[1], s), element), eta), ring.moduli)
  {
    hide PMul, PAdd, PMod, PCong, PScale, Residues, IsPrime, TwoTo, Ring.Sound, Dot, PDiv, Digits, Product, KeyRow,
      Phase, Phase2, Leftover, PBound, SwitchBound, RowErrors, PSubst;
    KeyParts(ksk, ring, bs, aRows, es, s, PSubst(s, element));
    SoundRing(ring, ksk);
    RepresentedFits(ring, ct, cs);
    ghost var n, qs, ps := ring.degree, ring.moduli, ksk.ring.moduli[|ring.moduli|..];
    var r := ApplyGaloisAutomorphism(ring, ct, element, Some(ksk), cs, bs, aRows);
    rotated := r.value;
    ghost var d1 := Residues(PSubst(cs[1], element), qs);
    ghost var b, a := SwitchedB(d1, bs, n, qs, Product(ps)), SwitchedB(d1, aRows, n, qs, Product(ps));
    outs := [PAdd(PSubst(cs[0], element), b), a];
    eta := GaloisCorrect(cs[0], cs[1], element, bs, aRows, es, s, qs, ps);
    var decrypted := Decrypt(ring, rotated, sk, outs, s);
    plain := decrypted.value;
    PhaseTwo(outs, s);
    ResiduesCong(Phase(outs, s), PAdd(PSubst(Phase2(cs[0], cs[1], s), element), eta), qs);
  }

  /** What the generators return is such a key. */
  lemma GeneratedKeyFor(ksk: KeySwitchKey, ring: Ring, pModuli: seq<Modulus>, As: seq<Poly>, Es: seq<Poly>, s: Poly,
                        oldKey: Poly)
    requires ring.Valid() && |pModuli| > 0 && Matches(ksk, ring) && ksk.ring.moduli == ring.moduli + pModuli
    requires |s| == |oldKey| == ring.degree && |As| == |Es| == |ring.moduli|
    requires Uniform(As, ring.degree) && Uniform(Es, ring.degree)
    requires KeyRows(ksk.rows, RowBs(As, Es, s, RowScales(ring.moduli, pModuli), oldKey), As, ring.degree,
                     ring.moduli + pModuli)
    ensures KeyFor(ksk, ring, RowBs(As, Es, s, RowScales(ring.moduli, pModuli), oldKey), As, Es, s, oldKey)
  {
    hide Product, IsPrime, RowRelation, KeyRow, TwoTo, RowB;
    assert ksk.ring.moduli[|ring.moduli|..] == pModuli;
    GeneratedRows(As, Es, s, RowScales(ring.moduli, pModuli), oldKey, Product(ksk.ring.moduli));
  }

  /** A homomorphic multiplication from end to end: key generation, product, relinearization and decryption give the
      product of what the two ciphertexts decrypt to, plus the switching noise. */
  method MultiplyRun(ring: Ring, lhs: Ciphertext, rhs: Ciphertext, sk: RnsPoly, pModuli: seq<Modulus>,
                     aRows: seq<RnsPoly>, es: seq<RnsPoly>,
                     ghost ls: seq<Poly>, ghost rs: seq<Poly>, ghost As: seq<Poly>, ghost Es: seq<Poly>, ghost s: Poly)
    returns (plain: RnsPoly, ghost eta: Poly, ghost bs: seq<Poly>)
    requires ring.Sound() && PrimeBasis(ring.moduli + pModuli) && PrimeBasis(ring.moduli) && |pModuli| > 0
    requires |s| == ring.degree && PBound(s, 1) && sk == Residues(s, ring.moduli)
    requires |aRows| == |es| == |As| == |Es| == |ring.moduli| && Uniform(As, ring.degree) && Uniform(Es, ring.degree)
    requires forall j :: 0 <= j < |aRows| ==> aRows[j] == Residues(As[j], ring.moduli + pModuli)
    requires forall j :: 0 <= j < |es| ==> es[j] == Residues(Es[j], ring.moduli + pModuli)
    requires |lhs| == |rhs| == 2 && Represents(lhs, ls, ring.degree, ring.moduli)
    requires Represents(rhs, rs, ring.degree, ring.moduli)
    ensures |s| > 0 && Uniform(ls, |s|) && Uniform(rs, |s|) && |eta| == |s|
    ensures Product(pModuli) >= 1 && |bs| == |ring.moduli| && Uniform(bs, |s|)
    ensures SwitchingNoise(eta, PMul(ls[1], rs[1]), bs, As, Es, s, ring.moduli, Product(pModuli))
    ensures plain == Residues(PAdd(PMul(Phase2(ls[0], ls[1], s), Phase2(rs[0], rs[1], s)), eta), ring.moduli)
  {
    hide PMul, PAdd, PMod, PCong, PScale, Residues, IsPrime, TwoTo, Ring.Sound, Product, KeyRow, RowB, Phase, Phase2,
      SwitchingNoise, PBound, Tensor, KeyFor;
    SoundIsValid(ring);
    var key, oldKey := GenerateHybridRelinearizationKey(ring, sk, pModuli, aRows, es, As, Es, s);
    var ksk := key.value;
    GeneratedKeyFor(ksk, ring, pModuli, As, Es, s, oldKey);
    bs := RowBs(As, Es, s, RowScales(ring.moduli, pModuli), oldKey);
    RepresentedFits(ring, lhs, ls);
    RepresentedFits(ring, rhs, rs);
    WellFormedIff(ring, lhs);
    WellFormedIff(ring, rhs);
    var product := Multiply(ring, lhs, rhs, ls, rs);
    ghost var cs := Tensor(ring.degree, ls, rs);
    LastComponent(ring.degree, ls, rs);
    assert ksk.ring.moduli[|ring.moduli|..] == pModuli;
    ghost var outs;
    var relinearized;
    relinearized, plain, outs, eta := RelinearizeRun(ring, product.value, ksk, sk, cs, bs, As, Es, s, oldKey);
    ProductPhase(ring.degree, ls, rs, s);
    PhaseTwo(ls, s);
    PhaseTwo(rs, s);
  }

  /** c_2 of a product of two degree-1 ciphertexts. */
  lemma LastComponent(n: nat, a: seq<Poly>, b: seq<Poly>)
    requires |a| == |b| == 2 && Uniform(a, n) && Uniform(b, n)
    ensures Tensor(n, a, b)[2] == PMul(a[1], b[1])
  {
    hide PMul, PAdd;
    assert TensorAt(n, a, b, 0, 2) == PZero(n) == TensorAt(n, a, b, 1, 2);
    AddZero(PMul(a[1], b[1]));
  }
}
