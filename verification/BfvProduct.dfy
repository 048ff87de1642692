/** When the BFV product of two ciphertexts decodes to the product of their messages. */
module BfvProduct {
  import opened Integers
  import opened NumberTheory
  import opened Negacyclic
  import opened Rns
  import opened Crt
  import opened PolySums
  import opened RnsRescale
  import opened Rlwe
  import opened Bfv
  import opened KeySwitchMath

  // ------------------------------------------------------------- one factor, scaled by t

  /** m + t k: the message with the multiples of t that the wraps modulo Q turn into. */
  ghost function Wrapped(m: Poly, k: Poly, t: int): (r: Poly)
    requires |m| == |k|
    ensures |r| == |m|
  {
    PAdd(m, PScale(t, k))
  }

  /** t e - (Q mod t) m. */
  ghost function Deviation(m: Poly, e: Poly, t: int, Q: int): (r: Poly)
    requires |m| == |e| && t > 0
    ensures |r| == |m|
  {
    PSub(PScale(t, e), PScale(Q % t, m))
  }

  /** t (Delta m + e + Q k) = Q (m + t k) + (t e - (Q mod t) m). */
  lemma ScaledPhase(x: Poly, m: Poly, e: Poly, k: Poly, t: int, Q: int)
    requires |x| == |m| == |e| == |k| && t > 0
    requires x == PAdd(PAdd(PScale(Q / t, m), e), PScale(Q, k))
    ensures PScale(t, x) == PAdd(PScale(Q, Wrapped(m, k, t)), Deviation(m, e, t, Q))
  {
    DivModId(Q, t);
    forall i | 0 <= i < |x|
      ensures PScale(t, x)[i] == PAdd(PScale(Q, Wrapped(m, k, t)), Deviation(m, e, t, Q))[i]
    {
      ScaledEntry(m[i], e[i], k[i], t, Q, Q / t, Q % t);
    }
  }

  lemma ScaledEntry(m: int, e: int, k: int, t: int, Q: int, f: int, r: int)
    requires Q == f * t + r
    ensures t * (f * m + e + Q * k) == Q * (m + t * k) + (t * e - r * m)
  {
    calc {
      t * (f * m + e + Q * k);
      f * t * m + t * e + Q * (t * k);
      (Q - r) * m + t * e + Q * (t * k);
      Q * m - r * m + t * e + Q * (t * k);
      Q * (m + t * k) + (t * e - r * m);
    }
  }

  // ---------------------------------------------------------------------- the product

  /** Q (M1 E2 + M2 E1) + E1 E2. */
  ghost function Spread(M1: Poly, E1: Poly, M2: Poly, E2: Poly, Q: int): (r: Poly)
    requires |M1| == |E1| == |M2| == |E2|
    ensures |r| == |M1|
  {
    PAdd(PScale(Q, PAdd(PMul(M1, E2), PMul(M2, E1))), PMul(E1, E2))
  }

  /** (Q M1 + E1)(Q M2 + E2) = Q Q M1 M2 + Q (M1 E2 + M2 E1) + E1 E2. */
  lemma ProductExpands(M1: Poly, E1: Poly, M2: Poly, E2: Poly, Q: int)
    requires |M1| == |E1| == |M2| == |E2|
    ensures PMul(PAdd(PScale(Q, M1), E1), PAdd(PScale(Q, M2), E2))
         == PAdd(PScale(Q, PScale(Q, PMul(M1, M2))), Spread(M1, E1, M2, E2, Q))
  {
    hide PMul, PAdd, PScale;
    var x, y := PScale(Q, M1), PScale(Q, M2);
    MulAddLeft(x, E1, PAdd(y, E2));
    MulAddRight(x, y, E2);
    MulAddRight(E1, y, E2);
    MulScaleLeft(Q, M1, y);
    MulScaleRight(Q, M1, M2);
    MulScaleLeft(Q, M1, E2);
    MulScaleRight(Q, E1, M2);
    MulComm(E1, M2);
    ScaleAdd(Q, PMul(M1, E2), PMul(M2, E1));
    Regroup(PMul(x, y), PMul(x, E2), PMul(E1, y), PMul(E1, E2));
  }

  lemma Regroup(a: Poly, b: Poly, c: Poly, d: Poly)
    requires |a| == |b| == |c| == |d|
    ensures PAdd(PAdd(a, b), PAdd(c, d)) == PAdd(a, PAdd(PAdd(b, c), d))
  {}

  /** t t x y for two factors with t x = Q M1 + E1 and t y = Q M2 + E2. */
  lemma ScaledProduct(x: Poly, y: Poly, M1: Poly, E1: Poly, M2: Poly, E2: Poly, t: int, Q: int)
    requires |x| == |y| == |M1| == |E1| == |M2| == |E2|
    requires PScale(t, x) == PAdd(PScale(Q, M1), E1) && PScale(t, y) == PAdd(PScale(Q, M2), E2)
    ensures PScale(t, PScale(t, PMul(x, y))) == PAdd(PScale(Q, PScale(Q, PMul(M1, M2))), Spread(M1, E1, M2, E2, Q))
  {
    hide PMul, PAdd, PScale, Spread;
    ProductExpands(M1, E1, M2, E2, Q);
    MulScaleLeft(t, x, PScale(t, y));
    MulScaleRight(t, x, y);
  }

  /** What t times the product's phase is beside Q M1 M2. */
  lemma ProductNoise(phase: Poly, xy: Poly, M: Poly, spread: Poly, rho: Poly, t: int, Q: int) returns (noise: Poly)
    requires |phase| == |xy| == |M| == |spread| == |rho|
    requires PScale(Q, phase) == PAdd(PScale(t, xy), rho)
    requires PScale(t, PScale(t, xy)) == PAdd(PScale(Q, PScale(Q, M)), spread)
    ensures |noise| == |phase| && PScale(t, phase) == PAdd(PScale(Q, M), noise)
    ensures PScale(Q, noise) == PAdd(spread, PScale(t, rho))
  {
    noise := PSub(PScale(t, phase), PScale(Q, M));
    assert PScale(t, phase) == PAdd(PScale(Q, M), noise);
    forall i | 0 <= i < |phase| ensures PScale(Q, noise)[i] == PAdd(spread, PScale(t, rho))[i] {
      assert Q * phase[i] == PScale(Q, phase)[i] == t * xy[i] + rho[i];
      assert PScale(t, PScale(t, xy))[i] == t * (t * xy[i]);
      assert PAdd(PScale(Q, PScale(Q, M)), spread)[i] == Q * (Q * M[i]) + spread[i];
      NoiseEntry(phase[i], xy[i], M[i], spread[i], rho[i], t, Q);
    }
  }

  lemma NoiseEntry(phase: int, xy: int, M: int, spread: int, rho: int, t: int, Q: int)
    requires Q * phase == t * xy + rho && t * (t * xy) == Q * (Q * M) + spread
    ensures Q * (t * phase - Q * M) == spread + t * rho
  {
    calc {
      Q * (t * phase - Q * M);
      t * (Q * phase) - Q * (Q * M);
      t * (t * xy) + t * rho - Q * (Q * M);
    }
  }

  // -------------------------------------------------------------------------- bounds

  /** |m + t k| <= t - 1 + t (N + 1). */
  ghost function MessageSize(n: nat, t: int): int {
    t - 1 + t * (n + 1)
  }

  /** |t e - (Q mod t) m| <= t B + (Q mod t)(t - 1). */
  ghost function DeviationSize(t: int, Q: int, B: int): int
    requires t > 0
  {
    t * B + Q % t * (t - 1)
  }

  /** The rounding errors at 1, s and s^2, doubled. */
  ghost function RoundingSize(n: nat, Q: int): int {
    Q + n * (Q * 1) + n * (Q * (n * (1 * 1)))
  }

  ghost function SpreadSize(n: nat, t: int, Q: int, B: int): int
    requires t > 0
  {
    var m, e := MessageSize(n, t), DeviationSize(t, Q, B);
    Q * (n * (m * e) + n * (m * e)) + n * (e * e)
  }

  /** 2 Q times the largest noise beside Q M1 M2. */
  ghost function ProductBudget(n: nat, t: int, Q: int, B: int): int
    requires t > 0
  {
    2 * SpreadSize(n, t, Q, B) + t * RoundingSize(n, Q)
  }

  /** The budget written out, with M = t - 1 + t (N + 1) and E = t B + (Q mod t)(t - 1). */
  lemma BudgetIs(n: nat, t: int, Q: int, B: int)
    requires t > 0
    ensures var M, E := t - 1 + t * (n + 1), t * B + Q % t * (t - 1);
      ProductBudget(n, t, Q, B) == 4 * Q * n * M * E + 2 * n * E * E + t * Q * (1 + n + n * n)
  {
    hide MessageSize, DeviationSize, RoundingSize;
    var M, E := MessageSize(n, t), DeviationSize(t, Q, B);
    SizesAre(n, t, Q, B);
    SpreadArith(n, M, E, Q);
    RoundingArith(n, t, Q);
  }

  lemma SizesAre(n: nat, t: int, Q: int, B: int)
    requires t > 0
    ensures MessageSize(n, t) == t - 1 + t * (n + 1) && DeviationSize(t, Q, B) == t * B + Q % t * (t - 1)
  {}

  lemma SpreadArith(n: int, M: int, E: int, Q: int)
    ensures 2 * (Q * (n * (M * E) + n * (M * E)) + n * (E * E)) == 4 * Q * n * M * E + 2 * n * E * E
  {
    Regrouped(4 * Q * n, M, E);
    Regrouped(4 * Q, n, M * E);
    Regrouped(2 * n, E, E);
    var a := n * (M * E);
    assert Q * (a + a) == 2 * (Q * a) && 4 * Q * a == 4 * (Q * a);
    assert 2 * n * (E * E) == 2 * (n * (E * E));
  }

  lemma Regrouped(x: int, y: int, z: int)
    ensures x * y * z == x * (y * z)
  {}

  lemma RoundingArith(n: nat, t: int, Q: int)
    ensures t * RoundingSize(n, Q) == t * Q * (1 + n + n * n)
  {
    var r := 1 + n + n * n;
    assert n * (Q * n) == Q * (n * n);
    assert RoundingSize(n, Q) == Q * r;
    Regrouped(t, Q, r);
  }

  lemma ScaleBound(c: int, a: Poly, A: int)
    requires c >= 0 && PBound(a, A)
    ensures PBound(PScale(c, a), c * A)
  {
    forall i | 0 <= i < |a| ensures -(c * A) <= c * a[i] <= c * A {
      MulMono(a[i], A, c);
      MulMono(-A, a[i], c);
      IntMulComm(c, a[i]);
      IntMulComm(c, A);
      assert -A * c == -(A * c);
    }
  }

  lemma WrappedBound(m: Poly, k: Poly, n: nat, t: int)
    requires |m| == |k| && t > 0 && Below(m, t) && PBound(k, n + 1)
    ensures MessageSize(n, t) >= 0 && PBound(Wrapped(m, k, t), MessageSize(n, t))
  {
    hide PAdd, PScale, PBound, Below;
    BelowBound(m, t);
    ScaleBound(t, k, n + 1);
    AddBound(m, PScale(t, k), t - 1, t * (n + 1));
    MulMono(0, n + 1, t);
    IntMulComm(t, n + 1);
  }

  lemma DeviationBound(m: Poly, e: Poly, t: int, Q: int, B: int)
    requires |m| == |e| && t > 0 && Below(m, t) && PBound(e, B) && B >= 0
    ensures DeviationSize(t, Q, B) >= 0 && PBound(Deviation(m, e, t, Q), DeviationSize(t, Q, B))
  {
    hide PSub, PScale, PBound, Below;
    DivModId(Q, t);
    BelowBound(m, t);
    ScaleBound(t, e, B);
    ScaleBound(Q % t, m, t - 1);
    SubBound(PScale(t, e), PScale(Q % t, m), t * B, Q % t * (t - 1));
    MulMono(0, B, t);
    IntMulComm(t, B);
    MulMono(0, t - 1, Q % t);
    IntMulComm(t - 1, Q % t);
  }

  lemma SpreadBound(M1: Poly, E1: Poly, M2: Poly, E2: Poly, n: nat, t: int, Q: int, B: int)
    requires |M1| == |E1| == |M2| == |E2| == n && t > 0 && Q >= 0
    requires MessageSize(n, t) >= 0 && DeviationSize(t, Q, B) >= 0
    requires PBound(M1, MessageSize(n, t)) && PBound(M2, MessageSize(n, t))
    requires PBound(E1, DeviationSize(t, Q, B)) && PBound(E2, DeviationSize(t, Q, B))
    ensures PBound(Spread(M1, E1, M2, E2, Q), SpreadSize(n, t, Q, B))
  {
    hide PMul, PAdd, PScale, PBound, MessageSize, DeviationSize;
    var m, e := MessageSize(n, t), DeviationSize(t, Q, B);
    MulBoundPoly(M1, E2, m, e);
    MulBoundPoly(M2, E1, m, e);
    AddBound(PMul(M1, E2), PMul(M2, E1), n * (m * e), n * (m * e));
    ScaleBound(Q, PAdd(PMul(M1, E2), PMul(M2, E1)), n * (m * e) + n * (m * e));
    MulBoundPoly(E1, E2, e, e);
    AddBound(PScale(Q, PAdd(PMul(M1, E2), PMul(M2, E1))), PMul(E1, E2), Q * (n * (m * e) + n * (m * e)), n * (e * e));
  }

  /** 2 |noise| < Q when the budget is below Q^2. */
  lemma NoiseFits(noise: Poly, spread: Poly, rho: Poly, n: nat, t: int, Q: int, B: int)
    requires |noise| == |spread| == |rho| && t > 0 && Q > 0
    requires PScale(Q, noise) == PAdd(spread, PScale(t, rho))
    requires PBound(spread, SpreadSize(n, t, Q, B)) && PBound(PScale(2, rho), RoundingSize(n, Q))
    requires ProductBudget(n, t, Q, B) < Q * Q
    ensures forall i :: 0 <= i < |noise| ==> -Q < 2 * noise[i] < Q
  {
    hide SpreadSize, RoundingSize;
    var S, R := SpreadSize(n, t, Q, B), RoundingSize(n, Q);
    ScaleBound(t, PScale(2, rho), R);
    forall i | 0 <= i < |noise| ensures -Q < 2 * noise[i] < Q {
      assert PScale(Q, noise)[i] == spread[i] + t * rho[i];
      assert PScale(t, PScale(2, rho))[i] == t * (2 * rho[i]);
      NoiseFitsEntry(noise[i], spread[i], rho[i], t, Q, S, R);
    }
  }

  lemma NoiseFitsEntry(noise: int, spread: int, rho: int, t: int, Q: int, S: int, R: int)
    requires Q > 0 && Q * noise == spread + t * rho && -S <= spread <= S && -(t * R) <= t * (2 * rho) <= t * R
    requires 2 * S + t * R < Q * Q
    ensures -Q < 2 * noise < Q
  {
    assert t * (2 * rho) == 2 * (t * rho);
    assert 2 * noise * Q == 2 * (Q * noise) && -Q * Q == -(Q * Q);
    if 2 * noise >= Q {
      MulMono(Q, 2 * noise, Q);
    }
    if 2 * noise <= -Q {
      MulMono(2 * noise, -Q, Q);
    }
  }

  /** The wraps of a ciphertext with components in [0, Q): |k| <= N + 1. */
  lemma WrapBound(l0: Poly, l1: Poly, s: Poly, m: Poly, e: Poly, k: Poly, t: int, Q: int, B: int)
    requires |l0| == |l1| == |s| == |m| == |e| == |k| && t > 0 && Q > 0
    requires Below(l0, Q) && Below(l1, Q) && PBound(s, 1) && Below(m, t) && PBound(e, B) && 0 <= B <= Q / t
    requires Phase2(l0, l1, s) == PAdd(PAdd(PScale(Q / t, m), e), PScale(Q, k))
    ensures PBound(k, |s| + 1)
  {
    hide PMul;
    var n := |s|;
    BelowBound(l0, Q);
    BelowBound(l1, Q);
    MulBoundPoly(l1, s, Q - 1, 1);
    AddBound(l0, PMul(l1, s), Q - 1, n * ((Q - 1) * 1));
    forall i | 0 <= i < n ensures -(n + 1) <= k[i] <= n + 1 {
      assert Phase2(l0, l1, s)[i] == Q / t * m[i] + e[i] + Q * k[i];
      WrapEntry(Phase2(l0, l1, s)[i], m[i], e[i], k[i], n, t, Q, B);
    }
  }

  lemma WrapEntry(x: int, m: int, e: int, k: int, n: nat, t: int, Q: int, B: int)
    requires t > 0 && Q > 0 && 0 <= m < t && -B <= e <= B && 0 <= B <= Q / t
    requires -(Q - 1 + n * ((Q - 1) * 1)) <= x <= Q - 1 + n * ((Q - 1) * 1) && x == Q / t * m + e + Q * k
    ensures -(n + 1) <= k <= n + 1
  {
    var f := Q / t;
    DivModId(Q, t);
    MulMono(m, t - 1, f);
    MulMono(0, m, f);
    assert m * f == f * m && (t - 1) * f == f * t - f;
    assert 0 <= f * m <= Q - f;
    assert n * (Q - 1) == n * Q - n;
    assert (n + 2) * Q == n * Q + 2 * Q;
    assert k * Q == Q * k && -(n + 2) * Q == -((n + 2) * Q);
    if k >= n + 2 {
      MulMono(n + 2, k, Q);
    }
    if k <= -(n + 2) {
      MulMono(k, -(n + 2), Q);
    }
  }

  // ------------------------------------------------------------------------ decoding

  /** round(t v / Q) modulo t for v congruent to x modulo Q and t x = Q M + N with a small N. */
  lemma DecodeWrapped(v: int, x: int, M: int, N: int, t: int, Q: int)
    requires t > 0 && Q > 0 && Cong(v, x, Q) && t * x == Q * M + N && -Q < 2 * N < Q
    ensures RoundDiv(t * v, Q) % t == M % t
  {
    hide RoundDiv;
    var w := CongQuot(v, x, Q);
    assert t * v == t * x + Q * (t * w) by {
      assert v == x + w * Q;
      assert t * (w * Q) == Q * (t * w);
    }
    assert Q * (M + t * w) == Q * M + Q * (t * w);
    RoundDivIs(t * v, Q, M + t * w);
    CongBy(M + t * w, M, t, w);
    ModEq(M + t * w, M, t);
  }

  lemma WrappedCong(m: Poly, k: Poly, t: int)
    requires |m| == |k| && t > 0
    ensures PCong(Wrapped(m, k, t), m, t)
  {
    PCongBy(Wrapped(m, k, t), m, t, k);
  }

  /** The value the client decodes from a decrypted ring element. */
  ghost function Decoded(x: Poly, qs: seq<int>, t: int): (r: Poly)
    requires PrimeBasis(qs) && Moduli(qs) && Product(qs) >= 1 && t > 0
  {
    PMod(RoundPoly(PScale(t, CenteredLift(Residues(x, qs), |x|, qs)), Product(qs)), t)
  }

  lemma DecodedIs(x: Poly, phase: Poly, M: Poly, noise: Poly, qs: seq<int>, t: int)
    requires PrimeBasis(qs) && Moduli(qs) && Product(qs) >= 1 && t > 0 && |phase| == |M| == |noise|
    requires PCong(x, phase, Product(qs)) && PScale(t, phase) == PAdd(PScale(Product(qs), M), noise)
    requires forall i :: 0 <= i < |noise| ==> -Product(qs) < 2 * noise[i] < Product(qs)
    ensures Decoded(x, qs, t) == PMod(M, t)
  {
    hide RoundDiv, Lift, IsPrime, Product, Cong, Residues, PMod;
    var Q, v := Product(qs), CenteredLift(Residues(x, qs), |x|, qs);
    LiftOfResidues(x, qs);
    forall i | 0 <= i < |x| ensures Decoded(x, qs, t)[i] == PMod(M, t)[i] {
      assert Cong(x[i], phase[i], Q);
      assert PScale(t, phase)[i] == Q * M[i] + noise[i];
      CenteredResidueCong(x[i], phase[i], Q);
      DecodeWrapped(v[i], phase[i], M[i], noise[i], t, Q);
    }
  }

  /** A degree-1 ciphertext with components in [0, Q) that encrypts `m` with noise `e`. */
  ghost predicate Encrypts(l0: Poly, l1: Poly, s: Poly, m: Poly, e: Poly, t: int, Q: int, B: int) {
    && |l0| == |l1| == |s| == |m| == |e| && t > 0 && Q > 0 && 0 <= B <= Q / t
    && Below(l0, Q) && Below(l1, Q) && Below(m, t) && PBound(e, B)
    && PCong(Phase2(l0, l1, s), PAdd(PScale(Q / t, m), e), Q)
  }

  /** t times such a phase, with the sizes of its two parts. */
  lemma FactorParts(l0: Poly, l1: Poly, s: Poly, m: Poly, e: Poly, t: int, Q: int, B: int)
    returns (M: Poly, E: Poly)
    requires Encrypts(l0, l1, s, m, e, t, Q, B) && PBound(s, 1)
    ensures |M| == |E| == |s| && PScale(t, Phase2(l0, l1, s)) == PAdd(PScale(Q, M), E) && PCong(M, m, t)
    ensures MessageSize(|s|, t) >= 0 && PBound(M, MessageSize(|s|, t))
    ensures DeviationSize(t, Q, B) >= 0 && PBound(E, DeviationSize(t, Q, B))
  {
    hide Phase2, PBound, Below, Deviation, Wrapped, MessageSize, DeviationSize;
    var k := PQuot(Phase2(l0, l1, s), PAdd(PScale(Q / t, m), e), Q);
    WrapBound(l0, l1, s, m, e, k, t, Q, B);
    ScaledPhase(Phase2(l0, l1, s), m, e, k, t, Q);
    M, E := Wrapped(m, k, t), Deviation(m, e, t, Q);
    WrappedCong(m, k, t);
    WrappedBound(m, k, |s|, t);
    DeviationBound(m, e, t, Q, B);
  }

  /** Decoding the product ciphertext returns m1 m2 modulo t, for every pair of ciphertexts whose noise bound keeps the
      budget below Q^2; the budget includes the multiples of Q that the components in [0, Q) carry. */
  lemma ProductDecodes(l0: Poly, l1: Poly, r0: Poly, r1: Poly, s: Poly, m1: Poly, e1: Poly, m2: Poly, e2: Poly, x: Poly,
                       qs: seq<int>, t: int, B: int)
    requires PrimeBasis(qs) && Moduli(qs) && Product(qs) >= 1 && t > 0 && PBound(s, 1)
    requires Encrypts(l0, l1, s, m1, e1, t, Product(qs), B) && Encrypts(r0, r1, s, m2, e2, t, Product(qs), B)
    requires ProductBudget(|s|, t, Product(qs), B) < Product(qs) * Product(qs)
    requires var d, Q := TensorOf(l0, l1, r0, r1), Product(qs);
      PCong(x, Phase3(RoundPoly(PScale(t, d.0), Q), RoundPoly(PScale(t, d.1), Q), RoundPoly(PScale(t, d.2), Q), s), Q)
    ensures Decoded(x, qs, t) == PMod(PMul(m1, m2), t)
  {
    hide PMul, PAdd, PScale, PCong, PBound, Phase2, Phase3, RoundPoly, RoundingError, Spread, MessageSize,
      DeviationSize, ProductBudget, Product, IsPrime, Decoded, PMod, Residues, Lift;
    var n, Q, d := |s|, Product(qs), TensorOf(l0, l1, r0, r1);
    var M1, E1 := FactorParts(l0, l1, s, m1, e1, t, Q, B);
    var M2, E2 := FactorParts(r0, r1, s, m2, e2, t, Q, B);
    var a, b := Phase2(l0, l1, s), Phase2(r0, r1, s);
    var phase := Phase3(RoundPoly(PScale(t, d.0), Q), RoundPoly(PScale(t, d.1), Q), RoundPoly(PScale(t, d.2), Q), s);
    var rho := Phase3(RoundingError(d.0, t, Q), RoundingError(d.1, t, Q), RoundingError(d.2, t, Q), s);
    ProductPhaseReal(l0, l1, r0, r1, s, t, Q);
    ScaledProduct(a, b, M1, E1, M2, E2, t, Q);
    var noise := ProductNoise(phase, PMul(a, b), PMul(M1, M2), Spread(M1, E1, M2, E2, Q), rho, t, Q);
    SpreadBound(M1, E1, M2, E2, n, t, Q, B);
    RoundingErrorBound(RoundingError(d.0, t, Q), RoundingError(d.1, t, Q), RoundingError(d.2, t, Q), s, Q);
    NoiseFits(noise, Spread(M1, E1, M2, E2, Q), rho, n, t, Q, B);
    DecodedIs(x, phase, PMul(M1, M2), noise, qs, t);
    PCongMulBoth(M1, m1, M2, m2, t);
    PModEq(PMul(M1, M2), PMul(m1, m2), t);
  }
}
