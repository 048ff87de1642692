/** BGV modulus switching of whole ciphertexts. */
module BgvModulusSwitch {
  import opened Integers
  import opened NumberTheory
  import opened Results
  import opened Negacyclic
  import opened Rns
  import opened Crt
  import opened PolySums
  import opened RnsRescale
  import opened Rings
  import opened Rlwe
  import opened Batching

  // ------------------------------------------------------------------ operations

  method SwitchNextReal(params: BgvParams, ct: Ciphertext) returns (r: Result<Ciphertext>)
    requires params.Valid() && PrimeBasis(params.ring.moduli)
    requires params.t % 2 == 1 ==> IsPrime(params.t)
    requires forall i :: 0 <= i < |ct| && params.ring.Fits(ct[i]) ==> Reduced(ct[i], params.ring.moduli)
    ensures r.Ok? <==> params.t % 2 == 1 && forall i :: 0 <= i < |ct| ==>
              params.ring.Fits(ct[i]) && |params.ring.moduli| > 1
    ensures r.Ok? ==>
              var qs, n := params.ring.moduli, params.ring.degree;
              && |r.value| == |ct|
              && forall i :: 0 <= i < |ct| ==>
                   r.value[i] == Residues(SwitchPoly(Lift(ct[i], n, qs), qs[|qs| - 1], params.t), qs[..|qs| - 1])
    ensures r.Err? ==> r.error == if params.t % 2 == 0 then InvalidModulus else DimensionMismatch
  {
    hide IsPrime, PMod, Lift, SwitchPoly, TwoTo;
    var ring := params.ring;
    if params.t % 2 == 0 {
      return Err(InvalidModulus);
    }
    ghost var qs, n := ring.moduli, ring.degree;
    var out: seq<RnsPoly> := [];
    for i := 0 to |ct|
      invariant |out| == i
      invariant forall k :: 0 <= k < i ==> ring.Fits(ct[k]) && |ring.moduli| > 1
      invariant forall k :: 0 <= k < i ==>
                  out[k] == Residues(SwitchPoly(Lift(ct[k], n, qs), qs[|qs| - 1], params.t), qs[..|qs| - 1])
    {
      if !ring.Fits(ct[i]) {
        return Err(DimensionMismatch);
      }
      var switched :- ModulusSwitchDown(ct[i], ring.moduli, params.t);
      out := out + [switched];
    }
    return Ok(out);
  }

  method NextParams(params: BgvParams) returns (r: Result<BgvParams>)
    requires params.Valid()
    ensures r.Ok? <==> |params.ring.moduli| > 1
    ensures r.Ok? ==>
              && r.value.Valid() && r.value.t == params.t && r.value.ring.degree == params.ring.degree
              && r.value.ring.moduli == params.ring.moduli[..|params.ring.moduli| - 1]
    ensures r.Err? ==> r.error == DimensionMismatch
  {
    var ring := params.ring;
    var nextRing :- Rings.New(ring.degree, ring.moduli[..|ring.moduli| - 1]);
    r := NewParams(nextRing, params.t);
  }

  /** Dropping the last component of a key gives the same secret over the smaller basis. */
  method SwitchSecretKey(sk: RnsPoly, ghost s: Poly, ghost qs: seq<Modulus>) returns (r: Result<RnsPoly>)
    requires |qs| > 0 && |s| > 0 && sk == Residues(s, qs)
    ensures r.Ok? <==> |sk| > 1
    ensures r.Ok? ==> r.value == Residues(s, qs[..|qs| - 1])
    ensures r.Err? ==> r.error == DimensionMismatch
  {
    hide PMod;
    r := DropLastModulus(sk);
    assert r.Ok? ==> r.value == Residues(s, qs[..|qs| - 1]);
  }

  // -------------------------------------------------------- what switching preserves

  /** The centered value the pair decrypts to. */
  ghost function Centered2(c0: Poly, c1: Poly, s: Poly, Q: int): (v: Poly)
    requires |c0| == |c1| == |s| && Q > 0
    ensures |v| == |s|
  {
    CenterPoly(PMod(Phase2(c0, c1, s), Q), Q)
  }

  /** How often the decrypted value wraps around Q. */
  ghost function Wraps(c0: Poly, c1: Poly, s: Poly, Q: int): (k: Poly)
    requires |c0| == |c1| == |s| && Q > 0
    ensures |k| == |s|
    ensures Phase2(c0, c1, s) == PAdd(Centered2(c0, c1, s, Q), PScale(Q, k))
  {
    CenterCong(PMod(Phase2(c0, c1, s), Q), Q);
    PModCong(Phase2(c0, c1, s), Q);
    PCongTrans(Centered2(c0, c1, s, Q), PMod(Phase2(c0, c1, s), Q), Phase2(c0, c1, s), Q);
    PCongSym(Centered2(c0, c1, s, Q), Phase2(c0, c1, s), Q);
    PQuot(Phase2(c0, c1, s), Centered2(c0, c1, s, Q), Q)
  }

  lemma CenterCong(a: Poly, Q: int)
    ensures PCong(CenterPoly(a, Q), a, Q)
  {
    hide Cong;
    forall i | 0 <= i < |a| ensures Cong(CenterPoly(a, Q)[i], a[i], Q) {
      CongBy(a[i] - Q, a[i], Q, -1);
      CongRefl(a[i], Q);
    }
  }

  /** The corrections of one component: q X' - X. */
  ghost function Corrections(a: Poly, q: int, t: int): (r: Poly)
    requires q > 0 && t > 0
    ensures |r| == |a| && PBound(r, q * t - 1)
    ensures PScale(q, SwitchPoly(a, q, t)) == PAdd(a, r)
  {
    hide SwitchValue;
    var r := seq(|a|, i requires 0 <= i < |a| => q * SwitchValue(a[i], q, t) - a[i]);
    assert PScale(q, SwitchPoly(a, q, t)) == PAdd(a, r);
    r
  }

  lemma SwitchPolyCong(a: Poly, q: int, t: int)
    requires q > 0 && t > 0
    ensures PCong(SwitchPoly(a, q, t), a, t)
  {
    hide SwitchValue, Cong;
  }

  /** The switched pair's value before reduction: X0' + X1' s - Q' k. */
  ghost function SwitchedValue(c0: Poly, c1: Poly, s: Poly, Q': int, q: int, t: int): (v: Poly)
    requires |c0| == |c1| == |s| && Q' > 0 && q > 0 && t > 0 && Q' * q > 0
    ensures |v| == |s|
  {
    PSub(Phase2(SwitchPoly(c0, q, t), SwitchPoly(c1, q, t), s), PScale(Q', Wraps(c0, c1, s, Q' * q)))
  }

  /** q v' = v + corr0 + corr1 s, exactly. */
  lemma SwitchedScaled(c0: Poly, c1: Poly, s: Poly, Q': int, q: int, t: int)
    requires |c0| == |c1| == |s| && Q' > 0 && q > 0 && t > 0 && Q' * q > 0
    ensures PScale(q, SwitchedValue(c0, c1, s, Q', q, t))
         == PAdd(Centered2(c0, c1, s, Q' * q), Phase2(Corrections(c0, q, t), Corrections(c1, q, t), s))
  {
    hide PMul, PAdd, PSub, PScale, SwitchPoly, Corrections, Centered2, Wraps;
    var x0, x1, k := SwitchPoly(c0, q, t), SwitchPoly(c1, q, t), Wraps(c0, c1, s, Q' * q);
    var r0, r1 := Corrections(c0, q, t), Corrections(c1, q, t);
    ScaleAdd(q, x0, PMul(x1, s));
    MulScaleLeft(q, x1, s);
    MulAddLeft(c1, r1, s);
    AddInterchange(c0, r0, PMul(c1, s), PMul(r1, s));
    CancelWraps(PAdd(x0, PMul(x1, s)), Centered2(c0, c1, s, Q' * q), PAdd(r0, PMul(r1, s)), k, q, Q');
  }

  lemma CancelWraps(x: Poly, v: Poly, r: Poly, k: Poly, q: int, Q': int)
    requires |x| == |v| == |r| == |k|
    requires PScale(q, x) == PAdd(PAdd(v, PScale(Q' * q, k)), r)
    ensures PScale(q, PSub(x, PScale(Q', k))) == PAdd(v, r)
  {
    var l, m := PScale(q, PSub(x, PScale(Q', k))), PAdd(v, r);
    var left, right := PScale(q, x), PAdd(PAdd(v, PScale(Q' * q, k)), r);
    forall i | 0 <= i < |x| ensures l[i] == m[i] {
      assert left[i] == right[i];
      CancelWrap(x[i], v[i], r[i], k[i], q, Q');
    }
  }

  lemma CancelWrap(x: int, v: int, r: int, k: int, q: int, Q': int)
    requires q * x == v + Q' * q * k + r
    ensures q * (x - Q' * k) == v + r
  {
    assert q * (x - Q' * k) == q * x - q * (Q' * k);
    assert q * (Q' * k) == Q' * q * k;
  }

  /** v' is congruent to v + Q' (q - 1) k modulo t. */
  lemma SwitchedModT(c0: Poly, c1: Poly, s: Poly, Q': int, q: int, t: int)
    requires |c0| == |c1| == |s| && Q' > 0 && q > 0 && t > 0 && Q' * q > 0
    ensures PCong(SwitchedValue(c0, c1, s, Q', q, t),
                  PAdd(Centered2(c0, c1, s, Q' * q), PScale(Q' * (q - 1), Wraps(c0, c1, s, Q' * q))), t)
  {
    hide PMul, PAdd, PSub, PScale, SwitchPoly, Centered2, Wraps, PCong;
    var x0, x1, k := SwitchPoly(c0, q, t), SwitchPoly(c1, q, t), Wraps(c0, c1, s, Q' * q);
    SwitchPolyCong(c0, q, t);
    SwitchPolyCong(c1, q, t);
    PCongMul(x1, c1, s, t);
    PCongAdd(x0, c0, PMul(x1, s), PMul(c1, s), t);
    SubtractWraps(PAdd(x0, PMul(x1, s)), Centered2(c0, c1, s, Q' * q), k, q, Q', t);
  }

  lemma SubtractWraps(x: Poly, v: Poly, k: Poly, q: int, Q': int, t: int)
    requires |x| == |v| == |k| && PCong(x, PAdd(v, PScale(Q' * q, k)), t)
    ensures PCong(PSub(x, PScale(Q', k)), PAdd(v, PScale(Q' * (q - 1), k)), t)
  {
    hide Cong;
    var w := PAdd(v, PScale(Q' * q, k));
    forall i | 0 <= i < |x|
      ensures Cong(PSub(x, PScale(Q', k))[i], PAdd(v, PScale(Q' * (q - 1), k))[i], t)
    {
      assert Cong(x[i], w[i], t);
      CongRefl(Q' * k[i], t);
      CongSub(x[i], w[i], Q' * k[i], Q' * k[i], t);
      WrapDifference(Q', q, k[i]);
    }
  }

  lemma WrapDifference(Q': int, q: int, k: int)
    ensures Q' * q * k - Q' * k == Q' * (q - 1) * k
  {
    assert Q' * (q - 1) == Q' * q - Q';
  }

  // ------------------------------------------------------------------ the theorem

  /** The noise after switching fits: 2 (V + q t (N + 1)) < Q. */
  ghost predicate SwitchFits(V: int, n: nat, Q: int, q: int, t: int) {
    2 * (V + q * t * (n + 1)) < Q
  }

  lemma SwitchedBound(c0: Poly, c1: Poly, s: Poly, Q': int, q: int, t: int, V: int)
    requires |c0| == |c1| == |s| && Q' > 0 && q > 0 && t > 0 && Q' * q > 0
    requires PBound(s, 1) && PBound(Centered2(c0, c1, s, Q' * q), V)
    ensures PBound(PScale(q, SwitchedValue(c0, c1, s, Q', q, t)), V + q * t * (|s| + 1) - 1)
  {
    hide PMul, PAdd, PScale, PBound, Corrections, Centered2, SwitchedValue;
    SwitchedScaled(c0, c1, s, Q', q, t);
    var r0, r1 := Corrections(c0, q, t), Corrections(c1, q, t);
    var n, b := |s|, q * t - 1;
    MulMono(1, q, t);
    MulBoundPoly(r1, s, b, 1);
    AddBound(r0, PMul(r1, s), b, n * (b * 1));
    AddBound(Centered2(c0, c1, s, Q' * q), Phase2(r0, r1, s), V, b + n * (b * 1));
    CorrectionTotal(q * t, n);
    PBoundWeaken(PScale(q, SwitchedValue(c0, c1, s, Q', q, t)), V + (b + n * (b * 1)), V + q * t * (n + 1) - 1);
  }

  lemma CorrectionTotal(qt: int, n: nat)
    ensures qt - 1 + n * ((qt - 1) * 1) <= qt * (n + 1) - 1
  {
    assert qt * (n + 1) == qt + n * qt && n * (qt - 1) == n * qt - n;
  }

  lemma PBoundWeaken(a: Poly, A: int, B: int)
    requires PBound(a, A) && A <= B
    ensures PBound(a, B)
  {}

  /** The switched value is the centered value the switched pair decrypts to. */
  lemma SwitchedIsCentered(c0: Poly, c1: Poly, s: Poly, Q': int, q: int, t: int, V: int)
    requires |c0| == |c1| == |s| && Q' > 0 && q > 0 && t > 0 && Q' * q > 0
    requires PBound(s, 1) && PBound(Centered2(c0, c1, s, Q' * q), V) && SwitchFits(V, |s|, Q' * q, q, t)
    ensures Centered2(SwitchPoly(c0, q, t), SwitchPoly(c1, q, t), s, Q') == SwitchedValue(c0, c1, s, Q', q, t)
  {
    hide PMul, Centered2, SwitchPoly, Wraps, PMod, CenterPoly, Cong;
    var v := SwitchedValue(c0, c1, s, Q', q, t);
    var d := Phase2(SwitchPoly(c0, q, t), SwitchPoly(c1, q, t), s);
    var k := Wraps(c0, c1, s, Q' * q);
    SwitchedBound(c0, c1, s, Q', q, t, V);
    assert d == PAdd(v, PScale(Q', k));
    PCongBy(d, v, Q', k);
    PModEq(d, v, Q');
    forall i | 0 <= i < |v| ensures -Q' < 2 * v[i] < Q' {
      assert PScale(q, v)[i] == q * v[i];
      BelowQuotient(v[i], q, Q');
    }
    CenterPolyOfSmall(v, Q');
    CenteredIs(d, SwitchPoly(c0, q, t), SwitchPoly(c1, q, t), s, Q');
  }

  lemma CenteredIs(d: Poly, c0: Poly, c1: Poly, s: Poly, Q: int)
    requires |c0| == |c1| == |s| && Q > 0 && d == Phase2(c0, c1, s)
    ensures Centered2(c0, c1, s, Q) == CenterPoly(PMod(d, Q), Q)
  {}

  lemma BelowQuotient(v: int, q: int, Q': int)
    requires q > 0 && -(Q' * q) < 2 * (q * v) < Q' * q
    ensures -Q' < 2 * v < Q'
  {
    assert 2 * (q * v) == 2 * v * q;
    if 2 * v >= Q' {
      MulMono(Q', 2 * v, q);
    } else if 2 * v <= -Q' {
      MulMono(Q', -(2 * v), q);
    }
  }

  /** For q = 1 modulo t: the message modulo t is kept and the noise shrinks by q, up to t (N + 1). */
  lemma ModulusSwitchCorrect(c0: Poly, c1: Poly, s: Poly, Q': int, q: int, t: int, V: int)
    requires |c0| == |c1| == |s| && Q' > 0 && q > 0 && t > 0 && Q' * q > 0
    requires PBound(s, 1) && PBound(Centered2(c0, c1, s, Q' * q), V) && 2 * (V + q * t * (|s| + 1)) < Q' * q
    requires Cong(q, 1, t)
    ensures var v' := Centered2(SwitchPoly(c0, q, t), SwitchPoly(c1, q, t), s, Q');
      && PCong(v', Centered2(c0, c1, s, Q' * q), t)
      && PBound(PScale(q, v'), V + q * t * (|s| + 1) - 1)
  {
    hide PMul, Centered2, SwitchPoly, Wraps, SwitchedValue, Cong, PScale, PAdd;
    SwitchedIsCentered(c0, c1, s, Q', q, t, V);
    SwitchedBound(c0, c1, s, Q', q, t, V);
    SwitchedModT(c0, c1, s, Q', q, t);
    var v, k := Centered2(c0, c1, s, Q' * q), Wraps(c0, c1, s, Q' * q);
    VanishingWraps(v, k, Q', q, t);
    PCongTrans(SwitchedValue(c0, c1, s, Q', q, t), PAdd(v, PScale(Q' * (q - 1), k)), v, t);
  }

  lemma VanishingWraps(v: Poly, k: Poly, Q': int, q: int, t: int)
    requires |v| == |k| && Cong(q, 1, t)
    ensures PCong(PAdd(v, PScale(Q' * (q - 1), k)), v, t)
  {
    var c := CongQuot(q, 1, t);
    forall i | 0 <= i < |v| ensures Cong(PAdd(v, PScale(Q' * (q - 1), k))[i], v[i], t) {
      assert Q' * (q - 1) * k[i] == Q' * c * k[i] * t by {
        assert q - 1 == c * t;
      }
      CongBy(v[i] + Q' * (q - 1) * k[i], v[i], t, Q' * c * k[i]);
    }
  }

  // --------------------------------------------------- the condition is necessary

  /** Switching keeps this ciphertext's message. */
  ghost predicate Keeps(c0: Poly, c1: Poly, s: Poly, n: nat, Q': int, q: int, t: int)
    requires Q' > 0 && q > 0 && t > 0 && Q' * q > 0
  {
    |c0| == |c1| == |s| == n && PBound(s, 1) && Below(c0, Q' * q) && Below(c1, Q' * q)
    && PBound(Centered2(c0, c1, s, Q' * q), 1) && SwitchFits(1, n, Q' * q, q, t)
    ==> PCong(Centered2(SwitchPoly(c0, q, t), SwitchPoly(c1, q, t), s, Q'), Centered2(c0, c1, s, Q' * q), t)
  }

  /** An encryption of -1 without mask: c0 = Q - 1, c1 = 0. */
  lemma MinusOneCiphertext(n: nat, Q: int, s: Poly)
    requires n > 0 && |s| == n && Q > 2
    ensures var c0, c1 := PZero(n)[0 := Q - 1], PZero(n);
      && Phase2(c0, c1, s) == c0 && Below(c0, Q) && Below(c1, Q)
      && Centered2(c0, c1, s, Q) == PZero(n)[0 := -1]
      && Wraps(c0, c1, s, Q)[0] == 1
  {
    hide PMul;
    var c0, c1 := PZero(n)[0 := Q - 1], PZero(n);
    MulZeroLeft(n, s);
    AddZero(c0);
    assert Phase2(c0, c1, s) == c0;
    var v := Centered2(c0, c1, s, Q);
    forall i | 0 <= i < n ensures v[i] == PZero(n)[0 := -1][i] {
      SmallMod(c0[i], Q);
    }
    var k := Wraps(c0, c1, s, Q);
    assert PAdd(v, PScale(Q, k))[0] == -1 + Q * k[0];
    OneWrap(Q, k[0]);
  }

  lemma OneWrap(Q: int, k: int)
    requires Q > 2 && Q - 1 == -1 + Q * k
    ensures k == 1
  {
    MulCancel(Q, 1, k);
  }

  /** Switching keeps every message exactly when the dropped prime is 1 modulo t. */
  lemma SwitchKeepsIff(n: nat, Q': int, q: int, t: int)
    requires n > 0 && Q' > 0 && q > 1 && IsPrime(t) && !Divides(t, Q') && Q' * q > 2
    requires 2 * (1 + q * t * (n + 1)) < Q' * q
    ensures (forall c0: Poly, c1: Poly, s: Poly :: Keeps(c0, c1, s, n, Q', q, t)) <==> Cong(q, 1, t)
  {
    if Cong(q, 1, t) {
      forall c0: Poly, c1: Poly, s: Poly ensures Keeps(c0, c1, s, n, Q', q, t) {
        KeepsForUnit(c0, c1, s, n, Q', q, t);
      }
    } else {
      LosesMinusOne(n, Q', q, t);
    }
  }

  lemma KeepsForUnit(c0: Poly, c1: Poly, s: Poly, n: nat, Q': int, q: int, t: int)
    requires Q' > 0 && q > 0 && t > 0 && Q' * q > 0 && Cong(q, 1, t)
    ensures Keeps(c0, c1, s, n, Q', q, t)
  {
    hide Centered2, SwitchPoly, Cong;
    if |c0| == |c1| == |s| == n && PBound(s, 1) && PBound(Centered2(c0, c1, s, Q' * q), 1) &&
        SwitchFits(1, n, Q' * q, q, t) {
      ModulusSwitchCorrect(c0, c1, s, Q', q, t, 1);
    }
  }

  lemma LosesMinusOne(n: nat, Q': int, q: int, t: int)
    requires n > 0 && Q' > 0 && q > 1 && IsPrime(t) && !Divides(t, Q') && Q' * q > 2 && SwitchFits(1, n, Q' * q, q, t)
    requires !Cong(q, 1, t)
    ensures exists c0: Poly, c1: Poly, s: Poly :: !Keeps(c0, c1, s, n, Q', q, t)
  {
    assert t > 0;
    hide SwitchPoly, SwitchedValue, SwitchFits, IsPrime, Wraps, Centered2, Cong;
    var Q := Q' * q;
    var c0, c1, s := PZero(n)[0 := Q - 1], PZero(n), PZero(n);
    MinusOneCiphertext(n, Q, s);
    SwitchedIsCentered(c0, c1, s, Q', q, t, 1);
    SwitchedModT(c0, c1, s, Q', q, t);
    var v', v, k := SwitchedValue(c0, c1, s, Q', q, t), Centered2(c0, c1, s, Q), Wraps(c0, c1, s, Q);
    var w := PAdd(v, PScale(Q' * (q - 1), k));
    assert Cong(v'[0], w[0], t) && w[0] == -1 + Q' * (q - 1);
    MinusOneLost(v'[0], Q', q, t);
    assert !Keeps(c0, c1, s, n, Q', q, t);
  }

  lemma MinusOneLost(x: int, Q': int, q: int, t: int)
    requires IsPrime(t) && !Divides(t, Q') && !Cong(q, 1, t) && Cong(x, -1 + Q' * (q - 1), t)
    ensures !Cong(x, -1, t)
  {
    if Cong(x, -1, t) {
      CongSym(x, -1 + Q' * (q - 1), t);
      CongTrans(-1 + Q' * (q - 1), x, -1, t);
      PrimeDivides(t, Q', q - 1);
    }
  }
}
