/** RNS gadget decomposition: base-B digits of every residue. */
module Gadget {
  import opened Integers
  import opened NumberTheory
  import opened Reduce
  import opened Results
  import opened Negacyclic
  import opened Rns
  import opened Crt
  import opened PolySums
  import opened RnsExtension
  import opened Rings

  datatype GadgetParams = GadgetParams(baseLog: nat, levels: nat) {
    /** What the constructor checks. */
    predicate Valid() {
      1 <= baseLog < 63 && levels > 0
    }

    /** Every digit's shift is below the width of a word, which the constructor does not check. */
    predicate ShiftsFit() {
      (levels - 1) * baseLog < 64
    }

    ghost function Base(): (b: int)
      ensures b >= 1
    {
      TwoTo(baseLog)
    }
  }

  method NewParams(baseLog: nat, levels: nat) returns (r: Result<GadgetParams>)
    ensures r == if 1 <= baseLog < 63 && levels > 0 then Ok(GadgetParams(baseLog, levels)) else Err(InvalidParameters)
    ensures r.Ok? ==> r.value.Valid()
  {
    if baseLog == 0 || baseLog >= 63 {
      return Err(InvalidParameters);
    }
    if levels == 0 {
      return Err(InvalidParameters);
    }
    return Ok(GadgetParams(baseLog, levels));
  }

  // ------------------------------------------------------------------ the digits

  /** Digit `level` of `v` in base `B`. */
  ghost function DigitOf(v: int, B: int, level: nat): (d: int)
    requires B >= 1
    ensures 0 <= d < B
  {
    PowPos(B, level);
    DivModId(v / Pow(B, level), B);
    v / Pow(B, level) % B
  }

  ghost function DigitPoly(a: Poly, B: int, level: nat): (d: Poly)
    requires B >= 1
    ensures |d| == |a| && Below(d, B) && forall i :: 0 <= i < |a| ==> d[i] == DigitOf(a[i], B, level)
  {
    seq(|a|, i requires 0 <= i < |a| => DigitOf(a[i], B, level))
  }

  /** The position of digit `t` in modulus-major order. */
  ghost predicate At(t: int, levels: nat, j: int, level: int) {
    t == j * levels + level && 0 <= level < levels
  }

  lemma AtUnique(t: nat, levels: nat, j: int, level: int)
    requires levels > 0 && At(t, levels, j, level)
    ensures t / levels == j && t % levels == level
  {
    DivModUnique(t, levels, j, level);
  }

  lemma AtBelow(t: nat, levels: nat, k: nat)
    requires levels > 0 && t < k * levels
    ensures At(t, levels, t / levels, t % levels) && 0 <= t / levels < k
  {
    DivModId(t, levels);
    if t / levels >= k {
      MulMono(k, t / levels, levels);
    }
    if t / levels < 0 {
      MulMono(t / levels, -1, levels);
    }
  }

  /** Digit `t` of the residues `x`: digit t mod levels of component t / levels. */
  ghost function GadgetDigit(x: seq<Poly>, B: int, levels: nat, t: nat): (d: Poly)
    requires B >= 1 && levels > 0 && t < |x| * levels
    ensures Below(d, B)
  {
    AtBelow(t, levels, |x|);
    DigitPoly(x[t / levels], B, t % levels)
  }

  ghost function GadgetDigits(x: seq<Poly>, n: nat, B: int, levels: nat): (ds: seq<Poly>)
    requires B >= 1 && levels > 0 && Shape(x, n, |x|)
    ensures |ds| == |x| * levels && Uniform(ds, n)
    ensures forall t :: 0 <= t < |ds| ==> ds[t] == GadgetDigit(x, B, levels, t)
  {
    assert forall t :: 0 <= t < |x| * levels ==> |GadgetDigit(x, B, levels, t)| == n by {
      forall t | 0 <= t < |x| * levels ensures |GadgetDigit(x, B, levels, t)| == n {
        AtBelow(t, levels, |x|);
      }
    }
    seq(|x| * levels, t requires 0 <= t < |x| * levels => GadgetDigit(x, B, levels, t))
  }

  /** The weight of digit `t`: B^level G_j. */
  ghost function GadgetWeight(qs: seq<int>, B: int, levels: nat, t: nat): int
    requires Moduli(qs) && levels > 0 && t < |qs| * levels
  {
    AtBelow(t, levels, |qs|);
    Pow(B, t % levels) * LiftConstant(qs, t / levels)
  }

  ghost function GadgetWeights(qs: seq<int>, B: int, levels: nat): (gs: seq<int>)
    requires Moduli(qs) && levels > 0
    ensures |gs| == |qs| * levels && forall t :: 0 <= t < |gs| ==> gs[t] == GadgetWeight(qs, B, levels, t)
  {
    seq(|qs| * levels, t requires 0 <= t < |qs| * levels => GadgetWeight(qs, B, levels, t))
  }

  // ------------------------------------------------- shifts as the machine makes them

  /** A shift by `level * baseLog` bits in a word of `width` bits: without overflow checks, only the remainder of the
      amount counts (with them, a shift of `width` bits or more stops the program). */
  function ShiftAmount(params: GadgetParams, level: nat, width: nat): (s: nat)
    requires width > 0
    ensures s < width
  {
    DivModId(level * params.baseLog, width);
    level * params.baseLog % width
  }

  /** The digit the code cuts out of a word. */
  ghost function CodeDigit(v: int, params: GadgetParams, level: nat): (d: int)
    ensures 0 <= d < params.Base()
  {
    DivModId(v / TwoTo(ShiftAmount(params, level, 64)), params.Base());
    v / TwoTo(ShiftAmount(params, level, 64)) % params.Base()
  }

  ghost function CodeDigitPoly(a: Poly, params: GadgetParams, level: nat): (d: Poly)
    ensures |d| == |a| && Below(d, params.Base()) && forall i :: 0 <= i < |a| ==> d[i] == CodeDigit(a[i], params, level)
  {
    seq(|a|, i requires 0 <= i < |a| => CodeDigit(a[i], params, level))
  }

  /** The digits of the residues `x`, in modulus-major order. */
  ghost function CodeDigits(x: seq<Poly>, n: nat, params: GadgetParams): (ds: seq<Poly>)
    requires params.Valid() && Shape(x, n, |x|)
    ensures |ds| == |x| * params.levels && Uniform(ds, n)
    ensures forall t :: 0 <= t < |ds| ==>
              At(t, params.levels, t / params.levels, t % params.levels) && 0 <= t / params.levels < |x|
              && ds[t] == CodeDigitPoly(x[t / params.levels], params, t % params.levels)
  {
    forall t | 0 <= t < |x| * params.levels
      ensures At(t, params.levels, t / params.levels, t % params.levels) && 0 <= t / params.levels < |x|
    {
      AtBelow(t, params.levels, |x|);
    }
    seq(|x| * params.levels, t requires 0 <= t < |x| * params.levels =>
        CodeDigitPoly(x[t / params.levels], params, t % params.levels))
  }

  /** The weight of digit `t` as the code computes it: 2^shift in 128 bits, times G_j. */
  ghost function CodeWeight(qs: seq<int>, params: GadgetParams, t: nat): int
    requires Moduli(qs) && params.Valid() && t < |qs| * params.levels
  {
    AtBelow(t, params.levels, |qs|);
    TwoTo(ShiftAmount(params, t % params.levels, 128)) * LiftConstant(qs, t / params.levels)
  }

  ghost function CodeWeights(qs: seq<int>, params: GadgetParams): (gs: seq<int>)
    requires Moduli(qs) && params.Valid()
    ensures |gs| == |qs| * params.levels && forall t :: 0 <= t < |gs| ==> gs[t] == CodeWeight(qs, params, t)
  {
    seq(|qs| * params.levels, t requires 0 <= t < |qs| * params.levels => CodeWeight(qs, params, t))
  }

  lemma ShiftExact(params: GadgetParams, level: nat, width: nat)
    requires params.Valid() && level < params.levels && (params.levels - 1) * params.baseLog < width
    ensures TwoTo(ShiftAmount(params, level, width)) == Pow(params.Base(), level)
  {
    MulMono(level, params.levels - 1, params.baseLog);
    MulMono(0, level, params.baseLog);
    SmallMod(level * params.baseLog, width);
    ShiftIsPower(level, params.baseLog);
  }

  /** While the shifts fit, the code's digits are the base-B digits of the residues. */
  lemma DigitsMeet(x: seq<Poly>, n: nat, params: GadgetParams)
    requires params.Valid() && params.ShiftsFit() && Shape(x, n, |x|)
    ensures CodeDigits(x, n, params) == GadgetDigits(x, n, params.Base(), params.levels)
  {
    hide TwoTo, Pow;
    var ds, gs := CodeDigits(x, n, params), GadgetDigits(x, n, params.Base(), params.levels);
    forall t | 0 <= t < |ds| ensures ds[t] == gs[t] {
      AtBelow(t, params.levels, |x|);
      ShiftExact(params, t % params.levels, 64);
      var a := x[t / params.levels];
      forall i | 0 <= i < |a| ensures ds[t][i] == gs[t][i] {
        assert ds[t][i] == CodeDigit(a[i], params, t % params.levels);
        assert gs[t][i] == DigitOf(a[i], params.Base(), t % params.levels);
      }
    }
  }

  /** While the shifts fit 128 bits, the code's weights are B^level G_j. */
  lemma WeightsMeet(qs: seq<int>, params: GadgetParams)
    requires Moduli(qs) && params.Valid() && (params.levels - 1) * params.baseLog < 128
    ensures CodeWeights(qs, params) == GadgetWeights(qs, params.Base(), params.levels)
  {
    hide TwoTo, Pow, LiftConstant;
    var cs, gs := CodeWeights(qs, params), GadgetWeights(qs, params.Base(), params.levels);
    forall t | 0 <= t < |cs| ensures cs[t] == gs[t] {
      AtBelow(t, params.levels, |qs|);
      ShiftExact(params, t % params.levels, 128);
    }
  }

  /** The digits of this word are its base-B digits. */
  ghost predicate TrueDigits(v: u64, params: GadgetParams) {
    forall level :: 0 <= level < params.levels ==> CodeDigit(v, params, level) == DigitOf(v, params.Base(), level)
  }

  /** The digits of every word are its base-B digits exactly when the last shift is below 64. */
  lemma TrueDigitsIff(params: GadgetParams)
    requires params.Valid()
    ensures (forall v: u64 :: TrueDigits(v, params)) <==> params.ShiftsFit()
  {
    hide TwoTo, Pow;
    if params.ShiftsFit() {
      forall v: u64 ensures TrueDigits(v, params) {
        forall level | 0 <= level < params.levels
          ensures CodeDigit(v, params, level) == DigitOf(v, params.Base(), level)
        {
          ShiftExact(params, level, 64);
        }
      }
    } else {
      var v := LowBit(params, params.levels - 1);
      assert !TrueDigits(v, params);
    }
  }

  /** A shift of 64 or more reads a low bit again, where the digit is 0. */
  lemma LowBit(params: GadgetParams, level: nat) returns (v: u64)
    requires params.Valid() && level * params.baseLog >= 64
    ensures v == TwoTo(ShiftAmount(params, level, 64))
    ensures CodeDigit(v, params, level) == 1 && DigitOf(v, params.Base(), level) == 0
  {
    var s := ShiftAmount(params, level, 64);
    PowerBelow(s, 64);
    TwoTo64();
    v := TwoTo(s);
    DivModUnique(v, TwoTo(s), 1, 0);
    PowerBelow(0, params.baseLog);
    SmallMod(1, params.Base());
    ShiftIsPower(level, params.baseLog);
    PowerBelow(s, level * params.baseLog);
    DivModUnique(v, Pow(params.Base(), level), 0, v);
    SmallMod(0, params.Base());
  }

  lemma PowerBelow(j: nat, k: nat)
    requires j < k
    ensures TwoTo(j) < TwoTo(k) && TwoTo(0) == 1
  {
    TwoToAdd(j, k - j);
    TwoToStep(k - j - 1);
    MulMono(2, TwoTo(k - j), TwoTo(j));
  }

  /** The constructor accepts base_log 62 with 3 levels, and digit 2 of 2^60 comes out as 1. */
  lemma WideShiftAccepted()
    ensures GadgetParams(62, 3).Valid() && !GadgetParams(62, 3).ShiftsFit()
    ensures CodeDigit(TwoTo(60), GadgetParams(62, 3), 2) == 1 && DigitOf(TwoTo(60), TwoTo(62), 2) == 0
  {
    hide TwoTo, Pow;
    var params := GadgetParams(62, 3);
    assert ShiftAmount(params, 2, 64) == 60;
    var v := LowBit(params, 2);
  }

  // --------------------------------------------------------- digits recompose

  /** One more digit: v mod B^(l+1) is v mod B^l plus B^l times digit l. */
  lemma NextDigit(v: int, B: int, l: nat)
    requires B >= 1
    ensures Pow(B, l) >= 1 && Pow(B, l + 1) >= 1
    ensures v % Pow(B, l + 1) == v % Pow(B, l) + Pow(B, l) * DigitOf(v, B, l)
  {
    var p := Pow(B, l);
    PowPos(B, l);
    PowPos(B, l + 1);
    DivModId(v, p);
    DivModId(v / p, B);
    var d, h := v / p % B, v / p / B;
    DigitSplit(v, p, B, h, d, v % p);
    DivModUnique(v, B * p, h, v % p + p * d);
  }

  lemma DigitSplit(v: int, p: int, B: int, h: int, d: int, r: int)
    requires v == (h * B + d) * p + r && 0 <= d < B && 0 <= r < p
    ensures v == h * (B * p) + (r + p * d) && 0 <= r + p * d < B * p
  {
    assert (h * B + d) * p == h * (B * p) + p * d;
    MulMono(d, B - 1, p);
    MulMono(0, d, p);
    assert (B - 1) * p == B * p - p && d * p == p * d;
  }

  lemma WeightedNext(n: nat, gs: seq<int>, ds: seq<Poly>, t: nat)
    requires |gs| == |ds| && Uniform(ds, n) && t < |ds|
    ensures Weighted(n, gs[..t + 1], ds[..t + 1]) == PAdd(Weighted(n, gs[..t], ds[..t]), PScale(gs[t], ds[t]))
  {
    assert gs[..t + 1][..t] == gs[..t] && ds[..t + 1][..t] == ds[..t];
  }

  /** The weighted sum of the first `t` digits of X. */
  ghost function GadgetPart(X: Poly, qs: seq<int>, B: int, levels: nat, t: nat): (r: Poly)
    requires Moduli(qs) && B >= 1 && levels > 0 && t <= |qs| * levels
    ensures |r| == |X|
  {
    Weighted(|X|, GadgetWeights(qs, B, levels)[..t], GadgetDigits(Residues(X, qs), |X|, B, levels)[..t])
  }

  /** Sum of G_c ((x mod q_c) mod p) over the first `k` moduli. */
  ghost function TruncatedSum(x: int, qs: seq<int>, p: int, k: nat): int
    requires Moduli(qs) && p >= 1 && k <= |qs|
  {
    if k == 0 then 0 else TruncatedSum(x, qs, p, k - 1) + LiftConstant(qs, k - 1) * (x % qs[k - 1] % p)
  }

  /** Coefficient `i` of the weighted digits before position (j, l). */
  lemma {:induction false} GadgetPrefix(X: Poly, qs: seq<int>, B: int, levels: nat, j: nat, l: nat, i: nat)
    requires Moduli(qs) && B >= 1 && levels > 0 && j < |qs| && l <= levels && i < |X|
    ensures Pow(B, l) >= 1 && Pow(B, levels) >= 1 && 0 <= j * levels + l <= |qs| * levels
    ensures GadgetPart(X, qs, B, levels, j * levels + l)[i]
         == TruncatedSum(X[i], qs, Pow(B, levels), j) + LiftConstant(qs, j) * (X[i] % qs[j] % Pow(B, l))
    decreases j, l
  {
    hide GadgetPart, LiftConstant, DigitOf;
    PowPos(B, l);
    PowPos(B, levels);
    PrefixFits(j, levels, l, |qs|);
    if l > 0 {
      GadgetPrefix(X, qs, B, levels, j, l - 1, i);
      GadgetTerm(X, qs, B, levels, j, l - 1, i);
      NextDigit(X[i] % qs[j], B, l - 1);
      DistributeDigit(LiftConstant(qs, j), X[i] % qs[j] % Pow(B, l - 1), Pow(B, l - 1),
                      DigitOf(X[i] % qs[j], B, l - 1));
    } else {
      DivModUnique(X[i] % qs[j], 1, X[i] % qs[j], 0);
      if j > 0 {
        GadgetPrefix(X, qs, B, levels, j - 1, levels, i);
        assert (j - 1) * levels + levels == j * levels;
      } else {
        GadgetEmpty(X, qs, B, levels, i);
      }
    }
  }

  lemma ResidueBelow(x: int, q: int, p: int)
    requires 0 < q <= p
    ensures x % q % p == x % q
  {
    DivModId(x, q);
    SmallMod(x % q, p);
  }

  lemma GadgetEmpty(X: Poly, qs: seq<int>, B: int, levels: nat, i: nat)
    requires Moduli(qs) && B >= 1 && levels > 0 && i < |X|
    ensures 0 <= |qs| * levels && GadgetPart(X, qs, B, levels, 0)[i] == 0
  {
    MulMono(0, |qs|, levels);
  }

  lemma PrefixFits(j: nat, levels: nat, l: nat, k: nat)
    requires j < k && l <= levels
    ensures 0 <= j * levels + l <= k * levels
    ensures l < levels ==> j * levels + l < k * levels
  {
    MulMono(j + 1, k, levels);
    assert (j + 1) * levels == j * levels + levels;
    MulMono(0, j, levels);
  }

  lemma DistributeDigit(g: int, r: int, p: int, d: int)
    ensures g * r + p * g * d == g * (r + p * d)
  {
    assert p * g * d == g * (p * d);
  }

  /** Adding digit (j, l) to the sum. */
  lemma GadgetTerm(X: Poly, qs: seq<int>, B: int, levels: nat, j: nat, l: nat, i: nat)
    requires Moduli(qs) && B >= 1 && levels > 0 && j < |qs| && l < levels && i < |X|
    requires 0 <= j * levels + l < |qs| * levels
    ensures GadgetPart(X, qs, B, levels, j * levels + l + 1)[i]
         == GadgetPart(X, qs, B, levels, j * levels + l)[i]
            + Pow(B, l) * LiftConstant(qs, j) * DigitOf(X[i] % qs[j], B, l)
  {
    hide LiftConstant, Weighted, DigitOf;
    var t := j * levels + l;
    AtUnique(t, levels, j, l);
    WeightedNext(|X|, GadgetWeights(qs, B, levels), GadgetDigits(Residues(X, qs), |X|, B, levels), t);
  }

  /** All the weighted digits of X. */
  ghost function GadgetTotal(X: Poly, qs: seq<int>, B: int, levels: nat): (r: Poly)
    requires Moduli(qs) && B >= 1 && levels > 0
    ensures |r| == |X|
  {
    Weighted(|X|, GadgetWeights(qs, B, levels), GadgetDigits(Residues(X, qs), |X|, B, levels))
  }

  lemma GadgetAll(X: Poly, qs: seq<int>, B: int, levels: nat)
    requires Moduli(qs) && B >= 1 && levels > 0
    ensures GadgetPart(X, qs, B, levels, |qs| * levels) == GadgetTotal(X, qs, B, levels)
  {
    var gs, ds := GadgetWeights(qs, B, levels), GadgetDigits(Residues(X, qs), |X|, B, levels);
    assert gs[..|qs| * levels] == gs && ds[..|qs| * levels] == ds;
  }

  /** The truncated sum keeps, of each residue, what is below p. */
  lemma {:induction false} TruncatedResidue(x: int, qs: seq<int>, p: int, k: nat, i: int)
    requires PrimeBasis(qs) && Moduli(qs) && p >= 1 && k <= |qs| && 0 <= i < |qs|
    ensures Cong(TruncatedSum(x, qs, p, k), if i < k then x % qs[i] % p else 0, qs[i])
  {
    if k == 0 {
      CongRefl(0, qs[i]);
    } else {
      hide LiftConstant, Cong, IsPrime;
      TruncatedResidue(x, qs, p, k - 1, i);
      LiftConstantResidue(qs, k - 1, i);
      ScaledResidue(LiftConstant(qs, k - 1), x % qs[k - 1] % p, k - 1 == i, qs[i]);
      CongAdd(TruncatedSum(x, qs, p, k - 1), if i < k - 1 then x % qs[i] % p else 0,
              LiftConstant(qs, k - 1) * (x % qs[k - 1] % p), if k - 1 == i then x % qs[k - 1] % p else 0, qs[i]);
    }
  }

  lemma ScaledResidue(G: int, d: int, own: bool, q: int)
    requires Cong(G, if own then 1 else 0, q)
    ensures Cong(G * d, if own then d else 0, q)
  {
    CongRefl(d, q);
    CongMul(G, if own then 1 else 0, d, d, q);
  }

  /** Component by component, recomposing the digits of X gives each residue modulo B^levels. */
  lemma GadgetTruncates(X: Poly, qs: seq<int>, B: int, levels: nat, i: nat, c: nat)
    requires PrimeBasis(qs) && Moduli(qs) && B >= 1 && levels > 0 && i < |X| && c < |qs|
    ensures Pow(B, levels) >= 1
    ensures GadgetTotal(X, qs, B, levels)[i] % qs[c] == X[i] % qs[c] % Pow(B, levels)
  {
    hide GadgetTotal, LiftConstant, TruncatedSum, Cong, IsPrime;
    PowPos(B, levels);
    GadgetValue(X, qs, B, levels, i);
    TruncatedResidue(X[i], qs, Pow(B, levels), |qs|, c);
    CongSym(GadgetTotal(X, qs, B, levels)[i], X[i] % qs[c] % Pow(B, levels), qs[c]);
    DivModId(X[i], qs[c]);
    TruncationSmall(X[i] % qs[c], Pow(B, levels));
    ModIs(GadgetTotal(X, qs, B, levels)[i], X[i] % qs[c] % Pow(B, levels), qs[c]);
  }

  lemma TruncationSmall(r: int, p: int)
    requires r >= 0 && p >= 1
    ensures 0 <= r % p <= r
  {
    DivModId(r, p);
    if r < p {
      SmallMod(r, p);
    }
  }

  /** The weighted digits of x sum to x modulo Q. */
  lemma GadgetRecomposes(X: Poly, qs: seq<int>, B: int, levels: nat)
    requires PrimeBasis(qs) && Moduli(qs) && B >= 1 && levels > 0
    requires forall c :: 0 <= c < |qs| ==> qs[c] <= Pow(B, levels)
    ensures PCong(GadgetTotal(X, qs, B, levels), X, Product(qs))
  {
    hide GadgetTotal, Cong, Product, IsPrime;
    forall i | 0 <= i < |X| ensures Cong(GadgetTotal(X, qs, B, levels)[i], X[i], Product(qs)) {
      forall c | 0 <= c < |qs| ensures Cong(GadgetTotal(X, qs, B, levels)[i], X[i], qs[c]) {
        GadgetTruncates(X, qs, B, levels, i, c);
        ResidueBelow(X[i], qs[c], Pow(B, levels));
        CongIffMod(GadgetTotal(X, qs, B, levels)[i], X[i], qs[c]);
      }
      CrtUnique(qs, GadgetTotal(X, qs, B, levels)[i], X[i]);
    }
  }

  /** Coefficient `i` of all the weighted digits. */
  lemma GadgetValue(X: Poly, qs: seq<int>, B: int, levels: nat, i: nat)
    requires Moduli(qs) && |qs| > 0 && B >= 1 && levels > 0 && i < |X|
    ensures Pow(B, levels) >= 1
    ensures GadgetTotal(X, qs, B, levels)[i] == TruncatedSum(X[i], qs, Pow(B, levels), |qs|)
  {
    hide GadgetPart, GadgetTotal, LiftConstant;
    var k := |qs| - 1;
    assert k * levels + levels == |qs| * levels;
    GadgetPrefix(X, qs, B, levels, k, levels, i);
    GadgetAll(X, qs, B, levels);
  }

  // -------------------------------------------------------------------- decompose

  /** `coeff >> shift & (2^baseLog - 1)`. */
  function SliceBits(coeff: u64, shift: nat, baseLog: nat): (d: u64)
    requires shift < 64
    ensures d == coeff / TwoTo(shift) % TwoTo(baseLog)
  {
    QuotientNonneg(coeff, TwoTo(shift));
    DivModId(coeff / TwoTo(shift), TwoTo(baseLog));
    SliceFits(coeff / TwoTo(shift), coeff, TwoTo(baseLog));
    coeff / TwoTo(shift) % TwoTo(baseLog)
  }

  lemma QuotientNonneg(x: int, d: int)
    requires x >= 0 && d >= 1
    ensures 0 <= x / d <= x
  {
    DivModId(x, d);
    if x / d < 0 {
      MulMono(x / d, -1, d);
    }
    MulMono(1, d, if x / d < 0 then 0 else x / d);
  }

  lemma SliceFits(v: int, coeff: int, B: int)
    requires 0 <= v <= coeff && B >= 1
    ensures 0 <= v % B <= coeff
  {
    DivModId(v, B);
    if v < B {
      SmallMod(v, B);
    }
  }

  lemma ShiftIsPower(level: nat, baseLog: nat)
    ensures level * baseLog >= 0 && TwoTo(level * baseLog) == Pow(TwoTo(baseLog), level)
  {
    IntMulComm(level, baseLog);
    PowMul(2, baseLog, level);
  }

  /** One digit of one component, embedded in every modulus. */
  method EmbedDigit(source: seq<u64>, params: GadgetParams, level: nat, moduli: seq<Modulus>) returns (digit: RnsPoly)
    requires params.Valid() && level < params.levels
    ensures digit == Residues(CodeDigitPoly(source, params, level), moduli)
  {
    hide PMod, TwoTo;
    ghost var D := CodeDigitPoly(source, params, level);
    var shift := ShiftAmount(params, level, 64);
    digit := ZeroRows(|moduli|, |source|);
    ColumnsStart(digit, D, moduli);
    for i := 0 to |source|
      invariant Shape(digit, |source|, |moduli|) && ColumnsDone(digit, D, moduli, i)
    {
      var value := SliceBits(source[i], shift, params.baseLog);
      var rs: seq<u64> := [];
      for j := 0 to |moduli|
        invariant |rs| == j && forall k :: 0 <= k < j ==> rs[k] == D[i] % moduli[k]
      {
        rs := rs + [EuclideanRemainder(value, moduli[j])];
      }
      ColumnStep(digit, D, moduli, i, rs);
      digit := SetColumn(digit, i, rs);
    }
    ColumnsAll(digit, D, moduli);
  }

  method Decompose(poly: RnsPoly, params: GadgetParams, moduli: seq<Modulus>) returns (r: Result<seq<RnsPoly>>)
    requires Rectangular(poly) && params.Valid()
    ensures r.Ok? <==> |poly| == |moduli|
    ensures r.Ok? ==>
              var ds := CodeDigits(poly, Degree(poly), params);
              |r.value| == |ds| && forall t :: 0 <= t < |ds| ==> r.value[t] == Residues(ds[t], moduli)
    ensures r.Err? ==> r.error == DimensionMismatch
  {
    hide PMod, TwoTo, Residues, CodeDigitPoly;
    if |poly| != |moduli| {
      return Err(DimensionMismatch);
    }
    ghost var ds := CodeDigits(poly, Degree(poly), params);
    var digits: seq<RnsPoly> := [];
    for j := 0 to |poly|
      invariant |digits| == j * params.levels <= |ds|
      invariant forall t :: 0 <= t < |digits| ==> digits[t] == Residues(ds[t], moduli)
    {
      for level := 0 to params.levels
        invariant |digits| == j * params.levels + level <= |ds|
        invariant forall t :: 0 <= t < |digits| ==> digits[t] == Residues(ds[t], moduli)
      {
        PrefixFits(j, params.levels, level, |poly|);
        AtUnique(j * params.levels + level, params.levels, j, level);
        var digit := EmbedDigit(poly[j], params, level, moduli);
        digits := digits + [digit];
      }
      assert (j + 1) * params.levels == j * params.levels + params.levels;
      PrefixFits(j, params.levels, params.levels, |poly|);
    }
    return Ok(digits);
  }

  // -------------------------------------------------------------------- recompose

  /** The scale of a digit in one component: (2^shift mod q) lift mod q. */
  method DigitScale(lift: u64, shift: nat, q: Modulus, ghost G: int) returns (scale: u64)
    requires lift == G % q
    ensures scale == TwoTo(shift) * G % q && scale < q
  {
    hide TwoTo;
    DivModId(TwoTo(shift), q);
    var weight: u64 := TwoTo(shift) % q;
    scale := MulMod(weight, lift, q);
    ModCong(TwoTo(shift), q);
    ModCong(G, q);
    CongMul(weight, TwoTo(shift), lift, G, q);
    ModEq(weight * lift, TwoTo(shift) * G, q);
  }

  /** The scales of digit (index, level) in every component. */
  method DigitScales(lift: seq<u64>, params: GadgetParams, level: nat, moduli: seq<Modulus>, ghost index: nat)
    returns (scales: seq<u64>)
    requires params.Valid() && |lift| == |moduli| && index < |moduli| && level < params.levels
    requires forall k :: 0 <= k < |moduli| ==> lift[k] == LiftConstant(moduli, index) % moduli[k]
    ensures 0 <= index * params.levels + level < |moduli| * params.levels
    ensures |scales| == |moduli| && forall k :: 0 <= k < |moduli| ==>
              scales[k] == CodeWeight(moduli, params, index * params.levels + level) % moduli[k]
  {
    hide LiftConstant, TwoTo;
    PrefixFits(index, params.levels, level, |moduli|);
    ghost var t := index * params.levels + level;
    AtUnique(t, params.levels, index, level);
    scales := [];
    for k := 0 to |moduli|
      invariant |scales| == k && forall c :: 0 <= c < k ==>
                  scales[c] == CodeWeight(moduli, params, t) % moduli[c]
    {
      var scale := DigitScale(lift[k], ShiftAmount(params, level, 128), moduli[k], LiftConstant(moduli, index));
      scales := scales + [scale];
    }
  }

  lemma AddScaled(acc: int, x: int, d: int, y: int, g: int, s: int, term: int, sum: int, q: int)
    requires q > 0 && acc == x % q && d == y % q && s == g % q
    requires Cong(term, d * s, q) && 0 <= sum < q && Cong(sum, acc + term, q)
    ensures sum == (x + g * y) % q
  {
    hide Cong;
    ModCong(x, q);
    ModCong(y, q);
    ModCong(g, q);
    CongMul(d, y, s, g, q);
    CongTrans(term, d * s, y * g, q);
    CongAdd(acc, x, term, y * g, q);
    CongTrans(sum, acc + term, x + y * g, q);
    IntMulComm(y, g);
    ModIs(x + g * y, sum, q);
  }

  /** Adds one scaled digit to the accumulator, component by component. */
  method AddDigit(coeffs: RnsPoly, digit: RnsPoly, scales: seq<u64>, moduli: seq<Modulus>,
                  ghost x: Poly, ghost y: Poly, ghost g: int) returns (next: RnsPoly)
    requires |x| == |y| && coeffs == Residues(x, moduli) && digit == Residues(y, moduli)
    requires |scales| == |moduli| && forall k :: 0 <= k < |moduli| ==> scales[k] == g % moduli[k]
    ensures next == Residues(PAdd(x, PScale(g, y)), moduli)
  {
    hide Cong;
    next := coeffs;
    ghost var z := PAdd(x, PScale(g, y));
    for j := 0 to |moduli|
      invariant |next| == |moduli|
      invariant forall k :: 0 <= k < j ==> next[k] == PMod(z, moduli[k])
      invariant forall k :: j <= k < |moduli| ==> next[k] == coeffs[k]
    {
      var q := moduli[j];
      var row: seq<u64> := [];
      for i := 0 to |digit[j]|
        invariant |row| == i && forall c :: 0 <= c < i ==> row[c] == PMod(z, q)[c]
      {
        var term := MulMod(digit[j][i], scales[j], q);
        var sum := AddMod(coeffs[j][i], term, q);
        AddScaled(coeffs[j][i], x[i], digit[j][i], y[i], g, scales[j], term, sum, q);
        row := row + [sum];
      }
      assert row == PMod(z, q);
      next := next[j := row];
    }
    assert next == Residues(z, moduli);
  }

  /** The weighted sum of the digits. */
  method Recompose(digits: seq<RnsPoly>, params: GadgetParams, modulusCount: nat, moduli: seq<Modulus>,
                   ghost n: nat, ghost ds: seq<Poly>) returns (r: Result<RnsPoly>)
    requires params.Valid() && n > 0 && Uniform(ds, n)
    requires |moduli| == modulusCount > 0 ==> PrimeBasis(moduli)
    requires |ds| == |digits| && forall t :: 0 <= t < |ds| ==> digits[t] == Residues(ds[t], moduli)
    ensures r.Ok? <==> |moduli| == modulusCount && |digits| == modulusCount * params.levels && |digits| > 0
    ensures r.Ok? ==> r.value == Residues(Weighted(n, CodeWeights(moduli, params), ds), moduli)
    ensures r.Err? ==> r.error == if |moduli| != modulusCount then DimensionMismatch else InvalidParameters
  {
    hide PMod, TwoTo, Residues, LiftConstant, Weighted, IsPrime, Cong, CodeWeight;
    if |moduli| != modulusCount {
      return Err(DimensionMismatch);
    }
    if |digits| != modulusCount * params.levels {
      return Err(InvalidParameters);
    }
    if |digits| == 0 {
      return Err(InvalidParameters);
    }
    assert modulusCount > 0;
    ghost var gs := CodeWeights(moduli, params);
    DigitDegree(digits[0], ds[0], n, moduli);
    var degree := Degree(digits[0]);
    var coeffs := ZeroRows(|moduli|, degree);
    ZeroRowsResidues(coeffs, degree, moduli);
    EmptyWeightedPoly(n, gs, ds);
    for index := 0 to modulusCount
      invariant 0 <= index * params.levels <= |ds|
      invariant coeffs == Residues(Weighted(n, gs[..index * params.levels], ds[..index * params.levels]), moduli)
    {
      var lift := CrtLiftConstant(moduli, index, moduli);
      coeffs := RecomposeBlock(coeffs, digits, params, index, lift.value, moduli, n, ds);
      assert (index + 1) * params.levels == index * params.levels + params.levels;
      PrefixFits(index, params.levels, params.levels, modulusCount);
    }
    assert gs[..|ds|] == gs && ds[..|ds|] == ds;
    ghost var w := Weighted(n, gs, ds);
    assert Rectangular(coeffs) by {
      ResiduesRectangular(coeffs, w, moduli);
    }
    r := FromCoeffs(coeffs);
  }

  lemma ResiduesRectangular(x: RnsPoly, a: Poly, qs: seq<int>)
    requires Moduli(qs) && |qs| > 0 && |a| > 0 && x == Residues(a, qs)
    ensures Rectangular(x)
  {}

  lemma DigitDegree(digit: RnsPoly, d: Poly, n: nat, qs: seq<int>)
    requires Moduli(qs) && |qs| > 0 && digit == Residues(d, qs) && |d| == n
    ensures Degree(digit) == n
  {}

  lemma ZeroRowsResidues(x: RnsPoly, n: nat, qs: seq<int>)
    requires Moduli(qs) && x == ZeroRows(|qs|, n)
    ensures x == Residues(PZero(n), qs)
  {
    forall j | 0 <= j < |qs| ensures x[j] == PMod(PZero(n), qs[j]) {
      SmallMod(0, qs[j]);
    }
  }

  lemma EmptyWeightedPoly(n: nat, gs: seq<int>, ds: seq<Poly>)
    requires |gs| == |ds| && Uniform(ds, n)
    ensures Weighted(n, gs[..0], ds[..0]) == PZero(n)
  {}

  /** The levels of one modulus. */
  method RecomposeBlock(start: RnsPoly, digits: seq<RnsPoly>, params: GadgetParams, index: nat, lift: seq<u64>,
                        moduli: seq<Modulus>, ghost n: nat, ghost ds: seq<Poly>) returns (coeffs: RnsPoly)
    requires params.Valid() && Uniform(ds, n) && |ds| == |digits| == |moduli| * params.levels && index < |moduli|
    requires forall t :: 0 <= t < |ds| ==> digits[t] == Residues(ds[t], moduli)
    requires |lift| == |moduli| && forall k :: 0 <= k < |moduli| ==> lift[k] == LiftConstant(moduli, index) % moduli[k]
    requires 0 <= index * params.levels <= |ds|
    requires start == Residues(Weighted(n, CodeWeights(moduli, params)[..index * params.levels],
                                        ds[..index * params.levels]), moduli)
    ensures 0 <= index * params.levels + params.levels <= |ds|
    ensures coeffs == Residues(Weighted(n,
                                        CodeWeights(moduli, params)[..index * params.levels + params.levels],
                                        ds[..index * params.levels + params.levels]), moduli)
  {
    hide PMod, TwoTo, Residues, LiftConstant, Weighted, CodeWeight;
    ghost var gs := CodeWeights(moduli, params);
    coeffs := start;
    PrefixFits(index, params.levels, params.levels, |moduli|);
    for level := 0 to params.levels
      invariant coeffs == Residues(Weighted(n, gs[..index * params.levels + level],
                                            ds[..index * params.levels + level]), moduli)
    {
      PrefixFits(index, params.levels, level, |moduli|);
      ghost var t := index * params.levels + level;
      var scales := DigitScales(lift, params, level, moduli, index);
      coeffs := AddDigit(coeffs, digits[index * params.levels + level], scales, moduli,
                         Weighted(n, gs[..t], ds[..t]), ds[t], gs[t]);
      WeightedNext(n, gs, ds, t);
    }
  }

  /** recompose of decompose gives back these residues. */
  ghost predicate RoundTrips(X: Poly, qs: seq<int>, B: int, levels: nat)
    requires Moduli(qs) && B >= 1 && levels > 0
  {
    Residues(GadgetTotal(X, qs, B, levels), qs) == Residues(X, qs)
  }

  /** recompose of decompose is the identity exactly when the levels cover every modulus. */
  lemma RecomposeDecompose(n: nat, qs: seq<int>, B: int, levels: nat)
    requires PrimeBasis(qs) && Moduli(qs) && B >= 1 && levels > 0 && n > 0
    ensures (forall X: Poly :: |X| == n ==> RoundTrips(X, qs, B, levels))
       <==> (forall c :: 0 <= c < |qs| ==> qs[c] <= Pow(B, levels))
  {
    hide GadgetTotal, Product, IsPrime, PCong, Residues;
    if forall c :: 0 <= c < |qs| ==> qs[c] <= Pow(B, levels) {
      forall X: Poly | |X| == n ensures RoundTrips(X, qs, B, levels) {
        GadgetRecomposes(X, qs, B, levels);
        ResiduesCong(GadgetTotal(X, qs, B, levels), X, qs);
      }
    } else {
      var c: int :| 0 <= c < |qs| && qs[c] > Pow(B, levels);
      TopPartLost(n, qs, B, levels, c);
    }
  }

  /** A residue q_c - 1 loses its top part when q_c is above B^levels. */
  lemma TopPartLost(n: nat, qs: seq<int>, B: int, levels: nat, c: nat)
    requires PrimeBasis(qs) && Moduli(qs) && B >= 1 && levels > 0 && n > 0 && c < |qs| && qs[c] > Pow(B, levels)
    ensures exists X: Poly :: |X| == n && !RoundTrips(X, qs, B, levels)
  {
    hide GadgetTotal, IsPrime, Product;
    var X: Poly := PZero(n)[0 := qs[c] - 1];
    SmallMod(qs[c] - 1, qs[c]);
    GadgetTruncates(X, qs, B, levels, 0, c);
    DivModId(qs[c] - 1, Pow(B, levels));
    var l, r := Residues(GadgetTotal(X, qs, B, levels), qs), Residues(X, qs);
    assert l[c][0] != r[c][0];
    assert !RoundTrips(X, qs, B, levels);
  }
}
