/** RGSW encryption and the external product, with its noise bound. */
module Rgsw {
  import opened Integers
  import opened NumberTheory
  import opened Results
  import opened Negacyclic
  import opened Rns
  import opened Crt
  import opened PolySums
  import opened RnsExtension
  import opened Rings
  import opened Rlwe
  import opened KeySwitchMath
  import opened KeySwitch
  import opened Gadget
  import Sums

  /** The two blocks of the gadget matrix. */
  datatype RgswCiphertext = RgswCiphertext(mBlock: seq<Ciphertext>, smBlock: seq<Ciphertext>)

  /** Encrypts B^i G_j m in the first block and B^i G_j m s in the second. */
  method Encrypt(ring: Ring, message: RnsPoly, secret: RnsPoly, params: GadgetParams,
                 as0: seq<RnsPoly>, es0: seq<RnsPoly>, as1: seq<RnsPoly>, es1: seq<RnsPoly>,
                 ghost m: Poly, ghost s: Poly,
                 ghost A0: seq<Poly>, ghost E0: seq<Poly>, ghost A1: seq<Poly>, ghost E1: seq<Poly>)
    returns (r: Result<RgswCiphertext>)
    requires ring.Sound() && PrimeBasis(ring.moduli) && params.Valid()
    requires |m| == |s| == ring.degree && secret == Residues(s, ring.moduli)
    requires ring.Fits(message) ==> message == Residues(m, ring.moduli)
    requires Samples(as0, A0, |ring.moduli| * params.levels, ring)
    requires Samples(es0, E0, |ring.moduli| * params.levels, ring)
    requires Samples(as1, A1, |ring.moduli| * params.levels, ring)
    requires Samples(es1, E1, |ring.moduli| * params.levels, ring)
    ensures r.Ok? <==> ring.Fits(message)
    ensures r.Ok? ==>
              var gs := CodeWeights(ring.moduli, params);
              && KeyRows(r.value.mBlock, RowBs(A0, E0, s, gs, m), A0, ring.degree, ring.moduli)
              && KeyRows(r.value.smBlock, RowBs(A1, E1, s, gs, PMul(s, m)), A1, ring.degree, ring.moduli)
    ensures r.Err? ==> r.error == DimensionMismatch
  {
    hide PMul, PMod, Residues, IsPrime, TwoTo, Ring.Sound, KeyRow, KeyRows, RowsSoFar, RowB, CodeWeights,
      LiftConstant, Samples;
    SoundIsValid(ring);
    if !ring.Fits(message) {
      return Err(DimensionMismatch);
    }
    var sTimesM := ring.Mul(secret, message);
    ResMul(s, m, ring.moduli);
    ghost var gs := CodeWeights(ring.moduli, params);
    SamplesUniform(as0, A0, |gs|, ring);
    SamplesUniform(es0, E0, |gs|, ring);
    SamplesUniform(as1, A1, |gs|, ring);
    SamplesUniform(es1, E1, |gs|, ring);
    ghost var bs0, bs1 := RowBs(A0, E0, s, gs, m), RowBs(A1, E1, s, gs, PMul(s, m));
    var mBlock: seq<Ciphertext>, smBlock: seq<Ciphertext> := [], [];
    NoRows(bs0, A0, ring.degree, ring.moduli);
    NoRows(bs1, A1, ring.degree, ring.moduli);
    for index := 0 to |ring.moduli|
      invariant |mBlock| == |smBlock| == index * params.levels <= |gs|
      invariant RowsSoFar(mBlock, bs0, A0, ring.degree, ring.moduli)
      invariant RowsSoFar(smBlock, bs1, A1, ring.degree, ring.moduli)
    {
      var lift := CrtLiftConstant(ring.moduli, index, ring.moduli);
      for level := 0 to params.levels
        invariant |mBlock| == |smBlock| == index * params.levels + level <= |gs|
        invariant RowsSoFar(mBlock, bs0, A0, ring.degree, ring.moduli)
        invariant RowsSoFar(smBlock, bs1, A1, ring.degree, ring.moduli)
      {
        PrefixFits(index, params.levels, level, |ring.moduli|);
        var t := index * params.levels + level;
        SampleAt(as0, A0, |gs|, ring, t);
        SampleAt(es0, E0, |gs|, ring, t);
        SampleAt(as1, A1, |gs|, ring, t);
        SampleAt(es1, E1, |gs|, ring, t);
        var row := EncryptScaled(ring, message, secret, params, index, level, lift.value, as0[t], es0[t], m, s, A0[t],
                                 E0[t]);
        var row' := EncryptScaled(ring, sTimesM.value, secret, params, index, level, lift.value, as1[t], es1[t],
                                  PMul(s, m), s, A1[t], E1[t]);
        RowsPush(mBlock, bs0, A0, row, ring.degree, ring.moduli);
        RowsPush(smBlock, bs1, A1, row', ring.degree, ring.moduli);
        mBlock := mBlock + [row];
        smBlock := smBlock + [row'];
      }
      assert (index + 1) * params.levels == index * params.levels + params.levels;
      PrefixFits(index, params.levels, params.levels, |ring.moduli|);
    }
    RowsComplete(mBlock, bs0, A0, ring.degree, ring.moduli);
    RowsComplete(smBlock, bs1, A1, ring.degree, ring.moduli);
    return Ok(RgswCiphertext(mBlock, smBlock));
  }

  /** The rows pushed so far are the first rows of the key. */
  ghost predicate RowsSoFar(rows: seq<Ciphertext>, bs: seq<Poly>, aRows: seq<Poly>, n: nat, qs: seq<int>)
    requires Moduli(qs)
  {
    && |rows| <= |bs| == |aRows|
    && forall t :: 0 <= t < |rows| ==> KeyRow(rows[t], bs[t], aRows[t], n, qs)
  }

  lemma NoRows(bs: seq<Poly>, aRows: seq<Poly>, n: nat, qs: seq<int>)
    requires Moduli(qs) && |bs| == |aRows|
    ensures RowsSoFar([], bs, aRows, n, qs)
  {}

  lemma RowsPush(rows: seq<Ciphertext>, bs: seq<Poly>, aRows: seq<Poly>, row: Ciphertext, n: nat, qs: seq<int>)
    requires Moduli(qs) && RowsSoFar(rows, bs, aRows, n, qs) && |rows| < |bs|
    requires KeyRow(row, bs[|rows|], aRows[|rows|], n, qs)
    ensures RowsSoFar(rows + [row], bs, aRows, n, qs)
  {
    hide KeyRow;
  }

  lemma RowsComplete(rows: seq<Ciphertext>, bs: seq<Poly>, aRows: seq<Poly>, n: nat, qs: seq<int>)
    requires Moduli(qs) && RowsSoFar(rows, bs, aRows, n, qs) && |rows| == |bs|
    ensures KeyRows(rows, bs, aRows, n, qs)
  {}

  /** One row: an encryption of zero plus B^level G_index x. */
  method EncryptScaled(ring: Ring, poly: RnsPoly, secret: RnsPoly, params: GadgetParams, index: nat, level: nat,
                       lift: seq<u64>, a: RnsPoly, e: RnsPoly, ghost x: Poly, ghost s: Poly, ghost A: Poly,
                       ghost E: Poly)
    returns (row: Ciphertext)
    requires ring.Sound() && params.Valid() && level < params.levels && index < |ring.moduli|
    requires |x| == |s| == |A| == |E| == ring.degree && poly == Residues(x, ring.moduli)
    requires secret == Residues(s, ring.moduli) && a == Residues(A, ring.moduli) && e == Residues(E, ring.moduli)
    requires |lift| == |ring.moduli| && forall k :: 0 <= k < |lift| ==>
               lift[k] == LiftConstant(ring.moduli, index) % ring.moduli[k]
    ensures 0 <= index * params.levels + level < |ring.moduli| * params.levels
    ensures var g := CodeWeights(ring.moduli, params)[index * params.levels + level];
      KeyRow(row, RowB(A, E, s, g, x), A, ring.degree, ring.moduli)
  {
    hide PMul, PMod, Residues, IsPrime, TwoTo, Ring.Sound, KeyRow, RowB, CodeWeights, LiftConstant;
    SoundIsValid(ring);
    var scaled := ScaleByBasePowerAndLift(ring, poly, params, level, lift, index, x);
    ghost var g := CodeWeights(ring.moduli, params)[index * params.levels + level];
    row := EncryptZeroPlus(ring, scaled, secret, a, e, A, E, s, g, x);
  }

  /** Sampled ring elements and the integer polynomials behind them. */
  ghost predicate Samples(xs: seq<RnsPoly>, Xs: seq<Poly>, count: int, ring: Ring) {
    && |xs| == |Xs| == count
    && forall t :: 0 <= t < |xs| ==> |Xs[t]| == ring.degree && xs[t] == Residues(Xs[t], ring.moduli)
  }

  lemma SamplesUniform(xs: seq<RnsPoly>, Xs: seq<Poly>, count: int, ring: Ring)
    requires Samples(xs, Xs, count, ring)
    ensures |xs| == |Xs| == count && Uniform(Xs, ring.degree)
  {}

  lemma SampleAt(xs: seq<RnsPoly>, Xs: seq<Poly>, count: int, ring: Ring, t: nat)
    requires Samples(xs, Xs, count, ring) && t < count
    ensures |Xs[t]| == ring.degree && xs[t] == Residues(Xs[t], ring.moduli)
  {}

  /** poly times B^level G_index, component by component. */
  method ScaleByBasePowerAndLift(ring: Ring, poly: RnsPoly, params: GadgetParams, level: nat, lift: seq<u64>,
                                 ghost index: nat, ghost x: Poly) returns (r: RnsPoly)
    requires ring.Valid() && params.Valid() && level < params.levels && index < |ring.moduli|
    requires |x| == ring.degree && poly == Residues(x, ring.moduli)
    requires |lift| == |ring.moduli| && forall k :: 0 <= k < |lift| ==>
               lift[k] == LiftConstant(ring.moduli, index) % ring.moduli[k]
    ensures 0 <= index * params.levels + level < |ring.moduli| * params.levels
    ensures r == Residues(PScale(CodeWeights(ring.moduli, params)[index * params.levels + level], x),
                          ring.moduli)
  {
    hide PMod, Residues, TwoTo, LiftConstant, CodeWeight;
    PrefixFits(index, params.levels, level, |ring.moduli|);
    ghost var g := CodeWeights(ring.moduli, params)[index * params.levels + level];
    var scales := DigitScales(lift, params, level, ring.moduli, index);
    r := ScalePolyPerComponent(ring, poly, scales, g);
    ResScale(g, x, ring.moduli);
  }

  // ------------------------------------------------------------ external product

  /** One of the two dot products of digits with rows, added to the accumulators. */
  method AccumulateDigits(ring: Ring, start0: RnsPoly, start1: RnsPoly, digits: seq<RnsPoly>, rows: seq<Ciphertext>,
                          ghost x0: Poly, ghost x1: Poly, ghost ds: seq<Poly>, ghost bs: seq<Poly>,
                          ghost aRows: seq<Poly>)
    returns (acc0: RnsPoly, acc1: RnsPoly)
    requires ring.Sound() && |x0| == |x1| == ring.degree
    requires start0 == Residues(x0, ring.moduli) && start1 == Residues(x1, ring.moduli)
    requires |digits| == |ds| == |rows| && Uniform(ds, ring.degree)
    requires forall t :: 0 <= t < |ds| ==> digits[t] == Residues(ds[t], ring.moduli)
    requires KeyRows(rows, bs, aRows, ring.degree, ring.moduli)
    ensures Uniform(bs, ring.degree) && Uniform(aRows, ring.degree)
    ensures acc0 == Residues(PAdd(x0, Dot(ring.degree, ds, bs)), ring.moduli)
    ensures acc1 == Residues(PAdd(x1, Dot(ring.degree, ds, aRows)), ring.moduli)
  {
    hide PMul, PMod, Residues, IsPrime, TwoTo, Ring.Sound, Dot, PAdd;
    var n := ring.degree;
    KeyRowsUniform(rows, bs, aRows, n, ring.moduli);
    acc0, acc1 := start0, start1;
    EmptyDot(n, ds, bs);
    EmptyDot(n, ds, aRows);
    AddZero(x0);
    AddZero(x1);
    for t := 0 to |digits|
      invariant acc0 == Residues(PAdd(x0, Dot(n, ds[..t], bs[..t])), ring.moduli)
      invariant acc1 == Residues(PAdd(x1, Dot(n, ds[..t], aRows[..t])), ring.moduli)
    {
      assert KeyRow(rows[t], bs[t], aRows[t], n, ring.moduli);
      DotNext(n, ds, bs, t);
      DotNext(n, ds, aRows, t);
      AddAssoc(x0, Dot(n, ds[..t], bs[..t]), PMul(ds[t], bs[t]));
      AddAssoc(x1, Dot(n, ds[..t], aRows[..t]), PMul(ds[t], aRows[t]));
      acc0 := Accumulate(ring, acc0, digits[t], rows[t][0], PAdd(x0, Dot(n, ds[..t], bs[..t])), ds[t], bs[t]);
      acc1 := Accumulate(ring, acc1, digits[t], rows[t][1], PAdd(x1, Dot(n, ds[..t], aRows[..t])), ds[t], aRows[t]);
    }
    assert ds[..|ds|] == ds && bs[..|bs|] == bs && aRows[..|aRows|] == aRows;
  }

  function Min(a: nat, b: nat): (m: nat)
    ensures m <= a && m <= b && (m == a || m == b)
  {
    if a <= b then a else b
  }

  /** One of the two products: digits paired with rows, as far as both go. */
  ghost function PairedDot(n: nat, ds: seq<Poly>, rs: seq<Poly>): (r: Poly)
    requires Uniform(ds, n) && Uniform(rs, n)
    ensures |r| == n
  {
    var k := Min(|ds|, |rs|);
    Dot(n, ds[..k], rs[..k])
  }

  /** With as many rows as digits nothing is dropped. */
  lemma PairedAll(n: nat, ds: seq<Poly>, rs: seq<Poly>)
    requires Uniform(ds, n) && Uniform(rs, n) && |ds| == |rs|
    ensures PairedDot(n, ds, rs) == Dot(n, ds, rs)
  {
    assert ds[..|ds|] == ds && rs[..|rs|] == rs;
  }

  /** sum c0_t rows0_t + sum c1_t rows1_t over the gadget digits of the ciphertext, as far as there are rows. */
  method ExternalProduct(ring: Ring, params: GadgetParams, ct: Ciphertext, rgsw: RgswCiphertext,
                         ghost bs0: seq<Poly>, ghost as0: seq<Poly>, ghost bs1: seq<Poly>, ghost as1: seq<Poly>)
    returns (r: Result<Ciphertext>)
    requires ring.Sound() && params.Valid() && |ct| >= 2
    requires KeyRows(rgsw.mBlock, bs0, as0, ring.degree, ring.moduli)
    requires KeyRows(rgsw.smBlock, bs1, as1, ring.degree, ring.moduli)
    ensures Uniform(bs0, ring.degree) && Uniform(as0, ring.degree) && Uniform(bs1, ring.degree)
    ensures Uniform(as1, ring.degree)
    ensures r.Ok? <==> ring.Fits(ct[0]) && ring.Fits(ct[1])
    ensures r.Ok? ==>
              var n := ring.degree;
              var ds0, ds1 := CodeDigits(ct[0], n, params), CodeDigits(ct[1], n, params);
              && |r.value| == 2
              && r.value[0] == Residues(PAdd(PairedDot(n, ds0, bs0), PairedDot(n, ds1, bs1)), ring.moduli)
              && r.value[1] == Residues(PAdd(PairedDot(n, ds0, as0), PairedDot(n, ds1, as1)), ring.moduli)
    ensures r.Err? ==> r.error == DimensionMismatch
  {
    hide PMul, PMod, Residues, IsPrime, TwoTo, Ring.Sound, Dot, PAdd, KeyRow, CodeDigits, Ring.Zero;
    SoundIsValid(ring);
    var n := ring.degree;
    KeyRowsUniform(rgsw.mBlock, bs0, as0, n, ring.moduli);
    KeyRowsUniform(rgsw.smBlock, bs1, as1, n, ring.moduli);
    if !ring.Fits(ct[0]) || !ring.Fits(ct[1]) {
      return Err(DimensionMismatch);
    }
    var digits0 := Decompose(ct[0], params, ring.moduli);
    var digits1 := Decompose(ct[1], params, ring.moduli);
    ghost var ds0, ds1 := CodeDigits(ct[0], n, params), CodeDigits(ct[1], n, params);
    var k, l := Min(|digits0.value|, |rgsw.mBlock|), Min(|digits1.value|, |rgsw.smBlock|);
    ZeroResidues(ring);
    AddZero(PairedDot(n, ds0, bs0));
    AddZero(PairedDot(n, ds0, as0));
    var acc0, acc1 := AccumulateDigits(ring, ring.Zero(), ring.Zero(), digits0.value[..k], rgsw.mBlock[..k],
                                       PZero(n), PZero(n), ds0[..k], bs0[..k], as0[..k]);
    acc0, acc1 := AccumulateDigits(ring, acc0, acc1, digits1.value[..l], rgsw.smBlock[..l],
                                   PairedDot(n, ds0, bs0), PairedDot(n, ds0, as0), ds1[..l], bs1[..l], as1[..l]);
    return Ok([acc0, acc1]);
  }

  /** The noise the rows' fresh errors add. */
  ghost function RowNoise(C0: Poly, C1: Poly, es0: seq<Poly>, es1: seq<Poly>, qs: seq<int>, B: int,
                          levels: nat): (r: Poly)
    requires Moduli(qs) && B >= 1 && levels > 0 && |C0| == |C1|
    requires |es0| == |es1| == |qs| * levels && Uniform(es0, |C0|) && Uniform(es1, |C0|)
    ensures |r| == |C0|
  {
    PAdd(Dot(|C0|, GadgetDigits(Residues(C0, qs), |C0|, B, levels), es0),
         Dot(|C0|, GadgetDigits(Residues(C1, qs), |C0|, B, levels), es1))
  }

  /** The external product decrypts to m (c0 + c1 s) plus the row noise, modulo Q. */
  lemma ExternalProductCorrect(C0: Poly, C1: Poly, m: Poly, s: Poly,
                               bs0: seq<Poly>, as0: seq<Poly>, es0: seq<Poly>,
                               bs1: seq<Poly>, as1: seq<Poly>, es1: seq<Poly>, qs: seq<int>, B: int, levels: nat)
    requires |C0| == |C1| == |m| == |s| && PrimeBasis(qs) && Moduli(qs) && B >= 1 && levels > 0
    requires forall c :: 0 <= c < |qs| ==> qs[c] <= Pow(B, levels)
    requires Rows(bs0, as0, es0, s, GadgetWeights(qs, B, levels), m, Product(qs))
    requires Rows(bs1, as1, es1, s, GadgetWeights(qs, B, levels), PMul(s, m), Product(qs))
    ensures Uniform(bs0, |s|) && Uniform(as0, |s|) && Uniform(es0, |s|)
    ensures Uniform(bs1, |s|) && Uniform(as1, |s|) && Uniform(es1, |s|)
    ensures var n, ds0, ds1 := |s|, GadgetDigits(Residues(C0, qs), |s|, B, levels), GadgetDigits(Residues(C1, qs), |s|,
        B, levels);
      PCong(Phase2(PAdd(Dot(n, ds0, bs0), Dot(n, ds1, bs1)), PAdd(Dot(n, ds0, as0), Dot(n, ds1, as1)), s),
            PAdd(PMul(m, Phase2(C0, C1, s)), RowNoise(C0, C1, es0, es1, qs, B, levels)), Product(qs))
  {
    hide PMul, PAdd, PCong, Product, Dot, Weighted, GadgetDigits, GadgetWeights, RowRelation, IsPrime, Residues, Phase2;
    var n, Q := |s|, Product(qs);
    var ds0, ds1 := GadgetDigits(Residues(C0, qs), n, B, levels), GadgetDigits(Residues(C1, qs), n, B, levels);
    var gs := GadgetWeights(qs, B, levels);
    RowsUniform(bs0, as0, es0, s, gs, m, Q);
    RowsUniform(bs1, as1, es1, s, gs, PMul(s, m), Q);
    RowsCombine(n, ds0, bs0, as0, es0, s, gs, m, Q);
    RowsCombine(n, ds1, bs1, as1, es1, s, gs, PMul(s, m), Q);
    GadgetRecomposes(C0, qs, B, levels);
    GadgetRecomposes(C1, qs, B, levels);
    CombineBlocks(Dot(n, ds0, bs0), Dot(n, ds1, bs1), Dot(n, ds0, as0), Dot(n, ds1, as1),
                  Dot(n, ds0, es0), Dot(n, ds1, es1), Weighted(n, gs, ds0), Weighted(n, gs, ds1), C0, C1, m, s, Q);
  }

  /** The pair `ExternalProduct` returns, for rows as `Encrypt` makes them: while the shifts fit and the levels cover
      every modulus, it decrypts to m (c0 + c1 s) plus the row noise. */
  lemma ExternalProductDecrypts(C0: Poly, C1: Poly, m: Poly, s: Poly,
                                bs0: seq<Poly>, as0: seq<Poly>, es0: seq<Poly>,
                                bs1: seq<Poly>, as1: seq<Poly>, es1: seq<Poly>, qs: seq<int>, params: GadgetParams)
    requires |C0| == |C1| == |m| == |s| && PrimeBasis(qs) && Moduli(qs) && params.Valid() && params.ShiftsFit()
    requires forall c :: 0 <= c < |qs| ==> qs[c] <= Pow(params.Base(), params.levels)
    requires Rows(bs0, as0, es0, s, CodeWeights(qs, params), m, Product(qs))
    requires Rows(bs1, as1, es1, s, CodeWeights(qs, params), PMul(s, m), Product(qs))
    ensures Uniform(bs0, |s|) && Uniform(as0, |s|) && Uniform(es0, |s|)
    ensures Uniform(bs1, |s|) && Uniform(as1, |s|) && Uniform(es1, |s|)
    ensures var n := |s|;
      var ds0, ds1 := CodeDigits(Residues(C0, qs), n, params), CodeDigits(Residues(C1, qs), n, params);
      PCong(Phase2(PAdd(PairedDot(n, ds0, bs0), PairedDot(n, ds1, bs1)),
                   PAdd(PairedDot(n, ds0, as0), PairedDot(n, ds1, as1)), s),
            PAdd(PMul(m, Phase2(C0, C1, s)), RowNoise(C0, C1, es0, es1, qs, params.Base(), params.levels)),
            Product(qs))
  {
    hide PMul, PAdd, PCong, Product, Dot, GadgetDigits, GadgetWeights, CodeDigits, CodeWeights, RowRelation, IsPrime,
      Residues, Phase2, RowNoise, PairedDot, TwoTo;
    var n, Q := |s|, Product(qs);
    DigitsMeet(Residues(C0, qs), n, params);
    DigitsMeet(Residues(C1, qs), n, params);
    WeightsMeet(qs, params);
    ExternalProductCorrect(C0, C1, m, s, bs0, as0, es0, bs1, as1, es1, qs, params.Base(), params.levels);
    var ds0, ds1 := CodeDigits(Residues(C0, qs), n, params), CodeDigits(Residues(C1, qs), n, params);
    PairedAll(n, ds0, bs0);
    PairedAll(n, ds1, bs1);
    PairedAll(n, ds0, as0);
    PairedAll(n, ds1, as1);
  }

  lemma CombineBlocks(b0: Poly, b1: Poly, a0: Poly, a1: Poly, e0: Poly, e1: Poly, w0: Poly, w1: Poly,
                      C0: Poly, C1: Poly, m: Poly, s: Poly, Q: int)
    requires |b0| == |b1| == |a0| == |a1| == |e0| == |e1| == |w0| == |w1| == |C0| == |C1| == |m| == |s|
    requires PCong(PAdd(b0, PMul(a0, s)), PAdd(e0, PMul(w0, m)), Q)
    requires PCong(PAdd(b1, PMul(a1, s)), PAdd(e1, PMul(w1, PMul(s, m))), Q)
    requires PCong(w0, C0, Q) && PCong(w1, C1, Q)
    ensures PCong(Phase2(PAdd(b0, b1), PAdd(a0, a1), s), PAdd(PMul(m, Phase2(C0, C1, s)), PAdd(e0, e1)), Q)
  {
    hide PMul, PAdd, PCong;
    Block(PAdd(b0, PMul(a0, s)), e0, w0, C0, m, Q);
    Block(PAdd(b1, PMul(a1, s)), e1, w1, C1, PMul(s, m), Q);
    MulAddLeft(a0, a1, s);
    AddInterchange(b0, b1, PMul(a0, s), PMul(a1, s));
    PCongAdd(PAdd(b0, PMul(a0, s)), PAdd(e0, PMul(C0, m)),
             PAdd(b1, PMul(a1, s)), PAdd(e1, PMul(C1, PMul(s, m))), Q);
    AddInterchange(e0, PMul(C0, m), e1, PMul(C1, PMul(s, m)));
    MulComm(m, PAdd(C0, PMul(C1, s)));
    MulAddLeft(C0, PMul(C1, s), m);
    MulAssoc(C1, s, m);
    AddComm(PAdd(e0, e1), PAdd(PMul(C0, m), PMul(C1, PMul(s, m))));
  }

  lemma Block(v: Poly, e: Poly, w: Poly, C: Poly, m: Poly, Q: int)
    requires |v| == |e| == |w| == |C| == |m|
    requires PCong(v, PAdd(e, PMul(w, m)), Q) && PCong(w, C, Q)
    ensures PCong(v, PAdd(e, PMul(C, m)), Q)
  {
    hide *;
    PCongMul(w, C, m, Q);
    PCongRefl(e, Q);
    PCongAdd(e, e, PMul(w, m), PMul(C, m), Q);
    PCongTrans(v, PAdd(e, PMul(w, m)), PAdd(e, PMul(C, m)), Q);
  }

  // ------------------------------------------------------------------ noise bound

  const FRESH_ERROR_BOUND: int := 20

  function RingProductBound(degree: nat, a: nat, b: nat): (r: nat) {
    MulBound(a, a, b, b);
    MulBound(degree, degree, a * b, a * b);
    degree * (a * b)
  }

  /** u e_pk, e1 and e2 s for ternary u and s. */
  function FreshPublicKeyNoiseBound(degree: nat): (r: int) {
    RingProductBound(degree, 1, FRESH_ERROR_BOUND) + FRESH_ERROR_BOUND + RingProductBound(degree, 1, FRESH_ERROR_BOUND)
  }

  /** A constant polynomial: every coefficient is `v`. */
  ghost function Flat(n: nat, v: int): (p: Poly)
    ensures |p| == n && forall i :: 0 <= i < n ==> p[i] == v
  {
    seq(n, _ => v)
  }

  lemma {:induction false} SumConstant(n: nat, f: int -> int, v: int)
    requires forall i :: 0 <= i < n ==> f(i) == v
    ensures Sums.Sum(n, f) == n * v
  {
    if n > 0 {
      SumConstant(n - 1, f, v);
    }
  }

  /** The top coefficient of a product of flat polynomials has no wrap. */
  lemma FlatProduct(n: nat, a: int, b: int)
    requires n > 0
    ensures PMul(Flat(n, a), Flat(n, b))[n - 1] == n * (a * b)
  {
    hide Coef;
    var p, q := Flat(n, a), Flat(n, b);
    var f := LinTerm(p, Rev(q, n - 1));
    forall i | 0 <= i < n ensures f(i) == a * b {
      CoefAt(p, i);
      CoefAt(q, n - 1 - i);
    }
    SumConstant(n, f, a * b);
  }

  /** The product bound is attained, so it is the least one. */
  lemma RingProductAttained(n: nat, a: nat, b: nat)
    requires n > 0
    ensures PBound(Flat(n, a), a) && PBound(Flat(n, b), b)
    ensures PMul(Flat(n, a), Flat(n, b))[n - 1] == RingProductBound(n, a, b)
  {
    FlatProduct(n, a, b);
  }

  /** The fresh bound is 40 N + 20, and it is attained. */
  lemma FreshNoiseAttained(n: nat)
    requires n > 0
    ensures FreshPublicKeyNoiseBound(n) == 40 * n + 20
    ensures PSub(PAdd(Flat(n, 20), PMul(Flat(n, 20), Flat(n, 1))), PMul(Flat(n, -20), Flat(n, 1)))[n - 1]
         == FreshPublicKeyNoiseBound(n)
  {
    hide PMul;
    FlatProduct(n, 20, 1);
    FlatProduct(n, -20, 1);
  }

  /** Without levels the external-product bound is that of m e_ct; each level adds two products of a digit below B
      and an error within 20. */
  lemma ExternalNoiseGrows(n: nat, messageBound: nat, ctNoiseBound: nat, levels: nat, baseLog: nat)
    ensures ExternalProductNoiseBound(n, messageBound, ctNoiseBound, 0, baseLog)
         == n * (messageBound * ctNoiseBound)
    ensures ExternalProductNoiseBound(n, messageBound, ctNoiseBound, levels + 1, baseLog)
         == ExternalProductNoiseBound(n, messageBound, ctNoiseBound, levels, baseLog)
            + 2 * (n * ((TwoTo(baseLog) - 1) * 20))
  {
    hide TwoTo;
    var g := n * ((TwoTo(baseLog) - 1) * 20);
    assert 2 * (levels + 1) * g == 2 * levels * g + 2 * g;
  }

  /** A fresh public-key encryption decrypts to the message plus noise within the stated bound. */
  lemma FreshPublicKeyNoise(m: Poly, s: Poly, A: Poly, E: Poly, U: Poly, E1: Poly, E2: Poly) returns (noise: Poly)
    requires |m| == |s| == |A| == |E| == |U| == |E1| == |E2| > 0
    requires PBound(s, 1) && PBound(U, 1) && PBound(E, FRESH_ERROR_BOUND)
    requires PBound(E1, FRESH_ERROR_BOUND) && PBound(E2, FRESH_ERROR_BOUND)
    ensures |noise| == |m| && PBound(noise, FreshPublicKeyNoiseBound(|m|))
    ensures Phase2(PAdd(PAdd(m, PMul(PNeg(PAdd(PMul(A, s), E)), U)), E1), PAdd(PMul(A, U), E2), s) == PAdd(m, noise)
  {
    hide PMul, PAdd, PSub, PNeg, PBound, Phase2;
    var n, b := |m|, FRESH_ERROR_BOUND;
    PublicEncryptionPhase(m, s, A, E, U, E1, E2);
    noise := PSub(PAdd(E1, PMul(E2, s)), PMul(E, U));
    MulBoundPoly(E2, s, b, 1);
    MulBoundPoly(E, U, b, 1);
    AddBound(E1, PMul(E2, s), b, n * (b * 1));
    SubBound(PAdd(E1, PMul(E2, s)), PMul(E, U), b + n * (b * 1), n * (b * 1));
  }

  function ExternalProductNoiseBound(degree: nat, messageBound: nat, ctNoiseBound: nat, totalLevels: nat,
                                     baseLog: nat): (r: int) {
    RingProductBound(degree, messageBound, ctNoiseBound)
    + 2 * totalLevels * RingProductBound(degree, TwoTo(baseLog) - 1, FRESH_ERROR_BOUND)
  }

  /** `count` copies of one digit bound. */
  ghost function Copies(count: nat, b: int): (bs: seq<int>)
    ensures |bs| == count && forall t :: 0 <= t < count ==> bs[t] == b
  {
    seq(count, _ => b)
  }

  lemma {:induction false} SumOfCopies(bs: seq<int>, b: int)
    requires forall t :: 0 <= t < |bs| ==> bs[t] == b
    ensures SumOf(bs) == |bs| * b
  {
    if |bs| > 0 {
      SumOfCopies(bs[..|bs| - 1], b);
      assert |bs| * b == (|bs| - 1) * b + b;
    }
  }

  lemma GadgetDotBound(x: seq<Poly>, n: nat, B: int, levels: nat, es: seq<Poly>, E: int)
    requires B >= 1 && levels > 0 && Shape(x, n, |x|) && |es| == |x| * levels && Uniform(es, n) && E >= 0
    requires forall t :: 0 <= t < |es| ==> PBound(es[t], E)
    ensures PBound(Dot(n, GadgetDigits(x, n, B, levels), es), n * (|x| * levels * (B - 1) * E))
  {
    hide GadgetDigits, Dot, SumOf, PBound, Below, GadgetDigit;
    var ds, bs := GadgetDigits(x, n, B, levels), Copies(|x| * levels, B - 1);
    forall t | 0 <= t < |ds| ensures bs[t] >= 0 && PBound(ds[t], bs[t]) {
      BelowBound(GadgetDigit(x, B, levels, t), B);
    }
    DotBound(n, ds, es, bs, E);
    SumOfCopies(bs, B - 1);
  }

  /** m e_ct plus the row noise stays within external_product_noise_bound. */
  lemma ExternalProductNoise(C0: Poly, C1: Poly, m: Poly, eCt: Poly, es0: seq<Poly>, es1: seq<Poly>, qs: seq<int>,
                             baseLog: nat, levels: nat, messageBound: nat, ctNoiseBound: nat)
    requires |C0| == |C1| == |m| == |eCt| && Moduli(qs) && levels > 0
    requires |es0| == |es1| == |qs| * levels && Uniform(es0, |m|) && Uniform(es1, |m|)
    requires PBound(m, messageBound) && PBound(eCt, ctNoiseBound)
    requires forall t :: 0 <= t < |es0| ==> PBound(es0[t], FRESH_ERROR_BOUND)
    requires forall t :: 0 <= t < |es1| ==> PBound(es1[t], FRESH_ERROR_BOUND)
    ensures 0 <= |qs| * levels
    ensures PBound(PAdd(PMul(m, eCt), RowNoise(C0, C1, es0, es1, qs, TwoTo(baseLog), levels)),
                   ExternalProductNoiseBound(|m|, messageBound, ctNoiseBound, |qs| * levels, baseLog))
  {
    hide PMul, PAdd, PBound, Dot, GadgetDigits, TwoTo;
    var n, B, total, E := |m|, TwoTo(baseLog), |qs| * levels, FRESH_ERROR_BOUND;
    MulBoundPoly(m, eCt, messageBound, ctNoiseBound);
    var d0, d1 := Dot(n, GadgetDigits(Residues(C0, qs), n, B, levels), es0), Dot(n,
                                                                                 GadgetDigits(Residues(C1, qs), n, B,
                                                                                     levels), es1);
    GadgetDotBound(Residues(C0, qs), n, B, levels, es0, E);
    GadgetDotBound(Residues(C1, qs), n, B, levels, es1, E);
    var g := n * (total * (B - 1) * E);
    AddBound(d0, d1, g, g);
    AddBound(PMul(m, eCt), PAdd(d0, d1), n * (messageBound * ctNoiseBound), g + g);
    NoiseArith(n, total, B - 1, E);
  }

  lemma NoiseArith(n: int, total: int, d: int, E: int)
    ensures n * (total * d * E) + n * (total * d * E) == 2 * total * (n * (d * E))
  {
    assert total * d * E == total * (d * E);
    assert n * (total * (d * E)) == total * (n * (d * E));
  }

  /** If the input encrypts mu with noise e_ct, the product encrypts m mu with noise m e_ct + row noise. */
  lemma ExternalProductMessage(x: Poly, C0: Poly, C1: Poly, m: Poly, s: Poly, mu: Poly, eCt: Poly, noise: Poly, Q: int)
    requires |x| == |C0| == |C1| == |m| == |s| == |mu| == |eCt| == |noise|
    requires PCong(x, PAdd(PMul(m, Phase2(C0, C1, s)), noise), Q) && PCong(Phase2(C0, C1, s), PAdd(mu, eCt), Q)
    ensures PCong(x, PAdd(PMul(m, mu), PAdd(PMul(m, eCt), noise)), Q)
  {
    hide *;
    var p := Phase2(C0, C1, s);
    PCongMul(p, PAdd(mu, eCt), m, Q);
    MulComm(p, m);
    MulComm(PAdd(mu, eCt), m);
    MulAddRight(m, mu, eCt);
    PCongRefl(noise, Q);
    PCongAdd(PMul(m, p), PAdd(PMul(m, mu), PMul(m, eCt)), noise, noise, Q);
    PCongTrans(x, PAdd(PMul(m, p), noise), PAdd(PAdd(PMul(m, mu), PMul(m, eCt)), noise), Q);
    AddAssoc(PMul(m, mu), PMul(m, eCt), noise);
  }
}
