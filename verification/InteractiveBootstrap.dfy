/** Collective bootstrapping in one round: masks cancel, the old noise is gone. */
module InteractiveBootstrap {
  import opened Integers
  import opened NumberTheory
  import opened Results
  import opened Negacyclic
  import opened Rns
  import opened Crt
  import opened PolySums
  import opened Rings
  import opened Rlwe
  import opened Batching
  import opened Collective
  import opened Hybrid
  import opened Shares

  // ------------------------------------------------------------------- the shares

  /** c1 s + t e0 - M. */
  ghost function RevealShare(c1: Poly, s: Poly, e0: Poly, m: Poly, t: int): (r: Poly)
    requires |c1| == |s| == |e0| == |m|
    ensures |r| == |c1|
  {
    PSub(PAdd(PMul(c1, s), PScale(t, e0)), m)
  }

  /** t e1 - a s + M. */
  ghost function RefreshShare(a: Poly, s: Poly, e1: Poly, m: Poly, t: int): (r: Poly)
    requires |a| == |s| == |e1| == |m|
    ensures |r| == |a|
  {
    PAdd(PSub(PScale(t, e1), PMul(a, s)), m)
  }

  method CreateShare(params: BgvParams, session: SessionState, participant: nat, sk: RnsPoly, ct: Ciphertext,
                     a: RnsPoly, mask: seq<u64>, e0: RnsPoly, e1: RnsPoly,
                     ghost s: Poly, ghost C1: Poly, ghost A: Poly, ghost E0: Poly, ghost E1: Poly)
    returns (r: Result<Share<RowPair>>)
    requires params.Valid() && params.ring.Sound() && |mask| == params.ring.degree
    requires |s| == |C1| == |A| == |E0| == |E1| == params.ring.degree
    requires sk == Residues(s, params.ring.moduli) && a == Residues(A, params.ring.moduli)
    requires e0 == Residues(E0, params.ring.moduli) && e1 == Residues(E1, params.ring.moduli)
    requires |ct| > 1 && params.ring.Fits(ct[1]) ==> ct[1] == Residues(C1, params.ring.moduli)
    ensures r.Ok? <==> |ct| > 1 && params.ring.Fits(ct[1]) && participant in session.participants
    ensures r.Ok? ==>
              var M := PaddedValues(mask, |mask|, params.t);
              && r.value.CheckForSession(session, ShareKind.InteractiveBootstrap).None?
              && r.value.participant == participant
              && RowIs(r.value.payload, RevealShare(C1, s, E0, M, params.t), RefreshShare(A, s, E1, M, params.t),
                       params.ring.degree, params.ring.moduli)
    ensures r.Err? ==> r.error == if |ct| > 1 && params.ring.Fits(ct[1]) then UnknownParticipant else MalformedMessage
  {
    hide PMul, PMod, Residues, IsPrime, TwoTo, Ring.Sound, PScale, PAdd, PSub, PaddedValues;
    var ring, t := params.ring, params.t;
    if |ct| < 2 {
      return Err(MalformedMessage);
    }
    if !ring.Fits(ct[1]) {
      return Err(MalformedMessage);
    }
    var maskPoly := EncodeU64(params, mask);
    ghost var M := PaddedValues(mask, |mask|, t);
    var te0 := ring.ScalarMul(e0, t);
    ResScale(t, E0, ring.moduli);
    var te1 := ring.ScalarMul(e1, t);
    ResScale(t, E1, ring.moduli);
    var h0 := Reveal(ring, ct[1], sk, te0.value, maskPoly.value, C1, s, PScale(t, E0), M);
    var h1 := Refresh(ring, a, sk, te1.value, maskPoly.value, A, s, PScale(t, E1), M);
    r := NewShare(session, participant, ShareKind.InteractiveBootstrap, (h0, h1));
  }

  method Reveal(ring: Ring, c1: RnsPoly, sk: RnsPoly, e: RnsPoly, mask: RnsPoly,
                ghost C1: Poly, ghost s: Poly, ghost E: Poly, ghost M: Poly) returns (h: RnsPoly)
    requires ring.Sound() && |C1| == |s| == |E| == |M| == ring.degree
    requires c1 == Residues(C1, ring.moduli) && sk == Residues(s, ring.moduli)
    requires e == Residues(E, ring.moduli) && mask == Residues(M, ring.moduli)
    ensures h == Residues(PSub(PAdd(PMul(C1, s), E), M), ring.moduli)
  {
    hide PMul, PMod, Residues, IsPrime, TwoTo, Ring.Sound, PAdd, PSub;
    SoundIsValid(ring);
    var product := ring.Mul(c1, sk);
    ResMul(C1, s, ring.moduli);
    var sum := ring.Add(product.value, e);
    ResAdd(PMul(C1, s), E, ring.moduli);
    var difference := ring.Sub(sum.value, mask);
    ResSub(PAdd(PMul(C1, s), E), M, ring.moduli);
    h := difference.value;
  }

  method Refresh(ring: Ring, a: RnsPoly, sk: RnsPoly, e: RnsPoly, mask: RnsPoly,
                 ghost A: Poly, ghost s: Poly, ghost E: Poly, ghost M: Poly) returns (h: RnsPoly)
    requires ring.Sound() && |A| == |s| == |E| == |M| == ring.degree
    requires a == Residues(A, ring.moduli) && sk == Residues(s, ring.moduli)
    requires e == Residues(E, ring.moduli) && mask == Residues(M, ring.moduli)
    ensures h == Residues(PAdd(PSub(E, PMul(A, s)), M), ring.moduli)
  {
    hide PMul, PMod, Residues, IsPrime, TwoTo, Ring.Sound, PAdd, PSub;
    SoundIsValid(ring);
    var product := ring.Mul(a, sk);
    ResMul(A, s, ring.moduli);
    var difference := ring.Sub(e, product.value);
    ResSub(E, PMul(A, s), ring.moduli);
    var sum := ring.Add(difference.value, mask);
    ResAdd(PSub(E, PMul(A, s)), M, ring.moduli);
    h := sum.value;
  }

  // ------------------------------------------------------------------ aggregation

  /** Sums the shares, reveals the masked value modulo t, re-embeds it, and adds the refresh shares. */
  method AggregateRefreshed(params: BgvParams, aggregator: ShareAggregator<RowPair>, ct: Ciphertext, a: RnsPoly,
                            ghost C0: Poly, ghost xs: PartyPolys, ghost ys: PartyPolys)
    returns (r: Result<Ciphertext>)
    requires params.Valid() && aggregator.Valid() && |C0| == params.ring.degree
    requires |ct| > 0 && params.ring.Fits(ct[0]) ==> ct[0] == Residues(C0, params.ring.moduli)
    requires |xs| == |ys| == |aggregator.shares|
    requires forall p :: 0 <= p < |xs| ==>
               RowIs(aggregator.shares[p].payload, xs[p], ys[p], params.ring.degree, params.ring.moduli)
    ensures Uniform(xs, params.ring.degree) && Uniform(ys, params.ring.degree)
    ensures r.Ok? <==> |ct| > 0 && params.ring.Fits(ct[0]) && aggregator.session.threshold <= |xs|
    ensures r.Ok? ==>
              var n, qs, t := params.ring.degree, params.ring.moduli, params.t;
              var masked := PMod(PAdd(C0, Total(n, xs)), qs[0]);
              r.value == [Residues(PAdd(Revealed(masked, qs[0], t), Total(n, ys)), qs), a]
    ensures r.Err? ==> r.error == if |ct| > 0 && params.ring.Fits(ct[0]) then ThresholdNotMet else MalformedMessage
  {
    hide PMod, Residues, IsPrime, TwoTo, PAdd, Total, Ring.Zero, PaddedValues;
    var ring, n := params.ring, params.ring.degree;
    RowsUniformPair(aggregator.shares, xs, ys, n, ring.moduli);
    if |ct| == 0 {
      return Err(MalformedMessage);
    }
    if !ring.Fits(ct[0]) {
      return Err(MalformedMessage);
    }
    var shares :- aggregator.AllShares();
    var h0Sum, h1Sum := ring.Zero(), ring.Zero();
    ZeroResidues(ring);
    NoParties(xs, n);
    NoParties(ys, n);
    for p := 0 to |shares|
      invariant h0Sum == Residues(Total(n, xs[..p]), ring.moduli)
      invariant h1Sum == Residues(Total(n, ys[..p]), ring.moduli)
    {
      assert RowIs(aggregator.shares[p].payload, xs[p], ys[p], n, ring.moduli);
      var next0 := ring.Add(h0Sum, shares[p].payload.0);
      ResAdd(Total(n, xs[..p]), xs[p], ring.moduli);
      TotalNext(n, xs, p);
      var next1 := ring.Add(h1Sum, shares[p].payload.1);
      ResAdd(Total(n, ys[..p]), ys[p], ring.moduli);
      TotalNext(n, ys, p);
      h0Sum, h1Sum := next0.value, next1.value;
    }
    assert xs[..|xs|] == xs && ys[..|ys|] == ys;
    r := Reencode(params, ct[0], h0Sum, h1Sum, a, C0, Total(n, xs), Total(n, ys));
  }

  lemma RowsUniformPair(shares: seq<Share<RowPair>>, xs: PartyPolys, ys: PartyPolys, n: nat, qs: seq<int>)
    requires Moduli(qs) && |xs| == |ys| == |shares|
    requires forall p :: 0 <= p < |xs| ==> RowIs(shares[p].payload, xs[p], ys[p], n, qs)
    ensures Uniform(xs, n) && Uniform(ys, n)
  {
    hide Residues;
    forall p | 0 <= p < |xs| ensures |xs[p]| == |ys[p]| == n {
      assert RowIs(shares[p].payload, xs[p], ys[p], n, qs);
    }
  }

  /** The masked value modulo t, read from component 0. */
  ghost function Revealed(masked: Poly, q0: int, t: int): (u: Poly)
    requires t > 0
    ensures |u| == |masked| && Below(u, t)
    ensures forall i :: 0 <= i < |u| ==> u[i] == RevealedInt(masked[i], q0, t)
  {
    seq(|masked|, i requires 0 <= i < |masked| => RevealedInt(masked[i], q0, t))
  }

  ghost function RevealedInt(c: int, q0: int, t: int): (u: int)
    requires t > 0
    ensures 0 <= u < t
  {
    DivModId(Center(c, q0), t);
    Center(c, q0) % t
  }

  method Reencode(params: BgvParams, c0: RnsPoly, h0: RnsPoly, h1: RnsPoly, a: RnsPoly,
                  ghost C0: Poly, ghost H0: Poly, ghost H1: Poly) returns (r: Result<Ciphertext>)
    requires params.Valid() && |C0| == |H0| == |H1| == params.ring.degree
    requires c0 == Residues(C0, params.ring.moduli) && h0 == Residues(H0, params.ring.moduli)
    requires h1 == Residues(H1, params.ring.moduli)
    ensures r == Ok([Residues(PAdd(Revealed(PMod(PAdd(C0, H0), params.ring.moduli[0]), params.ring.moduli[0], params.t),
                                   H1),
                              params.ring.moduli), a])
  {
    hide PMod, Residues, IsPrime, TwoTo, PAdd;
    var ring, t := params.ring, params.t;
    var masked := ring.Add(c0, h0);
    ResAdd(C0, H0, ring.moduli);
    var revealed := DecodeU64(params, masked.value);
    ghost var u := Revealed(PMod(PAdd(C0, H0), ring.moduli[0]), ring.moduli[0], t);
    assert revealed.value == u;
    PaddedIsSame(revealed.value, t);
    var embedded := EncodeU64(params, revealed.value);
    var c0New := ring.Add(embedded.value, h1);
    ResAdd(u, H1, ring.moduli);
    return Ok([c0New.value, a]);
  }

  lemma PaddedIsSame(values: seq<u64>, t: int)
    requires t > 0 && Below(values, t)
    ensures PaddedValues(values, |values|, t) == values
  {
    forall i | 0 <= i < |values| ensures PaddedValues(values, |values|, t)[i] == values[i] {
      SmallMod(values[i], t);
    }
  }

  // ------------------------------------------------------------------ the theorem

  ghost function RevealShares(c1: Poly, ss: PartyPolys, e0s: PartyPolys, ms: PartyPolys, t: int): (xs: PartyPolys)
    requires |ss| == |e0s| == |ms| && Uniform(ss, |c1|) && Uniform(e0s, |c1|) && Uniform(ms, |c1|)
    ensures |xs| == |ss| && Uniform(xs, |c1|)
    ensures forall p :: 0 <= p < |xs| ==> xs[p] == RevealShare(c1, ss[p], e0s[p], ms[p], t)
  {
    seq(|ss|, p requires 0 <= p < |ss| => RevealShare(c1, ss[p], e0s[p], ms[p], t))
  }

  ghost function RefreshShares(a: Poly, ss: PartyPolys, e1s: PartyPolys, ms: PartyPolys, t: int): (ys: PartyPolys)
    requires |ss| == |e1s| == |ms| && Uniform(ss, |a|) && Uniform(e1s, |a|) && Uniform(ms, |a|)
    ensures |ys| == |ss| && Uniform(ys, |a|)
    ensures forall p :: 0 <= p < |ys| ==> ys[p] == RefreshShare(a, ss[p], e1s[p], ms[p], t)
  {
    seq(|ss|, p requires 0 <= p < |ss| => RefreshShare(a, ss[p], e1s[p], ms[p], t))
  }

  lemma {:induction false} RevealTotal(c1: Poly, ss: PartyPolys, e0s: PartyPolys, ms: PartyPolys, t: int, k: nat)
    requires |ss| == |e0s| == |ms| && Uniform(ss, |c1|) && Uniform(e0s, |c1|) && Uniform(ms, |c1|) && k <= |ss|
    ensures Total(|c1|, RevealShares(c1, ss, e0s, ms, t)[..k])
         == RevealShare(c1, Total(|c1|, ss[..k]), Total(|c1|, e0s[..k]), Total(|c1|, ms[..k]), t)
  {
    hide PMul, PAdd, PSub, PScale, Total, RevealShare;
    var n := |c1|;
    if k == 0 {
      NoParties(ss, n);
      NoParties(e0s, n);
      NoParties(ms, n);
      NoParties(RevealShares(c1, ss, e0s, ms, t), n);
      RevealZero(c1, t);
    } else {
      RevealTotal(c1, ss, e0s, ms, t, k - 1);
      TotalNext(n, ss, k - 1);
      TotalNext(n, e0s, k - 1);
      TotalNext(n, ms, k - 1);
      TotalNext(n, RevealShares(c1, ss, e0s, ms, t), k - 1);
      RevealAdds(c1, Total(n, ss[..k - 1]), Total(n, e0s[..k - 1]), Total(n, ms[..k - 1]), ss[k - 1], e0s[k - 1],
                 ms[k - 1], t);
    }
  }

  lemma RevealZero(c1: Poly, t: int)
    ensures RevealShare(c1, PZero(|c1|), PZero(|c1|), PZero(|c1|), t) == PZero(|c1|)
  {
    hide PMul;
    MulZeroRight(|c1|, c1);
  }

  lemma RevealAdds(c: Poly, s: Poly, e: Poly, m: Poly, s': Poly, e': Poly, m': Poly, t: int)
    requires |c| == |s| == |e| == |m| == |s'| == |e'| == |m'|
    ensures PAdd(RevealShare(c, s, e, m, t), RevealShare(c, s', e', m', t))
        == RevealShare(c, PAdd(s, s'), PAdd(e, e'), PAdd(m, m'), t)
  {
    hide PMul, PAdd, PSub, PScale;
    MulAddRight(c, s, s');
    ScaleAdd(t, e, e');
    SixTerms(PMul(c, s), PScale(t, e), m, PMul(c, s'), PScale(t, e'), m');
  }

  lemma SixTerms(x: Poly, y: Poly, z: Poly, x': Poly, y': Poly, z': Poly)
    requires |x| == |y| == |z| == |x'| == |y'| == |z'|
    ensures PAdd(PSub(PAdd(x, y), z), PSub(PAdd(x', y'), z')) == PSub(PAdd(PAdd(x, x'), PAdd(y, y')), PAdd(z, z'))
  {}

  lemma RefreshAdds(c: Poly, s: Poly, e: Poly, m: Poly, s': Poly, e': Poly, m': Poly, t: int)
    requires |c| == |s| == |e| == |m| == |s'| == |e'| == |m'|
    ensures PAdd(RefreshShare(c, s, e, m, t), RefreshShare(c, s', e', m', t))
        == RefreshShare(c, PAdd(s, s'), PAdd(e, e'), PAdd(m, m'), t)
  {
    hide PMul, PAdd, PSub, PScale;
    MulAddRight(c, s, s');
    ScaleAdd(t, e, e');
    SixTermsBack(PMul(c, s), PScale(t, e), m, PMul(c, s'), PScale(t, e'), m');
  }

  lemma SixTermsBack(x: Poly, y: Poly, z: Poly, x': Poly, y': Poly, z': Poly)
    requires |x| == |y| == |z| == |x'| == |y'| == |z'|
    ensures PAdd(PAdd(PSub(y, x), z), PAdd(PSub(y', x'), z')) == PAdd(PSub(PAdd(y, y'), PAdd(x, x')), PAdd(z, z'))
  {}

  lemma {:induction false} RefreshTotal(a: Poly, ss: PartyPolys, e1s: PartyPolys, ms: PartyPolys, t: int, k: nat)
    requires |ss| == |e1s| == |ms| && Uniform(ss, |a|) && Uniform(e1s, |a|) && Uniform(ms, |a|) && k <= |ss|
    ensures Total(|a|, RefreshShares(a, ss, e1s, ms, t)[..k])
         == RefreshShare(a, Total(|a|, ss[..k]), Total(|a|, e1s[..k]), Total(|a|, ms[..k]), t)
  {
    hide PMul, PAdd, PSub, PScale, Total, RefreshShare;
    var n := |a|;
    if k == 0 {
      NoParties(ss, n);
      NoParties(e1s, n);
      NoParties(ms, n);
      NoParties(RefreshShares(a, ss, e1s, ms, t), n);
      RefreshZero(a, t);
    } else {
      RefreshTotal(a, ss, e1s, ms, t, k - 1);
      TotalNext(n, ss, k - 1);
      TotalNext(n, e1s, k - 1);
      TotalNext(n, ms, k - 1);
      TotalNext(n, RefreshShares(a, ss, e1s, ms, t), k - 1);
      RefreshAdds(a, Total(n, ss[..k - 1]), Total(n, e1s[..k - 1]), Total(n, ms[..k - 1]), ss[k - 1], e1s[k - 1],
                  ms[k - 1], t);
    }
  }

  lemma RefreshZero(a: Poly, t: int)
    ensures RefreshShare(a, PZero(|a|), PZero(|a|), PZero(|a|), t) == PZero(|a|)
  {
    hide PMul;
    MulZeroRight(|a|, a);
  }

  /** Every mask is in [0, t), so the sum of the masks is at most n (t - 1). */
  lemma {:induction false} MaskBound(ms: PartyPolys, n: nat, t: int, i: nat)
    requires Uniform(ms, n) && i < n && t > 0 && forall p :: 0 <= p < |ms| ==> Below(ms[p], t)
    ensures 0 <= Total(n, ms)[i] <= MaskTotal(|ms|, t)
  {
    if |ms| > 0 {
      var k := |ms| - 1;
      MaskBound(ms[..k], n, t, i);
      assert |ms| * (t - 1) == k * (t - 1) + (t - 1);
      assert Below(ms[k], t);
    }
  }

  ghost function MaskTotal(parties: nat, t: int): int {
    parties * (t - 1)
  }

  /** What remains after the masks cancel: u + M = m + t w with 0 <= w <= number of parties. */
  ghost function Wrap(u: int, M: int, m: int, t: int): int
    requires t > 0
  {
    (u + M - m) / t
  }

  lemma WrapBound(v: int, m: int, nu: int, M: int, u: int, t: int, parties: nat)
    requires t > 0 && 0 <= m < t && 0 <= M <= parties * (t - 1)
    requires v == m + t * nu - M && u == v % t
    ensures u + M == m + t * Wrap(u, M, m, t) && 0 <= Wrap(u, M, m, t) <= parties
  {
    DivModId(v, t);
    var w := nu - v / t;
    assert t * nu - v / t * t == w * t;
    DivModUnique(u + M - m, t, w, 0);
    assert (parties + 1) * t == parties * (t - 1) + parties + t;
    if w < 0 {
      MulMono(w, -1, t);
    } else if w > parties {
      MulMono(parties + 1, w, t);
    }
    IntMulComm(t, w);
  }

  ghost function Wraps(u: Poly, M: Poly, m: Poly, t: int): (w: Poly)
    requires |u| == |M| == |m| && t > 0
    ensures |w| == |u| && forall i :: 0 <= i < |w| ==> w[i] == Wrap(u[i], M[i], m[i], t)
  {
    seq(|u|, i requires 0 <= i < |u| => Wrap(u[i], M[i], m[i], t))
  }

  /** The value the combiner sees: m + t (nu + E0) - M, never more. */
  ghost function MaskedValue(m: Poly, nu: Poly, E0: Poly, M: Poly, t: int): (v: Poly)
    requires |m| == |nu| == |E0| == |M|
    ensures |v| == |m|
  {
    PSub(PAdd(m, PScale(t, PAdd(nu, E0))), M)
  }

  /** The combined shares unmask to the masked value, modulo Q. */
  lemma MaskedIsCombined(c0: Poly, c1: Poly, s: Poly, m: Poly, nu: Poly, E0: Poly, M: Poly, t: int, Q: int)
    requires |c0| == |c1| == |s| == |m| == |nu| == |E0| == |M|
    requires PCong(Phase2(c0, c1, s), PAdd(m, PScale(t, nu)), Q)
    ensures PCong(PAdd(c0, RevealShare(c1, s, E0, M, t)), MaskedValue(m, nu, E0, M, t), Q)
  {
    hide PMul, PAdd, PScale, PSub, PCong;
    var x := PMul(c1, s);
    Regroup(c0, x, PScale(t, E0), M);
    ScaleAdd(t, nu, E0);
    var e := PSub(PScale(t, E0), M);
    PCongRefl(e, Q);
    PCongAdd(PAdd(c0, x), PAdd(m, PScale(t, nu)), e, e, Q);
    RegroupValue(m, PScale(t, nu), PScale(t, E0), M);
  }

  lemma Regroup(c: Poly, x: Poly, e: Poly, m: Poly)
    requires |c| == |x| == |e| == |m|
    ensures PAdd(c, PSub(PAdd(x, e), m)) == PAdd(PAdd(c, x), PSub(e, m))
  {}

  lemma RegroupValue(m: Poly, x: Poly, y: Poly, M: Poly)
    requires |m| == |x| == |y| == |M|
    ensures PAdd(PAdd(m, x), PSub(y, M)) == PSub(PAdd(m, PAdd(x, y)), M)
  {}

  /** For any number of parties: the output (u + sum h1, a) decrypts exactly to m + t (E1 + w). */
  lemma BootstrapCorrect(c0: Poly, c1: Poly, a: Poly, m: Poly, nu: Poly, ss: PartyPolys, e0s: PartyPolys,
                         e1s: PartyPolys,
                         ms: PartyPolys, t: int, qs: seq<int>)
    requires |qs| > 0 && Moduli(qs) && t > 0 && |c0| == |c1| == |a| == |m| == |nu| && Below(m, t)
    requires |ss| == |e0s| == |e1s| == |ms|
    requires Uniform(ss, |m|) && Uniform(e0s, |m|) && Uniform(e1s, |m|) && Uniform(ms, |m|)
    requires forall p :: 0 <= p < |ms| ==> Below(ms[p], t)
    requires PCong(Phase2(c0, c1, Total(|m|, ss)), PAdd(m, PScale(t, nu)), Product(qs))
    requires WithinHalf(MaskedValue(m, nu, Total(|m|, e0s), Total(|m|, ms), t), qs[0])
    ensures var n := |m|;
      var masked := PMod(PAdd(c0, Total(n, RevealShares(c1, ss, e0s, ms, t))), qs[0]);
      var u := Revealed(masked, qs[0], t);
      var w := Wraps(u, Total(n, ms), m, t);
      && Phase2(PAdd(u, Total(n, RefreshShares(a, ss, e1s, ms, t))), a, Total(n, ss))
           == PAdd(m, PScale(t, PAdd(Total(n, e1s), w)))
      && forall i :: 0 <= i < n ==> 0 <= w[i] <= |ss|
  {
    hide PMul, PAdd, PSub, PScale, PCong, Total, Product, PMod, Phase2, RevealShares, RefreshShares, RevealShare,
      RefreshShare, MaskedValue, Revealed, Wraps, UnmasksAt;
    var n, s, E0, E1, M := |m|, Total(|m|, ss), Total(|m|, e0s), Total(|m|, e1s), Total(|m|, ms);
    RevealTotals(c1, ss, e0s, ms, t);
    RefreshTotals(a, ss, e1s, ms, t);
    MaskedIsCombined(c0, c1, s, m, nu, E0, M, t, Product(qs));
    FirstComponent(PAdd(c0, RevealShare(c1, s, E0, M, t)), MaskedValue(m, nu, E0, M, t), qs);
    RevealedValue(m, nu, E0, ms, t, qs[0]);
    var u := Revealed(PMod(MaskedValue(m, nu, E0, M, t), qs[0]), qs[0], t);
    SumsAgree(u, M, m, Wraps(u, M, m, t), t, |ms|);
    UnmaskedPhase(u, m, E1, M, Wraps(u, M, m, t), a, s, t);
  }

  lemma RevealTotals(c1: Poly, ss: PartyPolys, e0s: PartyPolys, ms: PartyPolys, t: int)
    requires |ss| == |e0s| == |ms| && Uniform(ss, |c1|) && Uniform(e0s, |c1|) && Uniform(ms, |c1|)
    ensures Total(|c1|, RevealShares(c1, ss, e0s, ms, t))
         == RevealShare(c1, Total(|c1|, ss), Total(|c1|, e0s), Total(|c1|, ms), t)
  {
    hide Total, RevealShare;
    RevealTotal(c1, ss, e0s, ms, t, |ss|);
    assert ss[..|ss|] == ss && e0s[..|ss|] == e0s && ms[..|ss|] == ms;
    assert RevealShares(c1, ss, e0s, ms, t)[..|ss|] == RevealShares(c1, ss, e0s, ms, t);
  }

  lemma RefreshTotals(a: Poly, ss: PartyPolys, e1s: PartyPolys, ms: PartyPolys, t: int)
    requires |ss| == |e1s| == |ms| && Uniform(ss, |a|) && Uniform(e1s, |a|) && Uniform(ms, |a|)
    ensures Total(|a|, RefreshShares(a, ss, e1s, ms, t))
         == RefreshShare(a, Total(|a|, ss), Total(|a|, e1s), Total(|a|, ms), t)
  {
    hide Total, RefreshShare;
    RefreshTotal(a, ss, e1s, ms, t, |ss|);
    assert ss[..|ss|] == ss && e1s[..|ss|] == e1s && ms[..|ss|] == ms;
    assert RefreshShares(a, ss, e1s, ms, t)[..|ss|] == RefreshShares(a, ss, e1s, ms, t);
  }

  lemma FirstComponent(x: Poly, v: Poly, qs: seq<int>)
    requires |qs| > 0 && Moduli(qs) && PCong(x, v, Product(qs))
    ensures PMod(x, qs[0]) == PMod(v, qs[0])
  {
    hide PMod, Cong, Product;
    ResiduesCong(x, v, qs);
    assert PMod(x, qs[0]) == Residues(x, qs)[0] && PMod(v, qs[0]) == Residues(v, qs)[0];
  }

  /** Reading the masked value modulo t and adding the masks gives m plus a small multiple of t. */
  lemma RevealedValue(m: Poly, nu: Poly, E0: Poly, ms: PartyPolys, t: int, q0: int)
    requires t > 0 && q0 > 0 && |m| == |nu| == |E0| && Below(m, t) && Uniform(ms, |m|)
    requires forall p :: 0 <= p < |ms| ==> Below(ms[p], t)
    requires WithinHalf(MaskedValue(m, nu, E0, Total(|m|, ms), t), q0)
    ensures var M, u := Total(|m|, ms), Revealed(PMod(MaskedValue(m, nu, E0, Total(|m|, ms), t), q0), q0, t);
      forall i :: 0 <= i < |m| ==> UnmasksAt(u, M, m, Wraps(u, M, m, t), t, |ms|, i)
  {
    hide Total, Revealed, Wraps, MaskedValue, PMod, Below, UnmasksAt, WithinHalf;
    var n, M := |m|, Total(|m|, ms);
    var u := Revealed(PMod(MaskedValue(m, nu, E0, M, t), q0), q0, t);
    forall i | 0 <= i < n ensures UnmasksAt(u, M, m, Wraps(u, M, m, t), t, |ms|, i) {
      RevealedCoefficient(m, nu, E0, ms, t, q0, i);
    }
  }

  ghost predicate UnmasksAt(u: Poly, M: Poly, m: Poly, w: Poly, t: int, parties: nat, i: nat)
    requires |u| == |M| == |m| == |w| && i < |u|
  {
    Unmasks(u[i], M[i], m[i], w[i], t, parties)
  }

  ghost predicate Unmasks(u: int, M: int, m: int, w: int, t: int, parties: nat) {
    u + M == m + t * w && 0 <= w <= parties
  }

  lemma RevealedCoefficient(m: Poly, nu: Poly, E0: Poly, ms: PartyPolys, t: int, q0: int, i: nat)
    requires t > 0 && q0 > 0 && |m| == |nu| == |E0| && Below(m, t) && Uniform(ms, |m|) && i < |m|
    requires forall p :: 0 <= p < |ms| ==> Below(ms[p], t)
    requires WithinHalf(MaskedValue(m, nu, E0, Total(|m|, ms), t), q0)
    ensures var M, u := Total(|m|, ms), Revealed(PMod(MaskedValue(m, nu, E0, Total(|m|, ms), t), q0), q0, t);
      UnmasksAt(u, M, m, Wraps(u, M, m, t), t, |ms|, i)
  {
    hide Total, RevealedInt, Wrap, MaskedValue, MaskedCoefficient, MaskTotal, Unmasks;
    MaskBound(ms, |m|, t, i);
    var M := Total(|m|, ms);
    var v := MaskedValue(m, nu, E0, M, t);
    MaskedAt(m, nu, E0, M, t, i);
    RevealedAt(v[i], m[i], nu[i], E0[i], M[i], t, q0, |ms|);
  }

  lemma RevealedAt(v: int, m: int, nu: int, e: int, M: int, t: int, q0: int, parties: nat)
    requires t > 0 && q0 > 0 && 0 <= m < t && 0 <= M <= MaskTotal(parties, t)
    requires v == MaskedCoefficient(m, nu, e, M, t) && -q0 < 2 * v < q0
    ensures var u := RevealedInt(v % q0, q0, t); Unmasks(u, M, m, Wrap(u, M, m, t), t, parties)
  {
    hide Center, Wrap;
    CenterOfSmall(v, q0);
    WrapBound(v, m, nu + e, M, v % t, t, parties);
  }

  lemma MaskedAt(m: Poly, nu: Poly, E0: Poly, M: Poly, t: int, i: nat)
    requires |m| == |nu| == |E0| == |M| && i < |m|
    ensures MaskedValue(m, nu, E0, M, t)[i] == MaskedCoefficient(m[i], nu[i], E0[i], M[i], t)
  {}

  ghost function MaskedCoefficient(m: int, nu: int, e: int, M: int, t: int): int {
    m + t * (nu + e) - M
  }

  lemma SumsAgree(u: Poly, M: Poly, m: Poly, w: Poly, t: int, parties: nat)
    requires |u| == |M| == |m| == |w| && forall i :: 0 <= i < |u| ==> UnmasksAt(u, M, m, w, t, parties, i)
    ensures PAdd(u, M) == PAdd(m, PScale(t, w)) && forall i :: 0 <= i < |u| ==> 0 <= w[i] <= parties
  {
    forall i | 0 <= i < |u| ensures PAdd(u, M)[i] == PAdd(m, PScale(t, w))[i] && 0 <= w[i] <= parties {
      assert UnmasksAt(u, M, m, w, t, parties, i);
    }
  }

  lemma UnmaskedPhase(u: Poly, m: Poly, E1: Poly, M: Poly, w: Poly, a: Poly, s: Poly, t: int)
    requires |u| == |m| == |E1| == |M| == |w| == |a| == |s|
    requires PAdd(u, M) == PAdd(m, PScale(t, w))
    ensures Phase2(PAdd(u, RefreshShare(a, s, E1, M, t)), a, s) == PAdd(m, PScale(t, PAdd(E1, w)))
  {
    hide PMul, PAdd, PSub, PScale;
    Unmask(u, PScale(t, E1), PMul(a, s), M);
    ScaleAdd(t, E1, w);
    Swap(m, PScale(t, w), PScale(t, E1));
  }

  lemma Unmask(u: Poly, e: Poly, x: Poly, M: Poly)
    requires |u| == |e| == |x| == |M|
    ensures PAdd(PAdd(u, PAdd(PSub(e, x), M)), x) == PAdd(PAdd(u, M), e)
  {}

  lemma Swap(m: Poly, x: Poly, y: Poly)
    requires |m| == |x| == |y|
    ensures PAdd(PAdd(m, x), y) == PAdd(m, PAdd(y, x))
  {}

  /** Decoding the refreshed ciphertext returns m while the fresh noise fits. */
  lemma BootstrapDecodes(m: Poly, E1: Poly, w: Poly, c: seq<u64>, q0: u64, t: u64)
    requires t > 0 && q0 > 0 && |m| == |E1| == |w| && Below(m, t)
    requires WithinHalf(PAdd(m, PScale(t, PAdd(E1, w))), q0) && c == PMod(PAdd(m, PScale(t, PAdd(E1, w))), q0)
    ensures SignedPoly(c, q0, t) == m
  {
    hide PMod, SignedPoly, Cong;
    var x, k := PAdd(m, PScale(t, PAdd(E1, w))), PAdd(E1, w);
    SignedPolyMeaning(x, c, q0, t);
    PCongBy(x, m, t, k);
    PModEq(x, m, t);
    PModOfBelow(m, t);
  }
}
