/** BGV collective relinearization keys: two rounds of shares, summed over all parties. */
module MpbgvRkg {
  import opened Integers
  import opened NumberTheory
  import opened Results
  import opened Negacyclic
  import opened Rns
  import opened Crt
  import opened PolySums
  import opened Rings
  import opened Rlwe
  import opened Gadget
  import opened Collective
  import opened Hybrid
  import opened Shares
  import Rgsw
  import RnsExtension

  // ------------------------------------------------------------------ summing rows

  /** A share's rows are the residues of these polynomials. */
  ghost predicate PayloadIs(payload: seq<RowPair>, xs: seq<Poly>, ys: seq<Poly>, n: nat, qs: seq<int>)
    requires Moduli(qs)
  {
    |xs| == |ys| == |payload| && forall j :: 0 <= j < |payload| ==> RowIs(payload[j], xs[j], ys[j], n, qs)
  }

  /** Component `j` of every party. */
  ghost function PartyColumn(xs: seq<seq<Poly>>, j: nat): (c: PartyPolys)
    requires forall p :: 0 <= p < |xs| ==> j < |xs[p]|
    ensures |c| == |xs| && forall p :: 0 <= p < |xs| ==> c[p] == xs[p][j]
  {
    seq(|xs|, p requires 0 <= p < |xs| => xs[p][j])
  }

  ghost predicate Rectangle(xs: seq<seq<Poly>>, m: nat, n: nat) {
    forall p :: 0 <= p < |xs| ==> |xs[p]| == m && Uniform(xs[p], n)
  }

  lemma PartyColumnNext(xs: seq<seq<Poly>>, j: nat, p: nat, m: nat, n: nat)
    requires p < |xs| && j < m && Rectangle(xs[..p + 1], m, n)
    ensures Rectangle(xs[..p], m, n) && Uniform(PartyColumn(xs[..p], j), n) && Uniform(PartyColumn(xs[..p + 1], j), n)
    ensures |xs[p][j]| == n
    ensures Total(n, PartyColumn(xs[..p + 1], j)) == PAdd(Total(n, PartyColumn(xs[..p], j)), xs[p][j])
  {
    hide Total, PAdd;
    assert forall k :: 0 <= k < p ==> xs[..p][k] == xs[..p + 1][k];
    assert xs[..p + 1][p] == xs[p];
    var c := PartyColumn(xs[..p + 1], j);
    assert c[..p] == PartyColumn(xs[..p], j);
    assert c[..p + 1] == c;
    TotalNext(n, c, p);
  }

  /** Summed rows: component `j` is the sum over the first `p` parties. */
  ghost predicate SummedRows(rows: seq<RowPair>, xs: seq<seq<Poly>>, ys: seq<seq<Poly>>, m: nat, n: nat, qs: seq<int>)
    requires Moduli(qs)
  {
    && |rows| == m && |xs| == |ys| && Rectangle(xs, m, n) && Rectangle(ys, m, n)
    && forall j :: 0 <= j < m ==> SummedRow(rows[j], xs, ys, j, n, qs)
  }

  ghost predicate SummedRow(row: RowPair, xs: seq<seq<Poly>>, ys: seq<seq<Poly>>, j: nat, n: nat, qs: seq<int>)
    requires Moduli(qs) && |xs| == |ys|
    requires forall p :: 0 <= p < |xs| ==> j < |xs[p]| && |xs[p][j]| == n
    requires forall p :: 0 <= p < |ys| ==> j < |ys[p]| && |ys[p][j]| == n
  {
    RowIs(row, Total(n, PartyColumn(xs, j)), Total(n, PartyColumn(ys, j)), n, qs)
  }

  lemma FirstShare(rows: seq<RowPair>, xs: seq<seq<Poly>>, ys: seq<seq<Poly>>, n: nat, qs: seq<int>)
    requires Moduli(qs) && |xs| == |ys| && |xs| > 0 && PayloadIs(rows, xs[0], ys[0], n, qs)
    ensures SummedRows(rows, xs[..1], ys[..1], |rows|, n, qs)
  {
    hide Total, Residues;
    var m := |rows|;
    forall j | 0 <= j < m ensures |xs[0][j]| == |ys[0][j]| == n {
      assert RowIs(rows[j], xs[0][j], ys[0][j], n, qs);
    }
    assert Rectangle(xs[..1], m, n) && Rectangle(ys[..1], m, n);
    forall j | 0 <= j < m ensures SummedRow(rows[j], xs[..1], ys[..1], j, n, qs) {
      assert RowIs(rows[j], xs[0][j], ys[0][j], n, qs);
      SingleParty(xs[0][j], PartyColumn(xs[..1], j), n);
      SingleParty(ys[0][j], PartyColumn(ys[..1], j), n);
    }
  }

  lemma SingleParty(x: Poly, c: PartyPolys, n: nat)
    requires |x| == n && |c| == 1 && c[0] == x
    ensures Total(n, c) == x
  {
    assert c[..0] == [];
    AddZero(x);
  }

  /** Adds one share's rows to the accumulated rows. */
  method AddRows(ring: Ring, accumulated: seq<RowPair>, rows: seq<RowPair>, ghost p: nat,
                 ghost xs: seq<seq<Poly>>, ghost ys: seq<seq<Poly>>) returns (next: seq<RowPair>)
    requires ring.Valid() && |xs| == |ys| && p < |xs| && |accumulated| == |rows|
    requires SummedRows(accumulated, xs[..p], ys[..p], |rows|, ring.degree, ring.moduli)
    requires PayloadIs(rows, xs[p], ys[p], ring.degree, ring.moduli)
    ensures SummedRows(next, xs[..p + 1], ys[..p + 1], |rows|, ring.degree, ring.moduli)
  {
    hide Total, Residues, TwoTo, PMod, SummedRow, PartyColumn;
    var n, m := ring.degree, |rows|;
    NextRectangle(rows, xs, ys, p, n, ring.moduli);
    next := [];
    for j := 0 to m
      invariant |next| == j
      invariant forall k :: 0 <= k < j ==> SummedRow(next[k], xs[..p + 1], ys[..p + 1], k, n, ring.moduli)
    {
      assert SummedRow(accumulated[j], xs[..p], ys[..p], j, n, ring.moduli);
      var row := AddRow(ring, accumulated[j], rows[j], p, j, m, xs, ys);
      next := next + [row];
    }
  }

  lemma NextRectangle(rows: seq<RowPair>, xs: seq<seq<Poly>>, ys: seq<seq<Poly>>, p: nat, n: nat, qs: seq<int>)
    requires Moduli(qs) && |xs| == |ys| && p < |xs| && PayloadIs(rows, xs[p], ys[p], n, qs)
    requires Rectangle(xs[..p], |rows|, n) && Rectangle(ys[..p], |rows|, n)
    ensures Rectangle(xs[..p + 1], |rows|, n) && Rectangle(ys[..p + 1], |rows|, n)
  {
    hide Residues;
    forall j | 0 <= j < |rows| ensures |xs[p][j]| == |ys[p][j]| == n {
      assert RowIs(rows[j], xs[p][j], ys[p][j], n, qs);
    }
    assert forall k :: 0 <= k < p ==> xs[..p][k] == xs[k] && ys[..p][k] == ys[k];
    var xs', ys' := xs[..p + 1], ys[..p + 1];
    forall k | 0 <= k < |xs'|
      ensures |xs'[k]| == |ys'[k]| == |rows| && Uniform(xs'[k], n) && Uniform(ys'[k], n)
    {
      if k < p {
        assert xs'[k] == xs[..p][k] && ys'[k] == ys[..p][k];
      }
    }
  }

  method AddRow(ring: Ring, acc: RowPair, row: RowPair, ghost p: nat, ghost j: nat, ghost m: nat,
                ghost xs: seq<seq<Poly>>, ghost ys: seq<seq<Poly>>) returns (next: RowPair)
    requires ring.Valid() && |xs| == |ys| && p < |xs| && j < m
    requires Rectangle(xs[..p], m, ring.degree) && Rectangle(ys[..p], m, ring.degree)
    requires Rectangle(xs[..p + 1], m, ring.degree) && Rectangle(ys[..p + 1], m, ring.degree)
    requires SummedRow(acc, xs[..p], ys[..p], j, ring.degree, ring.moduli)
    requires |xs[p]| == |ys[p]| == m && RowIs(row, xs[p][j], ys[p][j], ring.degree, ring.moduli)
    ensures SummedRow(next, xs[..p + 1], ys[..p + 1], j, ring.degree, ring.moduli)
  {
    hide Total, Residues, TwoTo, PMod, PartyColumn, PAdd;
    var n := ring.degree;
    PartyColumnNext(xs, j, p, m, n);
    PartyColumnNext(ys, j, p, m, n);
    var first := ring.Add(acc.0, row.0);
    ResAdd(Total(n, PartyColumn(xs[..p], j)), xs[p][j], ring.moduli);
    var second := ring.Add(acc.1, row.1);
    ResAdd(Total(n, PartyColumn(ys[..p], j)), ys[p][j], ring.moduli);
    next := (first.value, second.value);
  }

  /** Sums every collected share, row by row; shares of different lengths are refused. */
  method SumRows(ring: Ring, aggregator: ShareAggregator<seq<RowPair>>, ghost xs: seq<seq<Poly>>,
                 ghost ys: seq<seq<Poly>>)
    returns (r: Result<seq<RowPair>>)
    requires ring.Valid() && aggregator.Valid() && |xs| == |ys| == |aggregator.shares|
    requires forall p :: 0 <= p < |xs| ==>
               PayloadIs(aggregator.shares[p].payload, xs[p], ys[p], ring.degree, ring.moduli)
    ensures |xs| < aggregator.session.threshold ==> r == Err(ThresholdNotMet)
    ensures aggregator.session.threshold <= |xs| && |xs| == 0 ==> r == Err(MissingShare)
    ensures aggregator.session.threshold <= |xs| && |xs| > 0 ==>
              if forall p :: 0 <= p < |xs| ==> |xs[p]| == |xs[0]|
              then r.Ok? && SummedRows(r.value, xs, ys, |xs[0]|, ring.degree, ring.moduli)
              else r == Err(MalformedMessage)
  {
    hide Total, Residues, TwoTo, PMod, PartyColumn, SummedRow;
    var shares :- aggregator.AllShares();
    var summed: Option<seq<RowPair>> := None;
    for p := 0 to |shares|
      invariant p == 0 <==> summed.None?
      invariant forall k :: 0 <= k < p ==> |xs[k]| == |xs[0]|
      invariant summed.Some? ==> SummedRows(summed.value, xs[..p], ys[..p], |xs[0]|, ring.degree, ring.moduli)
    {
      var rows := shares[p].payload;
      assert PayloadIs(aggregator.shares[p].payload, xs[p], ys[p], ring.degree, ring.moduli);
      if summed.None? {
        FirstShare(rows, xs, ys, ring.degree, ring.moduli);
        summed := Some(rows);
      } else {
        if |summed.value| != |rows| {
          return Err(MalformedMessage);
        }
        var next := AddRows(ring, summed.value, rows, p, xs, ys);
        summed := Some(next);
      }
    }
    if summed.None? {
      return Err(MissingShare);
    }
    assert xs[..|xs|] == xs && ys[..|ys|] == ys;
    return Ok(summed.value);
  }

  // -------------------------------------------------------------------- the rounds

  /** One participant's round-1 share: an encryption of every scaled secret under the collective key. */
  method CreateShareRound1(ring: Ring, t: u64, params: GadgetParams, session: SessionState, participant: nat,
                           cpk: RowPair, sk: RnsPoly, us: seq<RnsPoly>, e0s: seq<RnsPoly>, e1s: seq<RnsPoly>,
                           ghost B: Poly, ghost A: Poly, ghost s: Poly,
                           ghost U: seq<Poly>, ghost E0: seq<Poly>, ghost E1: seq<Poly>)
    returns (r: Result<Share<seq<RowPair>>>)
    requires ring.Sound() && PrimeBasis(ring.moduli) && params.Valid()
    requires RowIs(cpk, B, A, ring.degree, ring.moduli) && |s| == ring.degree && sk == Residues(s, ring.moduli)
    requires 0 <= |ring.moduli| * params.levels
    requires Sampled(us, U, |ring.moduli| * params.levels, ring.degree, ring.moduli)
    requires Sampled(e0s, E0, |ring.moduli| * params.levels, ring.degree, ring.moduli)
    requires Sampled(e1s, E1, |ring.moduli| * params.levels, ring.degree, ring.moduli)
    ensures r.Ok? <==> participant in session.participants
    ensures r.Ok? ==>
              var gs := CodeWeights(ring.moduli, params);
              && r.value.CheckForSession(session, RelinearizationKeyGen).None? && r.value.participant == participant
              && |r.value.payload| == |gs| && forall i :: 0 <= i < |gs| ==>
                   Round1Is(r.value.payload[i], B, A, s, gs[i], t, U, E0, E1, i, ring)
    ensures r.Err? ==> r.error == UnknownParticipant
  {
    hide PMul, PMod, Residues, IsPrime, TwoTo, Ring.Sound, LiftConstant, CodeWeight, Masked, PScale, PAdd;
    SoundIsValid(ring);
    ghost var gs := CodeWeights(ring.moduli, params);
    var rows: seq<RowPair> := [];
    for index := 0 to |ring.moduli|
      invariant |rows| == index * params.levels <= |gs|
      invariant forall i :: 0 <= i < |rows| ==> Round1Is(rows[i], B, A, s, gs[i], t, U, E0, E1, i, ring)
    {
      var lift := RnsExtension.CrtLiftConstant(ring.moduli, index, ring.moduli);
      for level := 0 to params.levels
        invariant |rows| == index * params.levels + level <= |gs|
        invariant forall i :: 0 <= i < |rows| ==> Round1Is(rows[i], B, A, s, gs[i], t, U, E0, E1, i, ring)
      {
        PrefixFits(index, params.levels, level, |ring.moduli|);
        var i := index * params.levels + level;
        var scaled := Rgsw.ScaleByBasePowerAndLift(ring, sk, params, level, lift.value, index, s);
        SampledAt(us, U, |gs|, ring.degree, ring.moduli, i);
        SampledAt(e0s, E0, |gs|, ring.degree, ring.moduli, i);
        SampledAt(e1s, E1, |gs|, ring.degree, ring.moduli, i);
        var row := ScaledNoiseRow(ring, t, cpk, scaled, us[i], e0s[i], e1s[i], B, A, PScale(gs[i], s), U[i], E0[i],
                                  E1[i]);
        rows := rows + [row];
      }
      assert (index + 1) * params.levels == index * params.levels + params.levels;
      PrefixFits(index, params.levels, params.levels, |ring.moduli|);
    }
    r := NewShare(session, participant, RelinearizationKeyGen, rows);
  }

  ghost predicate Round1Is(row: RowPair, B: Poly, A: Poly, s: Poly, g: int, t: int,
                           U: seq<Poly>, E0: seq<Poly>, E1: seq<Poly>, i: nat, ring: Ring)
    requires |B| == |A| == |s| == ring.degree && i < |U| && i < |E0| && i < |E1|
  {
    && |U[i]| == |E0[i]| == |E1[i]| == ring.degree
    && RowIs(row, Masked(B, U[i], PScale(t, E0[i]), PScale(g, s)), PAdd(PMul(A, U[i]), PScale(t, E1[i])), ring.degree,
             ring.moduli)
  }

  /** A round-1 row whose errors are multiplied by the plaintext modulus. */
  method ScaledNoiseRow(ring: Ring, t: u64, cpk: RowPair, scaled: RnsPoly, u: RnsPoly, e0: RnsPoly, e1: RnsPoly,
                        ghost B: Poly, ghost A: Poly, ghost X: Poly, ghost U: Poly, ghost E0: Poly, ghost E1: Poly)
    returns (row: RowPair)
    requires ring.Sound() && |X| == |U| == |E0| == |E1| == ring.degree && RowIs(cpk, B, A, ring.degree, ring.moduli)
    requires scaled == Residues(X, ring.moduli) && u == Residues(U, ring.moduli)
    requires e0 == Residues(E0, ring.moduli) && e1 == Residues(E1, ring.moduli)
    ensures RowIs(row, Masked(B, U, PScale(t, E0), X), PAdd(PMul(A, U), PScale(t, E1)), ring.degree, ring.moduli)
  {
    hide PMul, PMod, Residues, IsPrime, TwoTo, Ring.Sound, Masked, PScale, PAdd;
    SoundIsValid(ring);
    var te0 := ring.ScalarMul(e0, t);
    ResScale(t, E0, ring.moduli);
    var te1 := ring.ScalarMul(e1, t);
    ResScale(t, E1, ring.moduli);
    row := Round1Row(ring, cpk.0, cpk.1, scaled, u, te0.value, te1.value, B, A, X, U, PScale(t, E0), PScale(t, E1));
  }

  /** One participant's round-2 share, folding its secret into the public round-1 aggregate. */
  method CreateShareRound2(ring: Ring, t: u64, session: SessionState, participant: nat, cpk: RowPair, sk: RnsPoly,
                           round1: seq<RowPair>, vs: seq<RnsPoly>, e2s: seq<RnsPoly>, e3s: seq<RnsPoly>,
                           ghost B: Poly, ghost A: Poly, ghost s: Poly, ghost H0: seq<Poly>, ghost H1: seq<Poly>,
                           ghost V: seq<Poly>, ghost E2: seq<Poly>, ghost E3: seq<Poly>)
    returns (r: Result<Share<seq<RowPair>>>)
    requires ring.Sound() && RowIs(cpk, B, A, ring.degree, ring.moduli) && |s| == ring.degree
    requires sk == Residues(s, ring.moduli)
    requires PayloadIs(round1, H0, H1, ring.degree, ring.moduli)
    requires Sampled(vs, V, |round1|, ring.degree, ring.moduli)
    requires Sampled(e2s, E2, |round1|, ring.degree, ring.moduli)
    requires Sampled(e3s, E3, |round1|, ring.degree, ring.moduli)
    ensures r.Ok? <==> participant in session.participants
    ensures r.Ok? ==>
              && r.value.CheckForSession(session.AdvanceRound(), RelinearizationKeyGen).None? &&
                  r.value.participant == participant
              && |r.value.payload| == |round1| && forall i :: 0 <= i < |round1| ==>
                   Round2Is(r.value.payload[i], B, A, s, t, H0, H1, V, E2, E3, i, ring)
    ensures r.Err? ==> r.error == UnknownParticipant
  {
    hide PMul, PMod, Residues, IsPrime, TwoTo, Ring.Sound, PScale, PAdd, Round2Is;
    SoundIsValid(ring);
    var rows: seq<RowPair> := [];
    for i := 0 to |round1|
      invariant |rows| == i
      invariant forall k :: 0 <= k < i ==> Round2Is(rows[k], B, A, s, t, H0, H1, V, E2, E3, k, ring)
    {
      SampledAt(vs, V, |round1|, ring.degree, ring.moduli, i);
      SampledAt(e2s, E2, |round1|, ring.degree, ring.moduli, i);
      SampledAt(e3s, E3, |round1|, ring.degree, ring.moduli, i);
      assert RowIs(round1[i], H0[i], H1[i], ring.degree, ring.moduli);
      var row := ScaledRound2Row(ring, t, cpk, sk, round1[i], vs[i], e2s[i], e3s[i], B, A, s, H0, H1, V, E2, E3, i);
      rows := rows + [row];
    }
    r := NewShare(session.AdvanceRound(), participant, RelinearizationKeyGen, rows);
  }

  ghost predicate Round2Is(row: RowPair, B: Poly, A: Poly, s: Poly, t: int, H0: seq<Poly>, H1: seq<Poly>,
                           V: seq<Poly>, E2: seq<Poly>, E3: seq<Poly>, i: nat, ring: Ring)
    requires |B| == |A| == |s| == ring.degree && i < |H0| && i < |H1| && i < |V| && i < |E2| && i < |E3|
  {
    && |H0[i]| == |H1[i]| == |V[i]| == |E2[i]| == |E3[i]| == ring.degree
    && RowIs(row, PAdd(PAdd(PMul(s, H0[i]), PMul(B, V[i])), PScale(t, E2[i])),
             PAdd(PAdd(PMul(s, H1[i]), PMul(A, V[i])), PScale(t, E3[i])), ring.degree, ring.moduli)
  }

  method ScaledRound2Row(ring: Ring, t: u64, cpk: RowPair, sk: RnsPoly, h: RowPair, v: RnsPoly, e2: RnsPoly,
                         e3: RnsPoly,
                         ghost B: Poly, ghost A: Poly, ghost s: Poly, ghost H0: seq<Poly>, ghost H1: seq<Poly>,
                         ghost V: seq<Poly>, ghost E2: seq<Poly>, ghost E3: seq<Poly>,
                         ghost i: nat) returns (row: RowPair)
    requires ring.Sound() && RowIs(cpk, B, A, ring.degree, ring.moduli) && |s| == ring.degree
    requires sk == Residues(s, ring.moduli)
    requires i < |H0| && i < |H1| && i < |V| && i < |E2| && i < |E3|
    requires RowIs(h, H0[i], H1[i], ring.degree, ring.moduli) && |V[i]| == |E2[i]| == |E3[i]| == ring.degree
    requires v == Residues(V[i], ring.moduli) && e2 == Residues(E2[i], ring.moduli)
    requires e3 == Residues(E3[i], ring.moduli)
    ensures Round2Is(row, B, A, s, t, H0, H1, V, E2, E3, i, ring)
  {
    hide PMul, PMod, Residues, IsPrime, TwoTo, Ring.Sound, PScale, PAdd;
    SoundIsValid(ring);
    var te2 := ring.ScalarMul(e2, t);
    ResScale(t, E2[i], ring.moduli);
    var te3 := ring.ScalarMul(e3, t);
    ResScale(t, E3[i], ring.moduli);
    var first := Round2Component(ring, sk, h.0, cpk.0, v, te2.value, s, H0[i], B, V[i], PScale(t, E2[i]));
    var second := Round2Component(ring, sk, h.1, cpk.1, v, te3.value, s, H1[i], A, V[i], PScale(t, E3[i]));
    row := (first, second);
  }

  // ------------------------------------------------------------------- the theorem

  /** Errors multiplied by t. */
  ghost function ScaledErrors(row: RkgRow, t: int, n: nat): (r: RkgRow)
    requires row.Sized(|row.us|, n)
    ensures r.Sized(|row.us|, n)
  {
    RkgRow(row.us, ScaledSecrets(t, row.e0s, n), ScaledSecrets(t, row.e1s, n), row.vs,
           ScaledSecrets(t, row.e2s, n), ScaledSecrets(t, row.e3s, n))
  }

  /** The noise of a row with t-scaled errors is t times the noise of the unscaled row. */
  lemma NoiseScales(s: Poly, ePk: Poly, U: Poly, E0: Poly, E1: Poly, V: Poly, E2: Poly, E3: Poly, t: int)
    requires |s| == |ePk| == |U| == |E0| == |E1| == |V| == |E2| == |E3|
    ensures RkgNoise(s, PScale(t, ePk), U, PScale(t, E0), PScale(t, E1), V, PScale(t, E2), PScale(t, E3))
         == PScale(t, RkgNoise(s, ePk, U, E0, E1, V, E2, E3))
  {
    hide PMul, PAdd, PScale;
    MulScaleRight(t, U, ePk);
    MulScaleRight(t, s, PMul(U, ePk));
    MulScaleRight(t, s, E0);
    MulScaleRight(t, PMul(s, s), E1);
    MulScaleRight(t, V, ePk);
    MulScaleRight(t, s, E3);
    SixScaled(PMul(s, PMul(U, ePk)), PMul(s, E0), PMul(PMul(s, s), E1), PMul(V, ePk), E2, PMul(s, E3), t);
  }

  lemma SixScaled(a: Poly, b: Poly, c: Poly, d: Poly, e: Poly, f: Poly, t: int)
    requires |a| == |b| == |c| == |d| == |e| == |f|
    ensures PAdd(PAdd(PAdd(PScale(t, a), PScale(t, b)), PAdd(PScale(t, c), PScale(t, d))),
                 PAdd(PScale(t, e), PScale(t, f)))
         == PScale(t, PAdd(PAdd(PAdd(a, b), PAdd(c, d)), PAdd(e, f)))
  {
    hide PAdd, PScale;
    ScaleAdd(t, a, b);
    ScaleAdd(t, c, d);
    ScaleAdd(t, e, f);
    ScaleAdd(t, PAdd(a, b), PAdd(c, d));
    ScaleAdd(t, PAdd(PAdd(a, b), PAdd(c, d)), PAdd(e, f));
  }

  /** The aggregated BGV row encrypts g s^2 with a noise that is a multiple of t. */
  lemma CollectiveBgvRow(a: Poly, ss: PartyPolys, pkErrors: PartyPolys, row: RkgRow, g: int, t: int)
    requires |pkErrors| == |ss| && Uniform(ss, |a|) && Uniform(pkErrors, |a|) && row.Sized(|ss|, |a|)
    ensures var n, scaled := |a|, ScaledErrors(row, t, |a|);
      var b := Total(n, CkgShares(a, ss, ScaledSecrets(t, pkErrors, n)));
      var s, H0, H1 := Total(n, ss), Total(n, Round1First(scaled, b, ss, g)), Total(n, Round1Second(scaled, a, |ss|));
      var Key0, Key1 := Total(n, Round2(b, scaled.vs, scaled.e2s, ss, H0)), Total(n,
                                                                                  Round2(a, scaled.vs, scaled.e3s, ss,
                                                                                      H1));
      Phase2(Key0, Key1, s)
        == PAdd(PScale(t, RkgNoise(s, Total(n, pkErrors), Total(n, row.us), Total(n, row.e0s), Total(n, row.e1s),
                                   Total(n, row.vs), Total(n, row.e2s), Total(n, row.e3s))),
                PScale(g, PMul(s, s)))
  {
    hide PMul, PAdd, PScale, Total, Phase2, RkgNoise, CkgShares, Round1First, Round1Second, Round2;
    var n := |a|;
    CollectiveRelinearizationRow(a, ss, ScaledSecrets(t, pkErrors, n), ScaledErrors(row, t, n), g);
    TotalScale(n, t, pkErrors, ScaledSecrets(t, pkErrors, n));
    TotalScale(n, t, row.e0s, ScaledSecrets(t, row.e0s, n));
    TotalScale(n, t, row.e1s, ScaledSecrets(t, row.e1s, n));
    TotalScale(n, t, row.e2s, ScaledSecrets(t, row.e2s, n));
    TotalScale(n, t, row.e3s, ScaledSecrets(t, row.e3s, n));
    NoiseScales(Total(n, ss), Total(n, pkErrors), Total(n, row.us), Total(n, row.e0s), Total(n, row.e1s),
                Total(n, row.vs), Total(n, row.e2s), Total(n, row.e3s), t);
  }
}
