/** Whole protocol runs up to the aggregated result: enough shares are exactly as many as the threshold. */
module ThresholdRun {
  import opened Results
  import opened Negacyclic
  import opened Rns
  import opened PolySums
  import opened Rings
  import opened Rlwe
  import opened Hybrid
  import opened Shares
  import opened MpbgvRkg
  import opened CollectiveRun
  import Batching
  import InteractiveBootstrap
  import NumberTheory

  /** Shares of distinct participants that pass the session's checks. */
  ghost predicate Collectable<P>(added: seq<Share<P>>, session: SessionState, kind: ShareKind) {
    && DistinctParticipants(added)
    && forall i :: 0 <= i < |added| ==> added[i].CheckForSession(session, kind).None?
  }

  /** Collecting any such list, in any order, gives all its shares exactly when they reach the threshold. */
  method CollectThenAll<P>(session: SessionState, kind: ShareKind, added: seq<Share<P>>)
    returns (r: Result<seq<Share<P>>>)
    requires Collectable(added, session, kind)
    ensures |InsertAll([], added)| == |added|
    ensures r == if session.threshold <= |added| then Ok(InsertAll([], added)) else Err(ThresholdNotMet)
  {
    var aggregator := new ShareAggregator<P>(session, kind);
    CollectAll(aggregator, added);
    InsertAllOrdered(added);
    SameSize(InsertAll([], added), added);
    r := aggregator.AllShares();
  }

  /** Collects the shares of one round and sums their rows. */
  method CollectAndSum(ring: Ring, session: SessionState, added: seq<Share<seq<RowPair>>>, ghost m: nat,
                       ghost xs: seq<seq<Poly>>, ghost ys: seq<seq<Poly>>) returns (r: Result<seq<RowPair>>)
    requires ring.Valid() && Collectable(added, session, RelinearizationKeyGen) && session.threshold > 0
    requires |xs| == |ys| == |InsertAll([], added)| && Rectangle(xs, m, ring.degree) && Rectangle(ys, m, ring.degree)
    requires forall p :: 0 <= p < |xs| ==>
               PayloadIs(InsertAll([], added)[p].payload, xs[p], ys[p], ring.degree, ring.moduli)
    ensures r.Ok? <==> session.threshold <= |added|
    ensures r.Ok? ==> SummedRows(r.value, xs, ys, m, ring.degree, ring.moduli)
    ensures r.Err? ==> r.error == ThresholdNotMet
  {
    hide SummedRow, Rectangle, PayloadIs;
    var aggregator := new ShareAggregator<seq<RowPair>>(session, RelinearizationKeyGen);
    CollectAll(aggregator, added);
    InsertAllOrdered(added);
    SameSize(InsertAll([], added), added);
    SameWidth(xs, m, ring.degree);
    r := SumRows(ring, aggregator, xs, ys);
  }

  lemma SameWidth(xs: seq<seq<Poly>>, m: nat, n: nat)
    requires Rectangle(xs, m, n)
    ensures forall p :: 0 <= p < |xs| ==> |xs[p]| == m
  {}

  lemma SameCount<P>(added: seq<Share<P>>, added': seq<Share<P>>)
    requires DistinctParticipants(added) && DistinctParticipants(added') && SameParties(added, added')
    ensures |added| == |added'|
  {
    SameOrder(added, added');
    InsertAllOrdered(added);
    InsertAllOrdered(added');
    SameSize(InsertAll([], added), added);
    SameSize(InsertAll([], added'), added');
    assert |Ids(InsertAll([], added))| == |Ids(InsertAll([], added'))|;
  }

  /** Both rounds of collective relinearization key generation: the key exists exactly when the threshold is reached,
      and then every row encrypts g_j s^2 with noise t times `RowNoise`. */
  method KeyRun(ring: Ring, session: SessionState, added1: seq<Share<seq<RowPair>>>, added2: seq<Share<seq<RowPair>>>,
                ghost party: Parties, ghost m: nat, ghost A: Poly, ghost t: int, ghost gs: seq<int>)
    returns (round1: Result<seq<RowPair>>, round2: Result<seq<RowPair>>)
    requires ring.Valid() && |A| == ring.degree && session.threshold > 0 && |gs| == m
    requires Collectable(added1, session, RelinearizationKeyGen) && SameParties(added1, added2)
    requires Collectable(added2, session.AdvanceRound(), RelinearizationKeyGen)
    requires AllSized(party, Ids(InsertAll([], added1)), m, |A|)
    requires Round1Shares(added1, party, Ids(InsertAll([], added1)), m, A, t, gs, ring.moduli)
    requires Round2Shares(added2, party, Ids(InsertAll([], added1)), m, A, t, gs, ring.moduli)
    ensures round1.Ok? <==> session.threshold <= |added1|
    ensures round2.Ok? <==> session.threshold <= |added1|
    ensures round2.Ok? ==> |round1.value| == |round2.value| == m
    ensures round2.Ok? ==> forall j :: 0 <= j < m ==>
              var ids := Ids(InsertAll([], added1));
              KeyRowOf(round2.value[j], party, ids, m, A, t, gs, j, ring.moduli)
  {
    hide Total, PMul, PAdd, PScale, Phase2, Residues, Gather1, Gather2, Round1Shares, Round2Shares, SummedRow,
      Ring.Valid, PayloadIs, Rectangle, KeyRowOf;
    ghost var ids, qs := Ids(InsertAll([], added1)), ring.moduli;
    SameOrder(added1, added2);
    SameCount(added1, added2);
    CollectedRound1(added1, party, m, A, t, gs, qs);
    CollectedRound2(added2, party, m, A, t, gs, qs);
    ghost var g1, g2 := Gather1(party, ids, m, A, t, gs), Gather2(party, ids, m, A, t, gs);
    round1 := CollectAndSum(ring, session, added1, m, g1.0, g1.1);
    round2 := CollectAndSum(ring, session.AdvanceRound(), added2, m, g2.0, g2.1);
    if round2.Ok? {
      forall j | 0 <= j < m ensures KeyRowOf(round2.value[j], party, ids, m, A, t, gs, j, qs) {
        RunRow(added1, added2, round1.value, round2.value, party, m, A, t, gs, qs, j);
      }
    }
  }

  /** A row whose two components are residues of a key with Key0 + Key1 s = g_j s^2 + t noise. */
  ghost predicate KeyRowOf(row: RowPair, party: Parties, ids: seq<nat>, m: nat, A: Poly, t: int, gs: seq<int>, j: nat,
                           qs: seq<int>)
    requires Moduli(qs) && AllSized(party, ids, m, |A|) && |gs| == m && j < m
  {
    exists k0: Poly, k1: Poly ::
      && |k0| == |k1| == |A| && row.0 == Residues(k0, qs) && row.1 == Residues(k1, qs)
      && var s := Total(|A|, Secrets(party, ids, m, |A|));
         PAdd(k0, PMul(k1, s)) == PAdd(PScale(t, CollectiveRun.RowNoise(party, ids, m, |A|, j)),
                                       PScale(gs[j], PMul(s, s)))
  }

  lemma RunRow(added1: seq<Share<seq<RowPair>>>, added2: seq<Share<seq<RowPair>>>, rows1: seq<RowPair>,
               rows2: seq<RowPair>, party: Parties, m: nat, A: Poly, t: int, gs: seq<int>, qs: seq<int>, j: nat)
    requires Moduli(qs) && Run(added1, added2, rows1, rows2, party, m, A, t, gs, qs) && j < m
    ensures |rows2| == m && KeyRowOf(rows2[j], party, Ids(InsertAll([], added1)), m, A, t, gs, j, qs)
  {
    hide Total, PMul, PAdd, PScale, Residues, Gather1, Gather2, Round1Shares, Round2Shares, SummedRow, Rectangle,
      Key0, Key1, CollectiveRun.RowNoise, CollectiveRun.H0, CollectiveRun.H1;
    CollectiveKeyRun(added1, added2, rows1, rows2, party, m, A, t, gs, qs, j);
  }

  /** A collective bootstrap: the refreshed ciphertext exists exactly when the threshold is reached, and then it
      decrypts to m + t (E1 + w) with 0 <= w <= number of parties. */
  method RefreshRun(params: Batching.BgvParams, session: SessionState, added: seq<Share<RowPair>>, ct: Ciphertext,
                    a: RnsPoly, ghost party: Refreshers, ghost C0: Poly, ghost C1: Poly, ghost A: Poly, ghost m: Poly,
                    ghost nu: Poly)
    returns (r: Result<Ciphertext>, ghost u: Poly, ghost w: Poly)
    requires params.Valid() && Collectable(added, session, ShareKind.InteractiveBootstrap)
    requires |ct| > 0 && |C0| == |C1| == |A| == |m| == |nu| == params.ring.degree && Below(m, params.t)
    requires ct[0] == Residues(C0, params.ring.moduli) && a == Residues(A, params.ring.moduli)
    requires RefreshSharesOf(added, party, C1, A, params.t, params.ring.moduli)
    requires AllReady(party, Ids(InsertAll([], added)), |A|, params.t)
    requires var ids, n, t := Ids(InsertAll([], added)), |A|, params.t;
      && PCong(Phase2(C0, C1, Total(n, Ss(party, ids, n, t))), PAdd(m, PScale(t, nu)),
               NumberTheory.Product(params.ring.moduli))
      && Batching.WithinHalf(InteractiveBootstrap.MaskedValue(m, nu, Total(n, E0s(party, ids, n, t)),
                                                              Total(n, Masks(party, ids, n, t)), t),
                             params.ring.moduli[0])
    ensures r.Ok? <==> session.threshold <= |added|
    ensures r.Err? ==> r.error == ThresholdNotMet
    ensures r.Ok? ==>
              var ids, n, t := Ids(InsertAll([], added)), |A|, params.t;
              && |r.value| == 2 && |u| == |w| == n
              && r.value[0] == Residues(u, params.ring.moduli) && r.value[1] == Residues(A, params.ring.moduli)
              && PAdd(u, PMul(A, Total(n, Ss(party, ids, n, t))))
                 == PAdd(m, PScale(t, PAdd(Total(n, E1s(party, ids, n, t)), w)))
              && forall i :: 0 <= i < n ==> 0 <= w[i] <= |added|
  {
    hide Total, PMul, PAdd, PScale, PCong, PMod, Residues, RowIs, RefreshSharesOf, Pick, Masks, Ss, E0s, E1s,
      InteractiveBootstrap.Revealed, InteractiveBootstrap.Wraps, InteractiveBootstrap.RevealShares,
      InteractiveBootstrap.RefreshShares, InteractiveBootstrap.MaskedValue, Batching.WithinHalf;
    ghost var ids, n, t, qs := Ids(InsertAll([], added)), |A|, params.t, params.ring.moduli;
    u, w := [], [];
    var aggregator := new ShareAggregator<RowPair>(session, ShareKind.InteractiveBootstrap);
    CollectAll(aggregator, added);
    InsertAllOrdered(added);
    SameSize(InsertAll([], added), added);
    CollectedRefresh(added, party, C1, A, t, qs);
    ghost var ss, ms := Ss(party, ids, n, t), Masks(party, ids, n, t);
    ghost var xs := InteractiveBootstrap.RevealShares(C1, ss, E0s(party, ids, n, t), ms, t);
    ghost var ys := InteractiveBootstrap.RefreshShares(A, ss, E1s(party, ids, n, t), ms, t);
    r := InteractiveBootstrap.AggregateRefreshed(params, aggregator, ct, a, C0, xs, ys);
    BootstrapRun(added, party, C0, C1, A, m, nu, t, qs);
    if r.Ok? {
      ghost var v := InteractiveBootstrap.Revealed(PMod(PAdd(C0, Total(n, xs)), qs[0]), qs[0], t);
      u, w := PAdd(v, Total(n, ys)), InteractiveBootstrap.Wraps(v, Total(n, ms), m, t);
    }
  }
}
