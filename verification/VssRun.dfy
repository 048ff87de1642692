/** Whole runs of the verifiable secret sharing: from the dealers' secrets, through every participant's own order
    of arrival, to the reconstructed sum. */
module VssRun {
  import opened Integers
  import opened Results
  import opened Lagrange
  import opened ScalarField
  import opened VssPolynomials
  import opened VssShares
  import opened VssReconstruct
  import NumberTheory
  import RnsExtension

  // --------------------------------------------------- sums over dealers, in any order

  ghost function SumOver(ps: seq<VectorPolynomial>, f: VectorPolynomial -> int): int {
    if |ps| == 0 then 0 else SumOver(ps[..|ps| - 1], f) + f(ps[|ps| - 1])
  }

  lemma {:induction false} SumOverRemove(ps: seq<VectorPolynomial>, i: nat, f: VectorPolynomial -> int)
    requires i < |ps|
    ensures SumOver(ps, f) == SumOver(ps[..i] + ps[i + 1..], f) + f(ps[i])
  {
    var k := |ps| - 1;
    if i < k {
      SumOverRemove(ps[..k], i, f);
      assert (ps[..i] + ps[i + 1..])[..k - 1] == ps[..k][..i] + ps[..k][i + 1..];
    } else {
      assert ps[..i] + ps[i + 1..] == ps[..k];
    }
  }

  /** A sum over the dealers does not depend on the order they are taken in. */
  lemma {:induction false} SumOverPermuted(ps: seq<VectorPolynomial>, qs: seq<VectorPolynomial>,
                                           f: VectorPolynomial -> int)
    requires multiset(ps) == multiset(qs)
    ensures SumOver(ps, f) == SumOver(qs, f)
  {
    assert |ps| == |multiset(ps)| && |qs| == |multiset(qs)|;
    if |ps| > 0 {
      var k := |ps| - 1;
      var i := IndexIn(ps[k], ps, qs);
      WithoutIndex(ps, k);
      WithoutIndex(qs, i);
      assert ps[..k] + ps[k + 1..] == ps[..k];
      SumOverPermuted(ps[..k], qs[..i] + qs[i + 1..], f);
      SumOverRemove(qs, i, f);
    }
  }

  lemma IndexIn(p: VectorPolynomial, ps: seq<VectorPolynomial>, qs: seq<VectorPolynomial>) returns (i: nat)
    requires multiset(ps) == multiset(qs) && p in ps
    ensures i < |qs| && qs[i] == p
  {
    assert p in multiset(ps);
    assert p in qs;
    i :| 0 <= i < |qs| && qs[i] == p;
  }

  lemma WithoutIndex(ps: seq<VectorPolynomial>, i: nat)
    requires i < |ps|
    ensures multiset(ps[..i] + ps[i + 1..]) == multiset(ps) - multiset{ps[i]}
  {
    assert ps == ps[..i] + [ps[i]] + ps[i + 1..];
  }

  /** Coordinate `j` of a dealer's polynomial at x. */
  ghost function ValueAt(n: nat, j: nat, x: int): VectorPolynomial -> int {
    (p: VectorPolynomial) => if Rows(p.coefficients, n) && j < n then PolyAt(Coordinate(p.coefficients, n, j), x) else 0
  }

  ghost function BlindingAt(x: int): VectorPolynomial -> int {
    (p: VectorPolynomial) => PolyAt(p.blinding, x)
  }

  lemma {:induction false} CollectiveIsSum(ps: seq<VectorPolynomial>, t: nat, n: nat, j: nat, x: int)
    requires Dealers(ps, t, n) && j < n
    ensures CollectiveAt(ps, t, n, j, x) == SumOver(ps, ValueAt(n, j, x))
  {
    if |ps| > 0 {
      var k := |ps| - 1;
      assert ps[k].Valid();
      CollectiveIsSum(ps[..k], t, n, j, x);
    }
  }

  // ------------------------------------------------------------------- honest dealers

  ghost predicate DistinctDealers(ps: seq<VectorPolynomial>) {
    forall d, e :: 0 <= d < e < |ps| ==> ps[d].dealer != ps[e].dealer
  }

  /** The same dealers, in another order. */
  ghost predicate SameDealers(order: seq<VectorPolynomial>, ps: seq<VectorPolynomial>) {
    DistinctDealers(order) && multiset(order) == multiset(ps)
  }

  lemma ReorderedDealers(order: seq<VectorPolynomial>, ps: seq<VectorPolynomial>, t: nat, n: nat)
    requires multiset(order) == multiset(ps) && Dealers(ps, t, n)
    ensures Dealers(order, t, n) && |order| == |ps|
  {
    assert |order| == |multiset(order)| && |ps| == |multiset(ps)|;
    forall d | 0 <= d < |order|
      ensures order[d].Valid() && order[d].Threshold() == t && order[d].VectorLen() == n
    {
      var i := IndexIn(order[d], order, ps);
    }
  }

  lemma CollectivePermuted(order: seq<VectorPolynomial>, ps: seq<VectorPolynomial>, t: nat, n: nat, j: nat, x: int)
    requires multiset(order) == multiset(ps) && Dealers(ps, t, n) && j < n
    ensures Dealers(order, t, n) && CollectiveAt(order, t, n, j, x) == CollectiveAt(ps, t, n, j, x)
  {
    ReorderedDealers(order, ps, t, n);
    CollectiveIsSum(order, t, n, j, x);
    CollectiveIsSum(ps, t, n, j, x);
    SumOverPermuted(order, ps, ValueAt(n, j, x));
  }

  /** What a dealer publishes. */
  ghost predicate HonestSet(cset: CommitmentSet, p: VectorPolynomial, generators: PedersenGenerators, L: int)
    requires p.Valid()
  {
    && cset.dealer == p.dealer && Decodes(cset.commitments)
    && HonestCommitments(PointsOf(cset.commitments), p, generators, L)
  }

  /** The share of each dealer for one participant, in the order they arrive. */
  ghost predicate Arrives(shares: seq<VssShare>, order: seq<VectorPolynomial>, t: nat, n: nat, x: nat, L: int)
    requires Dealers(order, t, n)
  {
    |shares| == |order| && forall d :: 0 <= d < |shares| ==> ArrivesFrom(shares[d], order[d], x, L)
  }

  ghost predicate ArrivesFrom(share: VssShare, p: VectorPolynomial, x: nat, L: int)
    requires p.Valid()
  {
    share.dealer == p.dealer && share.recipient == x && HonestShare(share, p, L)
  }

  ghost predicate Published(sets: seq<CommitmentSet>, order: seq<VectorPolynomial>, t: nat, n: nat,
                            generators: PedersenGenerators, L: int)
    requires Dealers(order, t, n)
  {
    |sets| == |order| && forall d :: 0 <= d < |sets| ==> HonestSet(sets[d], order[d], generators, L)
  }

  /** One dealer's part: its polynomial, its commitments and its share for every recipient. */
  method Deal(dealer: nat, secret: seq<RnsExtension.i128>, t: nat, random: seq<seq<int>>, blinding: seq<int>,
              recipients: seq<nat>, generators: PedersenGenerators, L: int)
    returns (cset: CommitmentSet, shares: seq<VssShare>, ghost p: VectorPolynomial)
    requires GroupOrder(L) && t > 0 && |secret| == |generators.g| > 0 && |random| == t - 1 && |blinding| == t
    requires forall k :: 0 <= k < |random| ==> |random[k]| == |secret|
    requires forall j :: 0 <= j < |secret| ==> secret[j] != I128_MIN
    ensures p.Valid() && p.dealer == dealer && p.Threshold() == t && p.VectorLen() == |secret|
    ensures forall j :: 0 <= j < |secret| ==> p.coefficients[0][j] == secret[j] % L
    ensures HonestSet(cset, p, generators, L) && |shares| == |recipients|
    ensures forall i :: 0 <= i < |shares| ==> ArrivesFrom(shares[i], p, recipients[i], L)
  {
    hide NumberTheory.IsPrime, HonestShare, Cong, ExactCommitments;
    var sampled := Sample(dealer, secret, t, random, blinding, L);
    p := sampled.value;
    var committed := Commit(sampled.value, generators, L);
    cset := committed.value;
    shares := [];
    for i := 0 to |recipients|
      invariant |shares| == i && forall k :: 0 <= k < i ==> ArrivesFrom(shares[k], p, recipients[k], L)
    {
      var share := CreateShare(sampled.value, recipients[i], L);
      shares := shares + [share];
    }
  }

  // ---------------------------------------------------------------------- accumulation

  lemma HonestVerdict(share: VssShare, cset: CommitmentSet, p: VectorPolynomial, x: nat, generators: PedersenGenerators,
                      L: int)
    requires p.Valid() && ArrivesFrom(share, p, x, L) && HonestSet(cset, p, generators, L)
    ensures |share.values| == p.VectorLen() == |generators.g| && share.dealer == cset.dealer
    ensures Verdict(x, share.values, share.blinding, cset.commitments, generators, L) == Ok(())
  {
    hide Equation, Cong, ExactCommitments;
    HonestShareVerifies(share, p, PointsOf(cset.commitments), generators, L);
  }

  lemma ArrivedLengths(shares: seq<VssShare>, order: seq<VectorPolynomial>, t: nat, n: nat, x: nat, L: int)
    requires Dealers(order, t, n) && Arrives(shares, order, t, n, x, L)
    ensures forall d :: 0 <= d < |shares| ==> |shares[d].values| == n
  {
    forall d | 0 <= d < |shares| ensures |shares[d].values| == n {
      assert ArrivesFrom(shares[d], order[d], x, L);
    }
  }

  /** One participant accumulates the share of every dealer, in the order they arrive: all are accepted. */
  method Accumulate(x: nat, shares: seq<VssShare>, sets: seq<CommitmentSet>, generators: PedersenGenerators, L: int,
                    ghost order: seq<VectorPolynomial>, ghost t: nat) returns (values: seq<int>, blinding: int)
    requires L > 0 && DistinctDealers(order) && Dealers(order, t, |generators.g|)
    requires Arrives(shares, order, t, |generators.g|, x, L)
    requires Published(sets, order, t, |generators.g|, generators, L)
    ensures Finalized(values, blinding, shares, |generators.g|, L)
  {
    hide Verdict, Equation, Cong, HonestShare, HonestCommitments, SumVectors, SumScalars;
    ghost var n := |generators.g|;
    ArrivedLengths(shares, order, t, n, x, L);
    var accumulator := new ShareAccumulator(x, |generators.g|, generators, L);
    for d := 0 to |shares|
      invariant fresh(accumulator) && accumulator.Valid() && accumulator.accepted == shares[..d]
      invariant accumulator.participant == x && accumulator.L == L && accumulator.generators == generators
      invariant |accumulator.sumValues| == n
      invariant forall dealer :: dealer in accumulator.dealersSeen ==>
                  exists e :: 0 <= e < d && order[e].dealer == dealer
    {
      assert ArrivesFrom(shares[d], order[d], x, L) && HonestSet(sets[d], order[d], generators, L);
      HonestVerdict(shares[d], sets[d], order[d], x, generators, L);
      var r := accumulator.AddVerifiedShare(shares[d], sets[d]);
      assert shares[..d + 1] == shares[..d] + [shares[d]];
    }
    assert shares[..|shares|] == shares;
    values, blinding := accumulator.Finalize();
  }

  /** What an accumulator that accepted these shares finalizes. */
  ghost predicate Finalized(values: seq<int>, blinding: int, shares: seq<VssShare>, n: nat, L: int) {
    && (forall d :: 0 <= d < |shares| ==> |shares[d].values| == n)
    && Congruent(values, SumVectors(ValuesOf(shares, n), n), L) && Cong(blinding, SumScalars(BlindingsOf(shares)), L)
  }

  lemma {:induction false} SummedBlindings(shares: seq<VssShare>, order: seq<VectorPolynomial>, t: nat, n: nat, x: nat,
                                           L: int)
    requires Dealers(order, t, n) && Arrives(shares, order, t, n, x, L)
    ensures Cong(SumScalars(BlindingsOf(shares)), SumOver(order, BlindingAt(x)), L)
  {
    hide Cong, PolyAt;
    if |order| == 0 {
      CongRefl(0, L);
    } else {
      var k := |order| - 1;
      SummedBlindings(shares[..k], order[..k], t, n, x, L);
      assert BlindingsOf(shares)[..k] == BlindingsOf(shares[..k]);
      assert ArrivesFrom(shares[k], order[k], x, L);
      CongAdd(SumScalars(BlindingsOf(shares[..k])), SumOver(order[..k], BlindingAt(x)), shares[k].blinding,
              PolyAt(order[k].blinding, x), L);
    }
  }

  /** The sums finalized from any order of arrival are those of the dealers' polynomials in any other order. */
  lemma FinalSums(values: seq<int>, blinding: int, shares: seq<VssShare>, order: seq<VectorPolynomial>,
                  ps: seq<VectorPolynomial>, t: nat, n: nat, x: nat, L: int)
    requires Dealers(ps, t, n) && Dealers(order, t, n) && multiset(order) == multiset(ps)
    requires Arrives(shares, order, t, n, x, L) && Finalized(values, blinding, shares, n, L)
    ensures CollectiveShare((x, values), ps, t, n, L) && Cong(blinding, SumOver(ps, BlindingAt(x)), L)
  {
    hide Cong, SumScalars, SumOver, SumVectors, CollectiveAt, HonestShare;
    forall j | 0 <= j < n ensures Cong(values[j], CollectiveAt(ps, t, n, j, x), L) {
      SummedSharesAreCollective(shares, order, t, n, x, j, L);
      CollectivePermuted(order, ps, t, n, j, x);
      CongTrans(values[j], SumVectors(ValuesOf(shares, n), n)[j], CollectiveAt(ps, t, n, j, x), L);
    }
    SummedBlindings(shares, order, t, n, x, L);
    SumOverPermuted(order, ps, BlindingAt(x));
    CongTrans(blinding, SumScalars(BlindingsOf(shares)), SumOver(ps, BlindingAt(x)), L);
  }

  // -------------------------------------------------------------------- combined check

  /** A dealer's share before reduction. */
  ghost function ExactShare(p: VectorPolynomial, x: nat): (share: VssShare)
    requires p.Valid()
    ensures |share.values| == p.VectorLen()
  {
    VssShare(p.dealer, x, VectorAt(p.coefficients, p.VectorLen(), x), PolyAt(p.blinding, x))
  }

  ghost function ExactShares(order: seq<VectorPolynomial>, t: nat, n: nat, x: nat): (shares: seq<VssShare>)
    requires Dealers(order, t, n)
    ensures |shares| == |order| && forall d :: 0 <= d < |shares| ==> shares[d] == ExactShare(order[d], x)
  {
    seq(|order|, d requires 0 <= d < |order| => ExactShare(order[d], x))
  }

  lemma ExactArrives(order: seq<VectorPolynomial>, t: nat, n: nat, x: nat, L: int)
    requires Dealers(order, t, n)
    ensures Arrives(ExactShares(order, t, n, x), order, t, n, x, L)
    ensures forall d :: 0 <= d < |order| ==> |ExactShares(order, t, n, x)[d].values| == n
  {
    hide Cong, VectorAt, PolyAt;
    var shares := ExactShares(order, t, n, x);
    forall d | 0 <= d < |order| ensures ArrivesFrom(shares[d], order[d], x, L) {
      var p, share := order[d], shares[d];
      forall j | 0 <= j < |share.values|
        ensures Cong(share.values[j], VectorAt(p.coefficients, p.VectorLen(), x)[j], L)
      {
        CongRefl(share.values[j], L);
      }
      CongRefl(share.blinding, L);
    }
  }

  /** What any order of the same dealers' exact shares sums to is congruent to the participant's share. */
  lemma ExactSums(values: seq<int>, blinding: int, order: seq<VectorPolynomial>, ps: seq<VectorPolynomial>, t: nat,
                  n: nat, x: nat, L: int)
    requires Dealers(ps, t, n) && Dealers(order, t, n) && multiset(order) == multiset(ps)
    requires CollectiveShare((x, values), ps, t, n, L) && Cong(blinding, SumOver(ps, BlindingAt(x)), L)
    ensures Finalized(values, blinding, ExactShares(order, t, n, x), n, L)
  {
    hide Cong, SumScalars, SumOver, SumVectors, CollectiveAt, HonestShare;
    var exact := ExactShares(order, t, n, x);
    ExactArrives(order, t, n, x, L);
    var sums := SumVectors(ValuesOf(exact, n), n);
    forall j | 0 <= j < n ensures Cong(values[j], sums[j], L) {
      SummedSharesAreCollective(exact, order, t, n, x, j, L);
      CollectivePermuted(order, ps, t, n, j, x);
      CongSym(sums[j], CollectiveAt(ps, t, n, j, x), L);
      CongTrans(values[j], CollectiveAt(ps, t, n, j, x), sums[j], L);
    }
    SummedBlindings(exact, order, t, n, x, L);
    SumOverPermuted(order, ps, BlindingAt(x));
    CongSym(SumScalars(BlindingsOf(exact)), SumOver(ps, BlindingAt(x)), L);
    CongTrans(blinding, SumOver(ps, BlindingAt(x)), SumScalars(BlindingsOf(exact)), L);
  }

  lemma PublishedPoints(sets: seq<CommitmentSet>, order: seq<VectorPolynomial>, t: nat, n: nat,
                        generators: PedersenGenerators, L: int)
    requires Dealers(order, t, n) && Published(sets, order, t, n, generators, L)
    ensures |sets| == |order| && AllDecode(sets) && Rows(AllPoints(sets), t)
    ensures forall d :: 0 <= d < |sets| ==> |sets[d].commitments| == t && FitsFirst(sets, d)
  {
    hide Cong, ExactCommitments;
    forall d | 0 <= d < |sets| ensures |sets[d].commitments| == t && Decodes(sets[d].commitments) {
      assert HonestSet(sets[d], order[d], generators, L);
    }
  }

  /** A participant's final share satisfies the equation against the commitments of the same dealers combined in
      any order. */
  lemma FinalShareVerifies(values: seq<int>, blinding: int, combined: seq<Point>, sets: seq<CommitmentSet>,
                           order: seq<VectorPolynomial>, ps: seq<VectorPolynomial>, t: nat, n: nat, x: nat,
                           generators: PedersenGenerators, L: int)
    requires Dealers(ps, t, n) && Dealers(order, t, n) && multiset(order) == multiset(ps) && n == |generators.g|
    requires CollectiveShare((x, values), ps, t, n, L) && Cong(blinding, SumOver(ps, BlindingAt(x)), L)
    requires Published(sets, order, t, n, generators, L) && AllDecode(sets) && Rows(AllPoints(sets), t)
    requires Congruent(combined, SumVectors(AllPoints(sets), t), L)
    ensures Equation(x, values, blinding, combined, generators, L)
  {
    hide Cong, Equation, Congruent, SumScalars, SumOver, SumVectors, CollectiveAt, CollectiveShare, HonestShare,
      HonestCommitments;
    var exact, css := ExactShares(order, t, n, x), AllPoints(sets);
    ExactArrives(order, t, n, x, L);
    forall d | 0 <= d < |exact|
      ensures Equation(x, exact[d].values, exact[d].blinding, css[d], generators, L)
    {
      assert ArrivesFrom(exact[d], order[d], x, L) && HonestSet(sets[d], order[d], generators, L);
      HonestShareVerifies(exact[d], order[d], css[d], generators, L);
    }
    ExactSums(values, blinding, order, ps, t, n, x, L);
    AccumulatedShareVerifies(exact, css, t, x, values, blinding, combined, generators, L);
  }

  // --------------------------------------------------------------------------- the run

  /** What one participant receives: the shares of the dealers, in some order, with the dealers' commitments. */
  datatype Inbox = Inbox(participant: nat, shares: seq<VssShare>, sets: seq<CommitmentSet>)

  ghost predicate Receives(inbox: Inbox, order: seq<VectorPolynomial>, ps: seq<VectorPolynomial>, t: nat, n: nat,
                           generators: PedersenGenerators, L: int)
  {
    && SameDealers(order, ps) && Dealers(order, t, n)
    && Arrives(inbox.shares, order, t, n, inbox.participant, L)
    && Published(inbox.sets, order, t, n, generators, L)
  }

  ghost predicate Bounded(totals: seq<int>, bound: int) {
    forall j :: 0 <= j < |totals| ==> Abs(totals[j]) <= bound
  }

  ghost predicate DistinctInboxes(inboxes: seq<Inbox>) {
    && (forall i :: 0 <= i < |inboxes| ==> inboxes[i].participant < TWO_64)
    && forall i, j :: 0 <= i < j < |inboxes| ==> inboxes[i].participant != inboxes[j].participant
  }

  /** The whole run: every participant accumulates in its own order of arrival, the commitments are combined in yet
      another order, every final share passes the combined check, and any at least `t` participants reconstruct
      exactly the sum of the dealers' secrets. */
  method Run(inboxes: seq<Inbox>, sets: seq<CommitmentSet>, t: nat, bound: RnsExtension.i128,
             generators: PedersenGenerators, L: int,
             ghost orders: seq<seq<VectorPolynomial>>, ghost order: seq<VectorPolynomial>,
             ghost ps: seq<VectorPolynomial>, ghost secrets: seq<seq<int>>)
    returns (checks: seq<Result<()>>, r: Result<seq<RnsExtension.i128>>)
    requires GroupOrder(L) && |ps| > 0 && Dealers(ps, t, |generators.g|) && 0 < t <= |inboxes|
    requires VssPolynomials.Rows(secrets, |generators.g|) && Secrets(ps, secrets, t, |generators.g|, L)
    requires DistinctInboxes(inboxes) && |orders| == |inboxes|
    requires forall i :: 0 <= i < |inboxes| ==> Receives(inboxes[i], orders[i], ps, t, |generators.g|, generators, L)
    requires SameDealers(order, ps) && Dealers(order, t, |generators.g|)
    requires Published(sets, order, t, |generators.g|, generators, L)
    requires Bounded(SumVectors(secrets, |generators.g|), bound)
    ensures |checks| == |inboxes| && forall i :: 0 <= i < |checks| ==> checks[i] == Ok(())
    ensures r.Ok? && r.value == SumVectors(secrets, |generators.g|)
  {
    hide NumberTheory.IsPrime, Cong, Arrives, Published, CollectiveShare, Secrets, Recovered, SumVectors, Equation,
      SumOver, DistinctPoints;
    ghost var n := |generators.g|;
    PublishedPoints(sets, order, t, n, generators, L);
    ReorderedDealers(order, ps, t, n);
    var combination := CombineCommitments(sets, L);
    var combined := combination.value;
    checks := [];
    var shares: seq<CombinedShare> := [];
    for i := 0 to |inboxes|
      invariant |checks| == |shares| == i && forall k :: 0 <= k < i ==> checks[k] == Ok(())
      invariant forall k :: 0 <= k < i ==>
                  shares[k].0 == inboxes[k].participant && |shares[k].1| == n && CollectiveShare(shares[k], ps, t, n, L)
    {
      var x := inboxes[i].participant;
      assert Receives(inboxes[i], orders[i], ps, t, n, generators, L);
      var values, blinding := Accumulate(x, inboxes[i].shares, inboxes[i].sets, generators, L, orders[i], t);
      FinalSums(values, blinding, inboxes[i].shares, orders[i], ps, t, n, x, L);
      FinalShareVerifies(values, blinding, PointsOf(combined), sets, order, ps, t, n, x, generators, L);
      var check := VerifyCombined(x, values, blinding, combined, generators, L);
      checks := checks + [check];
      shares := shares + [(x, values)];
    }
    DistinctIdentifiers(shares, L);
    ghost var totals := SumVectors(secrets, n);
    SharingRoundTrip(shares, ps, secrets, t, n, totals, bound, L);
    r := ReconstructSecret(shares, t, bound, L);
    assert r.value == totals;
  }
}
