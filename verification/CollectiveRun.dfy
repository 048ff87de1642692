/** Whole protocol runs: from the shares the parties create, through any order of collection, to the
    aggregated key or ciphertext. */
module CollectiveRun {
  import opened Integers
  import opened Results
  import opened Negacyclic
  import opened Rns
  import opened PolySums
  import opened Rlwe
  import opened Collective
  import opened Hybrid
  import opened Shares
  import opened MpbgvRkg
  import Batching
  import InteractiveBootstrap
  import NumberTheory
  import KeySwitchMath
  import Rings

  // -------------------------------------------------------------------- collection

  /** Adds shares one by one, in the order given. */
  method CollectAll<P>(aggregator: ShareAggregator<P>, added: seq<Share<P>>)
    requires aggregator.Valid() && aggregator.shares == [] && DistinctParticipants(added)
    requires forall i :: 0 <= i < |added| ==> added[i].CheckForSession(aggregator.session, aggregator.kind).None?
    modifies aggregator
    ensures aggregator.Valid() && aggregator.shares == InsertAll([], added)
  {
    for i := 0 to |added|
      invariant aggregator.Valid() && aggregator.shares == InsertAll([], added[..i])
    {
      PrefixDistinct(added, i);
      NotYetCollected(added, i);
      var r := aggregator.AddShare(added[i]);
      assert added[..i + 1][..i] == added[..i];
    }
    assert added[..|added|] == added;
  }

  lemma PrefixDistinct<P>(added: seq<Share<P>>, i: nat)
    requires DistinctParticipants(added) && i <= |added|
    ensures DistinctParticipants(added[..i])
  {}

  lemma NotYetCollected<P>(added: seq<Share<P>>, i: nat)
    requires DistinctParticipants(added) && i < |added|
    ensures !HasParticipant(InsertAll([], added[..i]), added[i].participant)
  {
    PrefixDistinct(added, i);
    InsertAllOrdered(added[..i]);
    SameMembers(InsertAll([], added[..i]), added[..i]);
  }

  ghost function Ids<P>(shares: seq<Share<P>>): (ids: seq<nat>)
    ensures |ids| == |shares| && forall p :: 0 <= p < |ids| ==> ids[p] == shares[p].participant
  {
    seq(|shares|, p requires 0 <= p < |shares| => shares[p].participant)
  }

  ghost predicate Increasing(ids: seq<nat>) {
    forall i, j :: 0 <= i < j < |ids| ==> ids[i] < ids[j]
  }

  /** Increasing sequences with the same members are equal. */
  lemma {:induction false} IncreasingUnique(xs: seq<nat>, ys: seq<nat>)
    requires Increasing(xs) && Increasing(ys)
    requires (forall i :: 0 <= i < |xs| ==> xs[i] in ys) && (forall i :: 0 <= i < |ys| ==> ys[i] in xs)
    ensures xs == ys
  {
    hide Increasing;
    assert (|xs| > 0 ==> xs[0] in ys) && (|ys| > 0 ==> ys[0] in xs);
    if |xs| > 0 && |ys| > 0 {
      SameLeast(xs, ys);
      TailMembers(xs, ys);
      TailMembers(ys, xs);
      TailIncreasing(xs);
      TailIncreasing(ys);
      IncreasingUnique(xs[1..], ys[1..]);
    }
  }

  lemma TailIncreasing(xs: seq<nat>)
    requires |xs| > 0 && Increasing(xs)
    ensures Increasing(xs[1..]) && xs == [xs[0]] + xs[1..]
  {}

  lemma SameLeast(xs: seq<nat>, ys: seq<nat>)
    requires |xs| > 0 && |ys| > 0 && Increasing(xs) && Increasing(ys) && xs[0] in ys && ys[0] in xs
    ensures xs[0] == ys[0]
  {
    var i :| 0 <= i < |ys| && ys[i] == xs[0];
    var j :| 0 <= j < |xs| && xs[j] == ys[0];
  }

  lemma TailMembers(xs: seq<nat>, ys: seq<nat>)
    requires |xs| > 0 && |ys| > 0 && Increasing(xs) && Increasing(ys) && xs[0] == ys[0]
    requires forall i :: 0 <= i < |xs| ==> xs[i] in ys
    ensures forall i :: 0 <= i < |xs[1..]| ==> xs[1..][i] in ys[1..]
  {
    forall i | 0 <= i < |xs[1..]| ensures xs[1..][i] in ys[1..] {
      var x := xs[i + 1];
      assert x in ys && x > xs[0];
      var k :| 0 <= k < |ys| && ys[k] == x;
      assert ys[1..][k - 1] == x;
    }
  }

  /** The same parties contributed to both lists. */
  ghost predicate SameParties<P>(xs: seq<Share<P>>, ys: seq<Share<P>>) {
    && (forall i :: 0 <= i < |xs| ==> HasParticipant(ys, xs[i].participant))
    && (forall i :: 0 <= i < |ys| ==> HasParticipant(xs, ys[i].participant))
  }

  /** Whatever the two orders of arrival, the same parties end up in the same order. */
  lemma SameOrder<P>(added: seq<Share<P>>, added': seq<Share<P>>)
    requires DistinctParticipants(added) && DistinctParticipants(added') && SameParties(added, added')
    ensures Ids(InsertAll([], added)) == Ids(InsertAll([], added'))
  {
    InsertAllOrdered(added);
    InsertAllOrdered(added');
    var xs, ys := InsertAll([], added), InsertAll([], added');
    MembersCarry(xs, added, added', ys);
    MembersCarry(ys, added', added, xs);
    IncreasingUnique(Ids(xs), Ids(ys));
  }

  lemma MembersCarry<P>(xs: seq<Share<P>>, added: seq<Share<P>>, added': seq<Share<P>>, ys: seq<Share<P>>)
    requires multiset(xs) == multiset(added) && multiset(ys) == multiset(added')
    requires forall i :: 0 <= i < |added| ==> HasParticipant(added', added[i].participant)
    ensures forall i :: 0 <= i < |xs| ==> Ids(xs)[i] in Ids(ys)
  {
    SameMembers(xs, added);
    SameMembers(added', ys);
    forall i | 0 <= i < |xs| ensures Ids(xs)[i] in Ids(ys) {
      assert xs[i] in added;
      var k :| 0 <= k < |added| && added[k] == xs[i];
      assert HasParticipant(added', added[k].participant);
      var m :| 0 <= m < |added'| && added'[m].participant == added[k].participant;
      assert added'[m] in ys;
      var j :| 0 <= j < |ys| && ys[j] == added'[m];
      assert Ids(ys)[j] == Ids(xs)[i];
    }
  }

  // ---------------------------------------------------------- relinearization keys

  /** What one party samples for one row. */
  datatype RowInput = RowInput(u: Poly, e0: Poly, e1: Poly, v: Poly, e2: Poly, e3: Poly)

  /** A party's secret, its error in the public key, and its samples row by row. */
  datatype Party = Party(s: Poly, pkError: Poly, rows: seq<RowInput>) {
    ghost predicate Sized(m: nat, n: nat) {
      && |s| == |pkError| == n && |rows| == m
      && forall j :: 0 <= j < m ==> RowSized(rows[j], n)
    }
  }

  ghost predicate RowSized(r: RowInput, n: nat) {
    |r.u| == |r.e0| == |r.e1| == |r.v| == |r.e2| == |r.e3| == n
  }

  type Parties = nat -> Party

  ghost predicate AllSized(party: Parties, ids: seq<nat>, m: nat, n: nat) {
    forall p :: 0 <= p < |ids| ==> party(ids[p]).Sized(m, n)
  }

  ghost function Secrets(party: Parties, ids: seq<nat>, m: nat, n: nat): (ss: PartyPolys)
    requires AllSized(party, ids, m, n)
    ensures |ss| == |ids| && Uniform(ss, n) && forall p :: 0 <= p < |ss| ==> ss[p] == party(ids[p]).s
  {
    seq(|ids|, p requires 0 <= p < |ids| => party(ids[p]).s)
  }

  ghost function PkErrors(party: Parties, ids: seq<nat>, m: nat, n: nat): (es: PartyPolys)
    requires AllSized(party, ids, m, n)
    ensures |es| == |ids| && Uniform(es, n) && forall p :: 0 <= p < |es| ==> es[p] == party(ids[p]).pkError
  {
    seq(|ids|, p requires 0 <= p < |ids| => party(ids[p]).pkError)
  }

  ghost function RowInputs(party: Parties, ids: seq<nat>, m: nat, n: nat, j: nat): (rs: seq<RowInput>)
    requires AllSized(party, ids, m, n) && j < m
    ensures |rs| == |ids|
    ensures forall p :: 0 <= p < |rs| ==> rs[p] == party(ids[p]).rows[j] && RowSized(rs[p], n)
  {
    assert forall p :: 0 <= p < |ids| ==> party(ids[p]).Sized(m, n);
    seq(|ids|, p requires 0 <= p < |ids| => party(ids[p]).rows[j])
  }

  /** Row `j` of all parties, with the errors the protocol adds: t times the sampled ones. */
  ghost function Gathered(rs: seq<RowInput>, n: nat): (row: RkgRow)
    requires forall p :: 0 <= p < |rs| ==> RowSized(rs[p], n)
    ensures row.Sized(|rs|, n)
    ensures forall p :: 0 <= p < |rs| ==>
              && row.us[p] == rs[p].u && row.e0s[p] == rs[p].e0 && row.e1s[p] == rs[p].e1
              && row.vs[p] == rs[p].v && row.e2s[p] == rs[p].e2 && row.e3s[p] == rs[p].e3
  {
    forall p | 0 <= p < |rs|
      ensures |rs[p].u| == |rs[p].e0| == |rs[p].e1| == |rs[p].v| == |rs[p].e2| == |rs[p].e3| == n
    {
      assert RowSized(rs[p], n);
    }
    RkgRow(seq(|rs|, p requires 0 <= p < |rs| => rs[p].u), seq(|rs|, p requires 0 <= p < |rs| => rs[p].e0),
           seq(|rs|, p requires 0 <= p < |rs| => rs[p].e1), seq(|rs|, p requires 0 <= p < |rs| => rs[p].v),
           seq(|rs|, p requires 0 <= p < |rs| => rs[p].e2), seq(|rs|, p requires 0 <= p < |rs| => rs[p].e3))
  }

  ghost function RowOf(party: Parties, ids: seq<nat>, m: nat, n: nat, j: nat): (row: RkgRow)
    requires AllSized(party, ids, m, n) && j < m
    ensures row.Sized(|ids|, n)
  {
    Gathered(RowInputs(party, ids, m, n, j), n)
  }

  /** The collective public key of these parties. */
  ghost function PublicB(party: Parties, ids: seq<nat>, m: nat, A: Poly, t: int): (b: Poly)
    requires AllSized(party, ids, m, |A|)
    ensures |b| == |A|
  {
    Total(|A|, CkgShares(A, Secrets(party, ids, m, |A|), ScaledSecrets(t, PkErrors(party, ids, m, |A|), |A|)))
  }

  /** All parties' contributions to one component of row `j`, round by round. */
  ghost function First1All(party: Parties, ids: seq<nat>, m: nat, A: Poly, t: int, gs: seq<int>,
                           j: nat): (rs: PartyPolys)
    requires AllSized(party, ids, m, |A|) && j < m && |gs| == m
    ensures |rs| == |ids| && Uniform(rs, |A|)
  {
    Round1First(ScaledErrors(RowOf(party, ids, m, |A|, j), t, |A|), PublicB(party, ids, m, A, t),
                Secrets(party, ids, m, |A|), gs[j])
  }

  ghost function Second1All(party: Parties, ids: seq<nat>, m: nat, A: Poly, t: int, j: nat): (rs: PartyPolys)
    requires AllSized(party, ids, m, |A|) && j < m
    ensures |rs| == |ids| && Uniform(rs, |A|)
  {
    Round1Second(ScaledErrors(RowOf(party, ids, m, |A|, j), t, |A|), A, |ids|)
  }

  ghost function H0(party: Parties, ids: seq<nat>, m: nat, A: Poly, t: int, gs: seq<int>, j: nat): (h: Poly)
    requires AllSized(party, ids, m, |A|) && j < m && |gs| == m
    ensures |h| == |A|
  {
    Total(|A|, First1All(party, ids, m, A, t, gs, j))
  }

  ghost function H1(party: Parties, ids: seq<nat>, m: nat, A: Poly, t: int, j: nat): (h: Poly)
    requires AllSized(party, ids, m, |A|) && j < m
    ensures |h| == |A|
  {
    Total(|A|, Second1All(party, ids, m, A, t, j))
  }

  ghost function First2All(party: Parties, ids: seq<nat>, m: nat, A: Poly, t: int, gs: seq<int>,
                           j: nat): (rs: PartyPolys)
    requires AllSized(party, ids, m, |A|) && j < m && |gs| == m
    ensures |rs| == |ids| && Uniform(rs, |A|)
  {
    var row := ScaledErrors(RowOf(party, ids, m, |A|, j), t, |A|);
    Round2(PublicB(party, ids, m, A, t), row.vs, row.e2s, Secrets(party, ids, m, |A|), H0(party, ids, m, A, t, gs, j))
  }

  ghost function Second2All(party: Parties, ids: seq<nat>, m: nat, A: Poly, t: int, j: nat): (rs: PartyPolys)
    requires AllSized(party, ids, m, |A|) && j < m
    ensures |rs| == |ids| && Uniform(rs, |A|)
  {
    var row := ScaledErrors(RowOf(party, ids, m, |A|, j), t, |A|);
    Round2(A, row.vs, row.e3s, Secrets(party, ids, m, |A|), H1(party, ids, m, A, t, j))
  }

  ghost function Key0(party: Parties, ids: seq<nat>, m: nat, A: Poly, t: int, gs: seq<int>, j: nat): (k: Poly)
    requires AllSized(party, ids, m, |A|) && j < m && |gs| == m
    ensures |k| == |A|
  {
    Total(|A|, First2All(party, ids, m, A, t, gs, j))
  }

  ghost function Key1(party: Parties, ids: seq<nat>, m: nat, A: Poly, t: int, j: nat): (k: Poly)
    requires AllSized(party, ids, m, |A|) && j < m
    ensures |k| == |A|
  {
    Total(|A|, Second2All(party, ids, m, A, t, j))
  }

  /** The two components of one party's round-1 share, as `CreateShareRound1` promises them. */
  ghost function First1(p: Party, B: Poly, t: int, gs: seq<int>, m: nat): (xs: seq<Poly>)
    requires p.Sized(m, |B|) && |gs| == m
    ensures |xs| == m && Uniform(xs, |B|)
  {
    seq(m, j requires 0 <= j < m => (assert RowSized(p.rows[j], |B|);
                                     Masked(B, p.rows[j].u, PScale(t, p.rows[j].e0), PScale(gs[j], p.s))))
  }

  ghost function Second1(p: Party, A: Poly, t: int, m: nat): (ys: seq<Poly>)
    requires p.Sized(m, |A|)
    ensures |ys| == m && Uniform(ys, |A|)
  {
    seq(m, j requires 0 <= j < m => (assert RowSized(p.rows[j], |A|);
                                     PAdd(PMul(A, p.rows[j].u), PScale(t, p.rows[j].e1))))
  }

  /** The two components of one party's round-2 share, as `CreateShareRound2` promises them. */
  ghost function First2(p: Party, B: Poly, t: int, h0: seq<Poly>, m: nat): (xs: seq<Poly>)
    requires p.Sized(m, |B|) && |h0| == m && Uniform(h0, |B|)
    ensures |xs| == m && Uniform(xs, |B|)
  {
    seq(m, j requires 0 <= j < m => (assert RowSized(p.rows[j], |B|);
                                     PAdd(PAdd(PMul(p.s, h0[j]), PMul(B, p.rows[j].v)), PScale(t, p.rows[j].e2))))
  }

  ghost function Second2(p: Party, A: Poly, t: int, h1: seq<Poly>, m: nat): (ys: seq<Poly>)
    requires p.Sized(m, |A|) && |h1| == m && Uniform(h1, |A|)
    ensures |ys| == m && Uniform(ys, |A|)
  {
    seq(m, j requires 0 <= j < m => (assert RowSized(p.rows[j], |A|);
                                     PAdd(PAdd(PMul(p.s, h1[j]), PMul(A, p.rows[j].v)), PScale(t, p.rows[j].e3))))
  }

  ghost function Gather1(party: Parties, ids: seq<nat>, m: nat, A: Poly, t: int,
                         gs: seq<int>): (r: (seq<seq<Poly>>, seq<seq<Poly>>))
    requires AllSized(party, ids, m, |A|) && |gs| == m
    ensures |r.0| == |r.1| == |ids| && Rectangle(r.0, m, |A|) && Rectangle(r.1, m, |A|)
    ensures forall p :: 0 <= p < |ids| ==>
              r.0[p] == First1(party(ids[p]), PublicB(party, ids, m, A, t), t, gs, m) &&
                  r.1[p] == Second1(party(ids[p]), A, t, m)
  {
    var B := PublicB(party, ids, m, A, t);
    (seq(|ids|, p requires 0 <= p < |ids| => First1(party(ids[p]), B, t, gs, m)),
     seq(|ids|, p requires 0 <= p < |ids| => Second1(party(ids[p]), A, t, m)))
  }

  ghost function H0s(party: Parties, ids: seq<nat>, m: nat, A: Poly, t: int, gs: seq<int>): (hs: seq<Poly>)
    requires AllSized(party, ids, m, |A|) && |gs| == m
    ensures |hs| == m && Uniform(hs, |A|) && forall j :: 0 <= j < m ==> hs[j] == H0(party, ids, m, A, t, gs, j)
  {
    seq(m, j requires 0 <= j < m => H0(party, ids, m, A, t, gs, j))
  }

  ghost function H1s(party: Parties, ids: seq<nat>, m: nat, A: Poly, t: int): (hs: seq<Poly>)
    requires AllSized(party, ids, m, |A|)
    ensures |hs| == m && Uniform(hs, |A|) && forall j :: 0 <= j < m ==> hs[j] == H1(party, ids, m, A, t, j)
  {
    seq(m, j requires 0 <= j < m => H1(party, ids, m, A, t, j))
  }

  ghost function Gather2(party: Parties, ids: seq<nat>, m: nat, A: Poly, t: int,
                         gs: seq<int>): (r: (seq<seq<Poly>>, seq<seq<Poly>>))
    requires AllSized(party, ids, m, |A|) && |gs| == m
    ensures |r.0| == |r.1| == |ids| && Rectangle(r.0, m, |A|) && Rectangle(r.1, m, |A|)
    ensures forall p :: 0 <= p < |ids| ==>
              && r.0[p] == First2(party(ids[p]), PublicB(party, ids, m, A, t), t, H0s(party, ids, m, A, t, gs), m)
              && r.1[p] == Second2(party(ids[p]), A, t, H1s(party, ids, m, A, t), m)
  {
    var B, h0, h1 := PublicB(party, ids, m, A, t), H0s(party, ids, m, A, t, gs), H1s(party, ids, m, A, t);
    (seq(|ids|, p requires 0 <= p < |ids| => First2(party(ids[p]), B, t, h0, m)),
     seq(|ids|, p requires 0 <= p < |ids| => Second2(party(ids[p]), A, t, h1, m)))
  }

  /** The components `j` of all parties sum to `k`. */
  ghost predicate ColumnTotal(xs: seq<seq<Poly>>, m: nat, n: nat, j: nat, k: Poly)
    requires Rectangle(xs, m, n) && j < m
  {
    Total(n, PartyColumn(xs, j)) == k
  }

  lemma ColumnIs(xs: seq<seq<Poly>>, j: nat, c: PartyPolys)
    requires |xs| == |c| && forall p :: 0 <= p < |xs| ==> j < |xs[p]| && xs[p][j] == c[p]
    ensures PartyColumn(xs, j) == c
  {}

  /** Component `j` over all parties is the round-1 sum the algebra speaks of. */
  lemma Column1(party: Parties, ids: seq<nat>, m: nat, A: Poly, t: int, gs: seq<int>, j: nat)
    requires AllSized(party, ids, m, |A|) && |gs| == m && j < m
    ensures var g := Gather1(party, ids, m, A, t, gs);
      && ColumnTotal(g.0, m, |A|, j, H0(party, ids, m, A, t, gs, j))
      && ColumnTotal(g.1, m, |A|, j, H1(party, ids, m, A, t, j))
  {
    hide Total, Gather1, First1All, Second1All, First1, Second1, PublicB, H0s, H1s, PartyColumn;
    var g := Gather1(party, ids, m, A, t, gs);
    forall p | 0 <= p < |ids|
      ensures g.0[p][j] == First1All(party, ids, m, A, t, gs, j)[p]
      ensures g.1[p][j] == Second1All(party, ids, m, A, t, j)[p]
    {
      Entry1(party, ids, m, A, t, gs, j, p);
    }
    ColumnIs(g.0, j, First1All(party, ids, m, A, t, gs, j));
    ColumnIs(g.1, j, Second1All(party, ids, m, A, t, j));
  }

  /** One party's entry of a round-1 row. */
  lemma Entry1(party: Parties, ids: seq<nat>, m: nat, A: Poly, t: int, gs: seq<int>, j: nat, p: nat)
    requires AllSized(party, ids, m, |A|) && |gs| == m && j < m && p < |ids|
    ensures var g := Gather1(party, ids, m, A, t, gs);
      && |g.0[p]| == |g.1[p]| == m
      && g.0[p][j] == First1All(party, ids, m, A, t, gs, j)[p] && g.1[p][j] == Second1All(party, ids, m, A, t, j)[p]
  {
    hide PMul, PAdd, PScale, PublicB, Masked;
    assert RowInputs(party, ids, m, |A|, j)[p] == party(ids[p]).rows[j];
  }

  lemma Column2(party: Parties, ids: seq<nat>, m: nat, A: Poly, t: int, gs: seq<int>, j: nat)
    requires AllSized(party, ids, m, |A|) && |gs| == m && j < m
    ensures var g := Gather2(party, ids, m, A, t, gs);
      && ColumnTotal(g.0, m, |A|, j, Key0(party, ids, m, A, t, gs, j))
      && ColumnTotal(g.1, m, |A|, j, Key1(party, ids, m, A, t, j))
  {
    hide Total, Gather2, First2All, Second2All, First2, Second2, PublicB, H0s, H1s, PartyColumn;
    var g := Gather2(party, ids, m, A, t, gs);
    forall p | 0 <= p < |ids|
      ensures g.0[p][j] == First2All(party, ids, m, A, t, gs, j)[p]
      ensures g.1[p][j] == Second2All(party, ids, m, A, t, j)[p]
    {
      Entry2(party, ids, m, A, t, gs, j, p);
    }
    ColumnIs(g.0, j, First2All(party, ids, m, A, t, gs, j));
    ColumnIs(g.1, j, Second2All(party, ids, m, A, t, j));
  }

  /** One party's entry of a round-2 row. */
  lemma Entry2(party: Parties, ids: seq<nat>, m: nat, A: Poly, t: int, gs: seq<int>, j: nat, p: nat)
    requires AllSized(party, ids, m, |A|) && |gs| == m && j < m && p < |ids|
    ensures var g := Gather2(party, ids, m, A, t, gs);
      && |g.0[p]| == |g.1[p]| == m
      && g.0[p][j] == First2All(party, ids, m, A, t, gs, j)[p] && g.1[p][j] == Second2All(party, ids, m, A, t, j)[p]
  {
    hide PMul, PAdd, PScale, PublicB, H0, H1;
    assert RowInputs(party, ids, m, |A|, j)[p] == party(ids[p]).rows[j];
  }

  /** A share whose payload is what its creator's contract promises. */
  ghost predicate Created(share: Share<seq<RowPair>>, xs: seq<Poly>, ys: seq<Poly>, n: nat, qs: seq<int>)
    requires Moduli(qs)
  {
    PayloadIs(share.payload, xs, ys, n, qs)
  }

  /** Every share of the list is its own party's round-1 share. */
  ghost predicate Round1Shares(added: seq<Share<seq<RowPair>>>, party: Parties, ids: seq<nat>, m: nat, A: Poly, t: int,
                               gs: seq<int>, qs: seq<int>)
    requires Moduli(qs) && AllSized(party, ids, m, |A|) && |gs| == m
  {
    forall i :: 0 <= i < |added| ==>
      && party(added[i].participant).Sized(m, |A|)
      && Created(added[i], First1(party(added[i].participant), PublicB(party, ids, m, A, t), t, gs, m),
                 Second1(party(added[i].participant), A, t, m), |A|, qs)
  }

  /** Every share of the list is its own party's round-2 share, made from the round-1 aggregate. */
  ghost predicate Round2Shares(added: seq<Share<seq<RowPair>>>, party: Parties, ids: seq<nat>, m: nat, A: Poly, t: int,
                               gs: seq<int>, qs: seq<int>)
    requires Moduli(qs) && AllSized(party, ids, m, |A|) && |gs| == m
  {
    forall i :: 0 <= i < |added| ==>
      && party(added[i].participant).Sized(m, |A|)
      && Created(added[i], First2(party(added[i].participant), PublicB(party, ids, m, A, t), t,
                                  H0s(party, ids, m, A, t, gs), m),
                 Second2(party(added[i].participant), A, t, H1s(party, ids, m, A, t), m), |A|, qs)
  }

  /** The collected round-1 shares meet `SumRows`' precondition with the gathered polynomials. */
  lemma CollectedRound1(added: seq<Share<seq<RowPair>>>, party: Parties, m: nat, A: Poly, t: int, gs: seq<int>,
                        qs: seq<int>)
    requires Moduli(qs) && |gs| == m && DistinctParticipants(added)
    requires AllSized(party, Ids(InsertAll([], added)), m, |A|)
    requires Round1Shares(added, party, Ids(InsertAll([], added)), m, A, t, gs, qs)
    ensures var shares := InsertAll([], added);
      var g := Gather1(party, Ids(shares), m, A, t, gs);
      |shares| == |g.0| == |g.1| && forall p :: 0 <= p < |shares| ==>
            PayloadIs(shares[p].payload, g.0[p], g.1[p], |A|, qs)
  {
    hide First1, Second1, PublicB, PayloadIs;
    var shares := InsertAll([], added);
    InsertAllOrdered(added);
    SameMembers(shares, added);
    var g := Gather1(party, Ids(shares), m, A, t, gs);
    forall p | 0 <= p < |shares| ensures PayloadIs(shares[p].payload, g.0[p], g.1[p], |A|, qs) {
      assert shares[p] in added;
      var i :| 0 <= i < |added| && added[i] == shares[p];
      assert Created(added[i], g.0[p], g.1[p], |A|, qs);
    }
  }

  lemma CollectedRound2(added: seq<Share<seq<RowPair>>>, party: Parties, m: nat, A: Poly, t: int, gs: seq<int>,
                        qs: seq<int>)
    requires Moduli(qs) && |gs| == m && DistinctParticipants(added)
    requires AllSized(party, Ids(InsertAll([], added)), m, |A|)
    requires Round2Shares(added, party, Ids(InsertAll([], added)), m, A, t, gs, qs)
    ensures var shares := InsertAll([], added);
      var g := Gather2(party, Ids(shares), m, A, t, gs);
      |shares| == |g.0| == |g.1| && forall p :: 0 <= p < |shares| ==>
            PayloadIs(shares[p].payload, g.0[p], g.1[p], |A|, qs)
  {
    hide First2, Second2, PublicB, PayloadIs, H0s, H1s;
    var shares := InsertAll([], added);
    InsertAllOrdered(added);
    SameMembers(shares, added);
    var g := Gather2(party, Ids(shares), m, A, t, gs);
    forall p | 0 <= p < |shares| ensures PayloadIs(shares[p].payload, g.0[p], g.1[p], |A|, qs) {
      assert shares[p] in added;
      var i :| 0 <= i < |added| && added[i] == shares[p];
      assert Created(added[i], g.0[p], g.1[p], |A|, qs);
    }
  }

  /** The noise of row `j`, before the factor t. */
  ghost function RowNoise(party: Parties, ids: seq<nat>, m: nat, n: nat, j: nat): (r: Poly)
    requires AllSized(party, ids, m, n) && j < m
    ensures |r| == n
  {
    var row := RowOf(party, ids, m, n, j);
    RkgNoise(Total(n, Secrets(party, ids, m, n)), Total(n, PkErrors(party, ids, m, n)), Total(n, row.us),
             Total(n, row.e0s),
             Total(n, row.e1s), Total(n, row.vs), Total(n, row.e2s), Total(n, row.e3s))
  }

  /** The two collections, in whatever orders the shares arrived, and their sums `rows1` and `rows2`. */
  ghost predicate Run(added1: seq<Share<seq<RowPair>>>, added2: seq<Share<seq<RowPair>>>, rows1: seq<RowPair>,
                      rows2: seq<RowPair>, party: Parties, m: nat, A: Poly, t: int, gs: seq<int>, qs: seq<int>)
    requires Moduli(qs)
  {
    && |gs| == m && DistinctParticipants(added1) && DistinctParticipants(added2) && SameParties(added1, added2)
    && var ids := Ids(InsertAll([], added1));
       && AllSized(party, ids, m, |A|)
       && Round1Shares(added1, party, ids, m, A, t, gs, qs)
       && Round2Shares(added2, party, ids, m, A, t, gs, qs)
       && var g1, g2 := Gather1(party, ids, m, A, t, gs), Gather2(party, ids, m, A, t, gs);
          SummedRows(rows1, g1.0, g1.1, m, |A|, qs) && SummedRows(rows2, g2.0, g2.1, m, |A|, qs)
  }

  /** For any number of parties and any orders of arrival: the summed round-1 rows are the aggregate round 2 was
      made from, and the summed round-2 rows are a key encrypting g_j s^2 with noise t times `RowNoise`. */
  lemma CollectiveKeyRun(added1: seq<Share<seq<RowPair>>>, added2: seq<Share<seq<RowPair>>>, rows1: seq<RowPair>,
                         rows2: seq<RowPair>, party: Parties, m: nat, A: Poly, t: int, gs: seq<int>, qs: seq<int>,
                         j: nat)
    requires Moduli(qs) && Run(added1, added2, rows1, rows2, party, m, A, t, gs, qs) && j < m
    ensures Ids(InsertAll([], added1)) == Ids(InsertAll([], added2))
    ensures var ids, n := Ids(InsertAll([], added1)), |A|;
      var s := Total(n, Secrets(party, ids, m, n));
      var k0, k1 := Key0(party, ids, m, A, t, gs, j), Key1(party, ids, m, A, t, j);
      && RowIs(rows1[j], H0(party, ids, m, A, t, gs, j), H1(party, ids, m, A, t, j), n, qs)
      && RowIs(rows2[j], k0, k1, n, qs)
      && Phase2(k0, k1, s) == PAdd(PScale(t, RowNoise(party, ids, m, n, j)), PScale(gs[j], PMul(s, s)))
  {
    hide Total, PMul, PAdd, PScale, Phase2, RkgNoise, Residues, Gather1, Gather2, Round1Shares, Round2Shares,
      PartyColumn,
      CkgShares, Round1First, Round1Second, Round2;
    SameOrder(added1, added2);
    var ids, n := Ids(InsertAll([], added1)), |A|;
    var g1, g2 := Gather1(party, ids, m, A, t, gs), Gather2(party, ids, m, A, t, gs);
    assert SummedRow(rows1[j], g1.0, g1.1, j, n, qs) && SummedRow(rows2[j], g2.0, g2.1, j, n, qs);
    Column1(party, ids, m, A, t, gs, j);
    Column2(party, ids, m, A, t, gs, j);
    KeyIdentity(party, ids, m, A, t, gs, j);
  }

  /** The rows a run produces, as a key-switching key from s^2 to s: relinearizing with it is correct by
      `Evaluator.RelinearizeCorrect`, for BGV gadget rows and for hybrid rows (whose errors are unscaled, t = 1). */
  lemma CollectiveKeyRows(party: Parties, ids: seq<nat>, m: nat, A: Poly, t: int, gs: seq<int>, M: int,
                          keys0: seq<Poly>, keys1: seq<Poly>, noises: seq<Poly>)
    requires AllSized(party, ids, m, |A|) && |gs| == m == |keys0| == |keys1| == |noises|
    requires forall j :: 0 <= j < m ==>
               && keys0[j] == Key0(party, ids, m, A, t, gs, j) && keys1[j] == Key1(party, ids, m, A, t, j)
               && noises[j] == PScale(t, RowNoise(party, ids, m, |A|, j))
    ensures var s := Total(|A|, Secrets(party, ids, m, |A|));
      KeySwitchMath.Rows(keys0, keys1, noises, s, gs, PMul(s, s), M)
  {
    hide Total, PMul, PAdd, PScale, RkgNoise, CkgShares, Round1First, Round1Second, Round2, Key0, Key1, RowNoise, Cong;
    var n, s := |A|, Total(|A|, Secrets(party, ids, m, |A|));
    forall j | 0 <= j < m
      ensures KeySwitchMath.RowRelation(keys0[j], keys1[j], noises[j], s, gs[j], PMul(s, s), M)
    {
      KeyIdentity(party, ids, m, A, t, gs, j);
      PCongRefl(PAdd(noises[j], PScale(gs[j], PMul(s, s))), M);
    }
  }

  /** Key0 + Key1 s = g_j s^2 + t noise, exactly. */
  lemma KeyIdentity(party: Parties, ids: seq<nat>, m: nat, A: Poly, t: int, gs: seq<int>, j: nat)
    requires AllSized(party, ids, m, |A|) && |gs| == m && j < m
    ensures var n, s := |A|, Total(|A|, Secrets(party, ids, m, |A|));
      Phase2(Key0(party, ids, m, A, t, gs, j), Key1(party, ids, m, A, t, j), s)
        == PAdd(PScale(t, RowNoise(party, ids, m, n, j)), PScale(gs[j], PMul(s, s)))
  {
    hide Total, PMul, PAdd, PScale, Phase2, RkgNoise, CkgShares, Round1First, Round1Second, Round2;
    var n := |A|;
    CollectiveBgvRow(A, Secrets(party, ids, m, n), PkErrors(party, ids, m, n), RowOf(party, ids, m, n, j), gs[j], t);
  }

  lemma ScaleOne(a: Poly)
    ensures PScale(1, a) == a
  {}

  /** Hybrid contributions (`RkgRound1RowContributions`, `RkgRound2RowContributions`) are the t = 1 shares of a run. */
  lemma HybridContributionsFit(p: Party, B: Poly, A: Poly, gs: seq<int>, h0: seq<Poly>, h1: seq<Poly>, m: nat, j: nat)
    requires |B| == |A| && p.Sized(m, |A|) && |gs| == m && j < m
    requires |h0| == |h1| == m && Uniform(h0, |A|) && Uniform(h1, |A|)
    ensures RowSized(p.rows[j], |A|)
    ensures First1(p, B, 1, gs, m)[j] == Masked(B, p.rows[j].u, p.rows[j].e0, PScale(gs[j], p.s))
    ensures Second1(p, A, 1, m)[j] == PAdd(PMul(A, p.rows[j].u), p.rows[j].e1)
    ensures First2(p, B, 1, h0, m)[j] == PAdd(PAdd(PMul(p.s, h0[j]), PMul(B, p.rows[j].v)), p.rows[j].e2)
    ensures Second2(p, A, 1, h1, m)[j] == PAdd(PAdd(PMul(p.s, h1[j]), PMul(A, p.rows[j].v)), p.rows[j].e3)
  {
    hide PMul, PAdd, PScale, Masked;
    assert RowSized(p.rows[j], |A|);
    ScaleOne(p.rows[j].e0);
    ScaleOne(p.rows[j].e1);
    ScaleOne(p.rows[j].e2);
    ScaleOne(p.rows[j].e3);
  }

  /** What `CreateShareRound1` promises for a party's samples makes its share one of the run's round-1 shares. */
  lemma CreatedRound1(share: Share<seq<RowPair>>, p: Party, B: Poly, A: Poly, t: int, gs: seq<int>, m: nat,
                      U: seq<Poly>, E0: seq<Poly>, E1: seq<Poly>, ring: Rings.Ring)
    requires Moduli(ring.moduli) && |A| == |B| == ring.degree && p.Sized(m, |A|)
    requires |gs| == |share.payload| == |U| == |E0| == |E1| == m
    requires forall j :: 0 <= j < m ==> U[j] == p.rows[j].u && E0[j] == p.rows[j].e0 && E1[j] == p.rows[j].e1
    requires forall j :: 0 <= j < m ==> Round1Is(share.payload[j], B, A, p.s, gs[j], t, U, E0, E1, j, ring)
    ensures Created(share, First1(p, B, t, gs, m), Second1(p, A, t, m), |A|, ring.moduli)
  {
    hide PMul, PAdd, PScale, Masked, Residues;
    var xs, ys := First1(p, B, t, gs, m), Second1(p, A, t, m);
    forall j | 0 <= j < m ensures RowIs(share.payload[j], xs[j], ys[j], |A|, ring.moduli) {
      assert Round1Is(share.payload[j], B, A, p.s, gs[j], t, U, E0, E1, j, ring) && RowSized(p.rows[j], |A|);
    }
  }

  /** The same for `CreateShareRound2`, from the round-1 aggregate (h0, h1). */
  lemma CreatedRound2(share: Share<seq<RowPair>>, p: Party, B: Poly, A: Poly, t: int, h0: seq<Poly>, h1: seq<Poly>,
                      m: nat, V: seq<Poly>, E2: seq<Poly>, E3: seq<Poly>, ring: Rings.Ring)
    requires Moduli(ring.moduli) && |A| == |B| == ring.degree && p.Sized(m, |A|)
    requires |h0| == |h1| == |share.payload| == |V| == |E2| == |E3| == m && Uniform(h0, |A|) && Uniform(h1, |A|)
    requires forall j :: 0 <= j < m ==> V[j] == p.rows[j].v && E2[j] == p.rows[j].e2 && E3[j] == p.rows[j].e3
    requires forall j :: 0 <= j < m ==> Round2Is(share.payload[j], B, A, p.s, t, h0, h1, V, E2, E3, j, ring)
    ensures Created(share, First2(p, B, t, h0, m), Second2(p, A, t, h1, m), |A|, ring.moduli)
  {
    hide PMul, PAdd, PScale, Residues;
    var xs, ys := First2(p, B, t, h0, m), Second2(p, A, t, h1, m);
    forall j | 0 <= j < m ensures RowIs(share.payload[j], xs[j], ys[j], |A|, ring.moduli) {
      assert Round2Is(share.payload[j], B, A, p.s, t, h0, h1, V, E2, E3, j, ring) && RowSized(p.rows[j], |A|);
    }
  }

  // ------------------------------------------------------------ collective bootstrap

  /** A party's secret, errors and mask. */
  datatype Refresher = Refresher(s: Poly, e0: Poly, e1: Poly, mask: Poly) {
    ghost predicate Sized(n: nat, t: int) {
      |s| == |e0| == |e1| == |mask| == n && Below(mask, t)
    }
  }

  type Refreshers = nat -> Refresher

  ghost predicate AllReady(party: Refreshers, ids: seq<nat>, n: nat, t: int) {
    forall p :: 0 <= p < |ids| ==> party(ids[p]).Sized(n, t)
  }

  /** One of the four polynomials of every party. */
  ghost function Pick(party: Refreshers, ids: seq<nat>, n: nat, t: int, f: Refresher -> Poly): (ps: PartyPolys)
    requires AllReady(party, ids, n, t)
    requires forall r: Refresher :: r.Sized(n, t) ==> |f(r)| == n
    ensures |ps| == |ids| && Uniform(ps, n) && forall p :: 0 <= p < |ps| ==> ps[p] == f(party(ids[p]))
  {
    assert forall p :: 0 <= p < |ids| ==> party(ids[p]).Sized(n, t);
    seq(|ids|, p requires 0 <= p < |ids| => f(party(ids[p])))
  }

  ghost function Ss(party: Refreshers, ids: seq<nat>, n: nat, t: int): (ps: PartyPolys)
    requires AllReady(party, ids, n, t)
    ensures |ps| == |ids| && Uniform(ps, n) && forall p :: 0 <= p < |ps| ==> ps[p] == party(ids[p]).s
  {
    Pick(party, ids, n, t, (r: Refresher) => r.s)
  }

  ghost function E0s(party: Refreshers, ids: seq<nat>, n: nat, t: int): (ps: PartyPolys)
    requires AllReady(party, ids, n, t)
    ensures |ps| == |ids| && Uniform(ps, n) && forall p :: 0 <= p < |ps| ==> ps[p] == party(ids[p]).e0
  {
    Pick(party, ids, n, t, (r: Refresher) => r.e0)
  }

  ghost function E1s(party: Refreshers, ids: seq<nat>, n: nat, t: int): (ps: PartyPolys)
    requires AllReady(party, ids, n, t)
    ensures |ps| == |ids| && Uniform(ps, n) && forall p :: 0 <= p < |ps| ==> ps[p] == party(ids[p]).e1
  {
    Pick(party, ids, n, t, (r: Refresher) => r.e1)
  }

  ghost function Masks(party: Refreshers, ids: seq<nat>, n: nat, t: int): (ps: PartyPolys)
    requires AllReady(party, ids, n, t)
    ensures |ps| == |ids| && Uniform(ps, n) && forall p :: 0 <= p < |ps| ==>
              ps[p] == party(ids[p]).mask && Below(ps[p], t)
  {
    assert forall p :: 0 <= p < |ids| ==> party(ids[p]).Sized(n, t);
    Pick(party, ids, n, t, (r: Refresher) => r.mask)
  }

  /** Every share of the list is what `CreateShare` promises for its party. */
  ghost predicate RefreshSharesOf(added: seq<Share<RowPair>>, party: Refreshers, C1: Poly, A: Poly, t: int,
                                  qs: seq<int>)
    requires Moduli(qs) && |C1| == |A|
  {
    forall i :: 0 <= i < |added| ==>
      var p := party(added[i].participant);
      && p.Sized(|A|, t)
      && RowIs(added[i].payload, InteractiveBootstrap.RevealShare(C1, p.s, p.e0, p.mask, t),
               InteractiveBootstrap.RefreshShare(A, p.s, p.e1, p.mask, t), |A|, qs)
  }

  /** The collected shares meet `AggregateRefreshed`'s precondition, in whatever order they arrived. */
  lemma CollectedRefresh(added: seq<Share<RowPair>>, party: Refreshers, C1: Poly, A: Poly, t: int, qs: seq<int>)
    requires Moduli(qs) && |C1| == |A| && DistinctParticipants(added) && RefreshSharesOf(added, party, C1, A, t, qs)
    ensures AllReady(party, Ids(InsertAll([], added)), |A|, t)
    ensures var shares, n := InsertAll([], added), |A|;
      var ids := Ids(shares);
      var xs := InteractiveBootstrap.RevealShares(C1, Ss(party, ids, n, t), E0s(party, ids, n, t),
                                                  Masks(party, ids, n, t), t);
      var ys := InteractiveBootstrap.RefreshShares(A, Ss(party, ids, n, t), E1s(party, ids, n, t),
                                                   Masks(party, ids, n, t), t);
      |xs| == |ys| == |shares| && forall p :: 0 <= p < |shares| ==> RowIs(shares[p].payload, xs[p], ys[p], n, qs)
  {
    hide Residues, InteractiveBootstrap.RevealShare, InteractiveBootstrap.RefreshShare, Pick;
    var shares, n := InsertAll([], added), |A|;
    var ids := Ids(shares);
    InsertAllOrdered(added);
    SameMembers(shares, added);
    forall p | 0 <= p < |shares| ensures party(ids[p]).Sized(n, t) {
      assert shares[p] in added;
      var i :| 0 <= i < |added| && added[i] == shares[p];
    }
    var xs := InteractiveBootstrap.RevealShares(C1, Ss(party, ids, n, t), E0s(party, ids, n, t),
                                                Masks(party, ids, n, t), t);
    var ys := InteractiveBootstrap.RefreshShares(A, Ss(party, ids, n, t), E1s(party, ids, n, t),
                                                 Masks(party, ids, n, t), t);
    forall p | 0 <= p < |shares| ensures RowIs(shares[p].payload, xs[p], ys[p], n, qs) {
      assert shares[p] in added;
      var i :| 0 <= i < |added| && added[i] == shares[p];
    }
  }

  /** From the created shares, in any order of arrival, to the refreshed ciphertext: the pair (u + sum h1, a) that
      `AggregateRefreshed` returns decrypts exactly to m + t (E1 + w), 0 <= w <= number of parties. */
  lemma BootstrapRun(added: seq<Share<RowPair>>, party: Refreshers, C0: Poly, C1: Poly, A: Poly, m: Poly, nu: Poly,
                     t: int,
                     qs: seq<int>)
    requires |qs| > 0 && Moduli(qs) && t > 0 && |C0| == |C1| == |A| == |m| == |nu| && Below(m, t)
    requires DistinctParticipants(added) && RefreshSharesOf(added, party, C1, A, t, qs)
    requires AllReady(party, Ids(InsertAll([], added)), |A|, t)
    requires var ids, n := Ids(InsertAll([], added)), |A|;
      && PCong(Phase2(C0, C1, Total(n, Ss(party, ids, n, t))), PAdd(m, PScale(t, nu)), NumberTheory.Product(qs))
      && Batching.WithinHalf(InteractiveBootstrap.MaskedValue(m, nu, Total(n, E0s(party, ids, n, t)),
                                                              Total(n, Masks(party, ids, n, t)), t), qs[0])
    ensures var ids, n := Ids(InsertAll([], added)), |A|;
      var ss, ms := Ss(party, ids, n, t), Masks(party, ids, n, t);
      var xs := InteractiveBootstrap.RevealShares(C1, ss, E0s(party, ids, n, t), ms, t);
      var ys := InteractiveBootstrap.RefreshShares(A, ss, E1s(party, ids, n, t), ms, t);
      var u := InteractiveBootstrap.Revealed(PMod(PAdd(C0, Total(n, xs)), qs[0]), qs[0], t);
      var w := InteractiveBootstrap.Wraps(u, Total(n, ms), m, t);
      && |InsertAll([], added)| == |added|
      && Phase2(PAdd(u, Total(n, ys)), A, Total(n, ss)) == PAdd(m, PScale(t, PAdd(Total(n, E1s(party, ids, n, t)), w)))
      && forall i :: 0 <= i < n ==> 0 <= w[i] <= |added|
  {
    hide Total, PMul, PAdd, PScale, Phase2, PMod, InteractiveBootstrap.Revealed, InteractiveBootstrap.Wraps,
      InteractiveBootstrap.RevealShares, InteractiveBootstrap.RefreshShares, InteractiveBootstrap.MaskedValue, Pick;
    var ids, n := Ids(InsertAll([], added)), |A|;
    InsertAllOrdered(added);
    SameSize(InsertAll([], added), added);
    InteractiveBootstrap.BootstrapCorrect(C0, C1, A, m, nu, Ss(party, ids, n, t), E0s(party, ids, n, t),
                                          E1s(party, ids, n, t),
                                          Masks(party, ids, n, t), t, qs);
  }

  lemma SameSize<P>(xs: seq<Share<P>>, ys: seq<Share<P>>)
    requires multiset(xs) == multiset(ys)
    ensures |xs| == |ys|
  {
    assert |multiset(xs)| == |xs| && |multiset(ys)| == |ys|;
  }
}
