/** Protocol sessions, typed shares, and their aggregation. */
module Shares {
  import opened Integers
  import opened Results

  datatype ShareKind =
    CollectiveKeyGen | RelinearizationKeyGen | GaloisKeyGen | PartialDecryption | InteractiveBootstrap

  /** A validated session; participants are listed in increasing order. */
  datatype SessionState = SessionState(id: nat, protocol: nat, participants: seq<nat>, threshold: nat, round: u64) {
    predicate Valid() {
      0 < threshold <= |participants|
    }

    /** Saturating, like the counter it models. */
    function AdvanceRound(): (s: SessionState)
      ensures s.round == if round == 0xFFFF_FFFF_FFFF_FFFF then round else round + 1
      ensures s.(round := round) == this
    {
      this.(round := if round == 0xFFFF_FFFF_FFFF_FFFF then round else round + 1)
    }
  }

  method NewSession(id: nat, protocol: nat, participants: seq<nat>, threshold: nat) returns (r: Result<SessionState>)
    ensures r.Ok? <==> 0 < threshold <= |participants|
    ensures r.Ok? ==> r.value == SessionState(id, protocol, participants, threshold, 0) && r.value.Valid()
    ensures r.Err? ==> r.error == InvalidParameters
  {
    if threshold == 0 || threshold > |participants| {
      return Err(InvalidParameters);
    }
    return Ok(SessionState(id, protocol, participants, threshold, 0));
  }

  datatype Share<P> = Share(sessionId: nat, protocol: nat, round: u64, participant: nat, kind: ShareKind, payload: P) {
    /** The checks a share passes before it is collected, in the order they are made. */
    function CheckForSession(session: SessionState, kind': ShareKind): (r: Option<Error>)
      ensures r.None? <==> sessionId == session.id && protocol == session.protocol && round == session.round
                           && kind == kind' && participant in session.participants
      ensures r.Some? ==>
                r.value == if sessionId == session.id && protocol == session.protocol && round == session.round
                           then if kind == kind' then UnknownParticipant else MalformedMessage
                           else StaleShare
    {
      if sessionId != session.id || protocol != session.protocol || round != session.round then Some(StaleShare)
      else if kind != kind' then Some(MalformedMessage)
      else if participant !in session.participants then Some(UnknownParticipant)
      else None
    }
  }

  method NewShare<P>(session: SessionState, participant: nat, kind: ShareKind, payload: P) returns (r: Result<Share<P>>)
    ensures r == if participant in session.participants
                 then Ok(Share(session.id, session.protocol, session.round, participant, kind, payload))
                 else Err(UnknownParticipant)
    ensures r.Ok? ==> r.value.CheckForSession(session, kind).None?
  {
    if participant !in session.participants {
      return Err(UnknownParticipant);
    }
    return Ok(Share(session.id, session.protocol, session.round, participant, kind, payload));
  }

  // --------------------------------------------------------------- ordered storage

  ghost predicate Ordered<P>(xs: seq<Share<P>>) {
    forall i, j :: 0 <= i < j < |xs| ==> xs[i].participant < xs[j].participant
  }

  ghost predicate HasParticipant<P>(xs: seq<Share<P>>, p: nat) {
    exists i :: 0 <= i < |xs| && xs[i].participant == p
  }

  /** The entries with one more, at its place in participant order. */
  function Insert<P>(xs: seq<Share<P>>, x: Share<P>): (r: seq<Share<P>>)
    ensures |r| == |xs| + 1
  {
    if |xs| == 0 then [x]
    else if x.participant < xs[0].participant then [x] + xs
    else [xs[0]] + Insert(xs[1..], x)
  }

  /** Inserting keeps the order and adds exactly the new entry. */
  lemma {:induction false} InsertOrdered<P>(xs: seq<Share<P>>, x: Share<P>)
    requires Ordered(xs) && !HasParticipant(xs, x.participant)
    ensures Ordered(Insert(xs, x))
    ensures multiset(Insert(xs, x)) == multiset(xs) + multiset{x}
    ensures |xs| > 0 ==>
              Insert(xs, x)[0].participant == if x.participant < xs[0].participant then x.participant
                  else xs[0].participant
  {
    if |xs| > 0 {
      assert xs == [xs[0]] + xs[1..];
      if x.participant >= xs[0].participant {
        TailLacks(xs, x.participant);
        InsertOrdered(xs[1..], x);
        InsertHead(xs, x);
      }
    }
  }

  lemma TailLacks<P>(xs: seq<Share<P>>, p: nat)
    requires |xs| > 0 && !HasParticipant(xs, p)
    ensures !HasParticipant(xs[1..], p)
  {
    assert forall i :: 0 <= i < |xs[1..]| ==> xs[1..][i] == xs[i + 1];
  }

  /** Entries of a rearrangement are entries of the original. */
  lemma SameMembers<P>(xs: seq<Share<P>>, ys: seq<Share<P>>)
    requires multiset(xs) == multiset(ys)
    ensures forall i :: 0 <= i < |xs| ==> xs[i] in ys
  {
    forall i | 0 <= i < |xs| ensures xs[i] in ys {
      assert xs[i] in multiset(xs);
    }
  }

  /** Every entry's participant comes after `p`. */
  ghost predicate AllAfter<P>(xs: seq<Share<P>>, p: nat) {
    forall i :: 0 <= i < |xs| ==> p < xs[i].participant
  }

  lemma {:induction false} InsertAfter<P>(xs: seq<Share<P>>, x: Share<P>, p: nat)
    requires AllAfter(xs, p) && p < x.participant
    ensures AllAfter(Insert(xs, x), p)
  {
    if |xs| > 0 && x.participant >= xs[0].participant {
      assert forall i :: 0 <= i < |xs[1..]| ==> xs[1..][i] == xs[i + 1];
      InsertAfter(xs[1..], x, p);
    }
  }

  lemma InsertHead<P>(xs: seq<Share<P>>, x: Share<P>)
    requires |xs| > 0 && Ordered(xs) && x.participant > xs[0].participant && Ordered(Insert(xs[1..], x))
    ensures Ordered([xs[0]] + Insert(xs[1..], x))
  {
    assert AllAfter(xs[1..], xs[0].participant);
    InsertAfter(xs[1..], x, xs[0].participant);
    Prepend(xs[0], Insert(xs[1..], x));
  }

  lemma Prepend<P>(h: Share<P>, t: seq<Share<P>>)
    requires Ordered(t) && AllAfter(t, h.participant)
    ensures Ordered([h] + t)
  {}

  /** Ordered sequences with the same entries are equal. */
  lemma {:induction false} OrderedUnique<P>(xs: seq<Share<P>>, ys: seq<Share<P>>)
    requires Ordered(xs) && Ordered(ys) && multiset(xs) == multiset(ys)
    ensures xs == ys
  {
    assert |xs| == |multiset(xs)| && |ys| == |multiset(ys)|;
    if |xs| > 0 {
      TailsMatch(xs, ys);
      WithoutFirst(xs);
      WithoutFirst(ys);
      OrderedUnique(xs[1..], ys[1..]);
    }
  }

  lemma TailsMatch<P>(xs: seq<Share<P>>, ys: seq<Share<P>>)
    requires |xs| > 0 && |ys| > 0 && Ordered(xs) && Ordered(ys) && multiset(xs) == multiset(ys)
    ensures xs[0] == ys[0] && multiset(xs[1..]) == multiset(ys[1..])
  {
    SameMembers(xs, ys);
    SameMembers(ys, xs);
    SameFirst(xs, ys);
    WithoutFirst(xs);
    WithoutFirst(ys);
  }

  lemma WithoutFirst<P>(xs: seq<Share<P>>)
    requires |xs| > 0
    ensures multiset(xs[1..]) == multiset(xs) - multiset{xs[0]} && xs == [xs[0]] + xs[1..]
  {
    assert xs == [xs[0]] + xs[1..];
  }

  lemma FirstIsLeast<P>(xs: seq<Share<P>>, x: Share<P>)
    requires |xs| > 0 && Ordered(xs) && x in xs
    ensures xs[0].participant <= x.participant
    ensures x.participant == xs[0].participant ==> x == xs[0]
  {
    var i :| 0 <= i < |xs| && xs[i] == x;
  }

  lemma SameFirst<P>(xs: seq<Share<P>>, ys: seq<Share<P>>)
    requires |xs| > 0 && |ys| > 0 && Ordered(xs) && Ordered(ys)
    requires xs[0] in ys && ys[0] in xs
    ensures xs[0] == ys[0]
  {
    FirstIsLeast(xs, ys[0]);
    FirstIsLeast(ys, xs[0]);
  }

  // ------------------------------------------------------------------- aggregation

  /** Collects the shares of one session and kind, one per participant. */
  class ShareAggregator<P> {
    const session: SessionState
    const kind: ShareKind
    var shares: seq<Share<P>>

    /** In participant order, and every collected share passed the session checks. */
    ghost predicate Valid()
      reads this
    {
      && Ordered(shares)
      && forall i :: 0 <= i < |shares| ==> shares[i].CheckForSession(session, kind).None?
    }

    constructor (session: SessionState, kind: ShareKind)
      ensures Valid() && shares == [] && this.session == session && this.kind == kind
    {
      this.session := session;
      this.kind := kind;
      this.shares := [];
    }

    method AddShare(share: Share<P>) returns (r: Result<()>)
      requires Valid()
      modifies this
      ensures Valid()
      ensures share.CheckForSession(session, kind).Some? ==> r == Err(share.CheckForSession(session, kind).value)
      ensures share.CheckForSession(session, kind).None? ==>
                r == if HasParticipant(old(shares), share.participant) then Err(DuplicateParticipant) else Ok(())
      ensures r.Ok? ==> shares == Insert(old(shares), share)
      ensures r.Ok? ==> multiset(shares) == old(multiset(shares)) + multiset{share}
      ensures r.Err? ==> shares == old(shares)
    {
      var failed := share.CheckForSession(session, kind);
      if failed.Some? {
        return Err(failed.value);
      }
      for i := 0 to |shares|
        invariant forall k :: 0 <= k < i ==> shares[k].participant != share.participant
      {
        if shares[i].participant == share.participant {
          return Err(DuplicateParticipant);
        }
      }
      InsertOrdered(shares, share);
      ghost var before := shares;
      shares := Insert(shares, share);
      forall i | 0 <= i < |shares| ensures shares[i].CheckForSession(session, kind).None? {
        assert shares[i] in multiset(shares);
        if shares[i] != share {
          assert shares[i] in before;
        }
      }
      return Ok(());
    }

    predicate IsReady()
      reads this
    {
      |shares| >= session.threshold
    }

    /** Every collected share, once the threshold is reached. */
    method AllShares() returns (r: Result<seq<Share<P>>>)
      requires Valid()
      ensures r == if session.threshold <= |shares| then Ok(shares) else Err(ThresholdNotMet)
    {
      if !IsReady() {
        return Err(ThresholdNotMet);
      }
      return Ok(shares);
    }

    /** The first `threshold` shares only. */
    method Aggregate() returns (r: Result<seq<Share<P>>>)
      requires Valid()
      ensures session.threshold <= |shares| ==> r == Ok(shares[..session.threshold])
      ensures session.threshold > |shares| ==> r == Err(ThresholdNotMet)
    {
      if !IsReady() {
        return Err(ThresholdNotMet);
      }
      return Ok(shares[..session.threshold]);
    }
  }

  /** The entries after adding a list of shares, one by one. */
  function InsertAll<P>(xs: seq<Share<P>>, added: seq<Share<P>>): (r: seq<Share<P>>)
  {
    if |added| == 0 then xs else Insert(InsertAll(xs, added[..|added| - 1]), added[|added| - 1])
  }

  ghost predicate DistinctParticipants<P>(xs: seq<Share<P>>) {
    forall i, j :: 0 <= i < j < |xs| ==> xs[i].participant != xs[j].participant
  }

  lemma {:induction false} InsertAllOrdered<P>(added: seq<Share<P>>)
    requires DistinctParticipants(added)
    ensures Ordered(InsertAll([], added)) && multiset(InsertAll([], added)) == multiset(added)
  {
    if |added| > 0 {
      var k := |added| - 1;
      InsertAllOrdered(added[..k]);
      assert added == added[..k] + [added[k]];
      var e := InsertAll([], added[..k]);
      SameMembers(e, added[..k]);
      InsertOrdered(e, added[k]);
    }
  }

  /** Whatever order the same shares arrive in, the aggregator ends up with the same entries. */
  lemma OrderIndependent<P>(added: seq<Share<P>>, added': seq<Share<P>>)
    requires DistinctParticipants(added) && DistinctParticipants(added') && multiset(added) == multiset(added')
    ensures InsertAll([], added) == InsertAll([], added')
  {
    InsertAllOrdered(added);
    InsertAllOrdered(added');
    OrderedUnique(InsertAll([], added), InsertAll([], added'));
  }
}
