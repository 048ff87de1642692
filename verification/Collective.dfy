/** The algebra of collective keys: what the sums over all parties satisfy, exactly. */
module Collective {
  import opened Negacyclic
  import opened Substitution
  import opened PolySums
  import opened Rlwe

  /** Per-party polynomials, one row at a time. */
  type PartyPolys = seq<Poly>

  // ----------------------------------------------------------- shares as functions

  /** c u + e + x: the shape of every masked row of the protocols. */
  ghost function Masked(c: Poly, u: Poly, e: Poly, x: Poly): (r: Poly)
    requires |c| == |u| == |e| == |x|
    ensures |r| == |c|
  {
    PAdd(PAdd(PMul(c, u), e), x)
  }

  ghost function MaskedAll(c: Poly, us: PartyPolys, es: PartyPolys, xs: PartyPolys): (rs: PartyPolys)
    requires |us| == |es| == |xs| && Uniform(us, |c|) && Uniform(es, |c|) && Uniform(xs, |c|)
    ensures |rs| == |us| && Uniform(rs, |c|)
    ensures forall p :: 0 <= p < |rs| ==> rs[p] == Masked(c, us[p], es[p], xs[p])
  {
    seq(|us|, p requires 0 <= p < |us| => Masked(c, us[p], es[p], xs[p]))
  }

  lemma TotalNext(n: nat, ps: seq<Poly>, k: nat)
    requires Uniform(ps, n) && k < |ps|
    ensures Total(n, ps[..k + 1]) == PAdd(Total(n, ps[..k]), ps[k])
  {
    assert ps[..k + 1][..k] == ps[..k];
  }

  /** Summing masked rows sums mask, error and signal. */
  lemma {:induction false} MaskedTotal(c: Poly, us: PartyPolys, es: PartyPolys, xs: PartyPolys, k: nat)
    requires |us| == |es| == |xs| && Uniform(us, |c|) && Uniform(es, |c|) && Uniform(xs, |c|) && k <= |us|
    ensures Total(|c|, MaskedAll(c, us, es, xs)[..k])
         == Masked(c, Total(|c|, us[..k]), Total(|c|, es[..k]), Total(|c|, xs[..k]))
  {
    hide PMul, PAdd, Total;
    var n := |c|;
    if k == 0 {
      NoParties(us, n);
      NoParties(es, n);
      NoParties(xs, n);
      NoParties(MaskedAll(c, us, es, xs), n);
      MulZeroRight(n, c);
      AddZero(PZero(n));
    } else {
      MaskedTotal(c, us, es, xs, k - 1);
      TotalNext(n, us, k - 1);
      TotalNext(n, es, k - 1);
      TotalNext(n, xs, k - 1);
      TotalNext(n, MaskedAll(c, us, es, xs), k - 1);
      MaskedAdds(c, Total(n, us[..k - 1]), Total(n, es[..k - 1]), Total(n, xs[..k - 1]), us[k - 1], es[k - 1],
                 xs[k - 1]);
    }
  }

  lemma NoParties(ps: PartyPolys, n: nat)
    requires Uniform(ps, n)
    ensures Total(n, ps[..0]) == PZero(n)
  {}

  lemma MaskedAdds(c: Poly, u: Poly, e: Poly, x: Poly, u': Poly, e': Poly, x': Poly)
    requires |c| == |u| == |e| == |x| == |u'| == |e'| == |x'|
    ensures PAdd(Masked(c, u, e, x), Masked(c, u', e', x')) == Masked(c, PAdd(u, u'), PAdd(e, e'), PAdd(x, x'))
  {
    hide PMul, PAdd;
    MulAddRight(c, u, u');
    AddInterchange(PMul(c, u), e, PMul(c, u'), e');
    AddInterchange(PAdd(PMul(c, u), e), x, PAdd(PMul(c, u'), e'), x');
  }

  lemma MaskedTotals(c: Poly, us: PartyPolys, es: PartyPolys, xs: PartyPolys)
    requires |us| == |es| == |xs| && Uniform(us, |c|) && Uniform(es, |c|) && Uniform(xs, |c|)
    ensures Total(|c|, MaskedAll(c, us, es, xs)) == Masked(c, Total(|c|, us), Total(|c|, es), Total(|c|, xs))
  {
    hide Masked, Total;
    MaskedTotal(c, us, es, xs, |us|);
    assert us[..|us|] == us && es[..|us|] == es && xs[..|us|] == xs;
    assert MaskedAll(c, us, es, xs)[..|us|] == MaskedAll(c, us, es, xs);
  }

  // ---------------------------------------------------------------- the public key

  /** e - a s for one party. */
  ghost function CkgShare(a: Poly, s: Poly, e: Poly): (r: Poly)
    requires |a| == |s| == |e|
    ensures |r| == |a|
  {
    PSub(e, PMul(a, s))
  }

  ghost function CkgShares(a: Poly, ss: PartyPolys, es: PartyPolys): (rs: PartyPolys)
    requires |ss| == |es| && Uniform(ss, |a|) && Uniform(es, |a|)
    ensures |rs| == |ss| && Uniform(rs, |a|)
    ensures forall p :: 0 <= p < |rs| ==> rs[p] == CkgShare(a, ss[p], es[p])
  {
    seq(|ss|, p requires 0 <= p < |ss| => CkgShare(a, ss[p], es[p]))
  }

  /** The collective public key satisfies b + a s = sum of the errors, for the sum of the secrets. */
  lemma PublicKeyRelation(a: Poly, ss: PartyPolys, es: PartyPolys)
    requires |ss| == |es| && Uniform(ss, |a|) && Uniform(es, |a|)
    ensures PAdd(Total(|a|, CkgShares(a, ss, es)), PMul(a, Total(|a|, ss))) == Total(|a|, es)
  {
    hide Total, PAdd, PMul, CkgShare;
    var n, ks := |a|, |ss|;
    PublicKeySum(a, ss, es, ks);
    assert ss[..ks] == ss && es[..ks] == es && CkgShares(a, ss, es)[..ks] == CkgShares(a, ss, es);
  }

  lemma {:induction false} PublicKeySum(a: Poly, ss: PartyPolys, es: PartyPolys, k: nat)
    requires |ss| == |es| && Uniform(ss, |a|) && Uniform(es, |a|) && k <= |ss|
    ensures PAdd(Total(|a|, CkgShares(a, ss, es)[..k]), PMul(a, Total(|a|, ss[..k]))) == Total(|a|, es[..k])
  {
    hide Total, PAdd, PMul, PSub;
    var n := |a|;
    if k == 0 {
      NoParties(ss, n);
      NoParties(es, n);
      NoParties(CkgShares(a, ss, es), n);
      MulZeroRight(n, a);
      AddZero(PZero(n));
    } else {
      PublicKeySum(a, ss, es, k - 1);
      TotalNext(n, ss, k - 1);
      TotalNext(n, es, k - 1);
      TotalNext(n, CkgShares(a, ss, es), k - 1);
      MulAddRight(a, Total(n, ss[..k - 1]), ss[k - 1]);
      ShareCancels(Total(n, CkgShares(a, ss, es)[..k - 1]), PMul(a, Total(n, ss[..k - 1])), es[k - 1],
                   PMul(a, ss[k - 1]));
    }
  }

  lemma ShareCancels(x: Poly, y: Poly, e: Poly, z: Poly)
    requires |x| == |y| == |e| == |z|
    ensures PAdd(PAdd(x, PSub(e, z)), PAdd(y, z)) == PAdd(PAdd(x, y), e)
  {}

  // --------------------------------------------------------- relinearization rounds

  /** The noise of an aggregated relinearization row. */
  ghost function RkgNoise(s: Poly, ePk: Poly, U: Poly, E0: Poly, E1: Poly, V: Poly, E2: Poly, E3: Poly): (r: Poly)
    requires |s| == |ePk| == |U| == |E0| == |E1| == |V| == |E2| == |E3|
    ensures |r| == |s|
  {
    PAdd(PAdd(PAdd(PMul(s, PMul(U, ePk)), PMul(s, E0)), PAdd(PMul(PMul(s, s), E1), PMul(V, ePk))),
         PAdd(E2, PMul(s, E3)))
  }

  /** s (U e_pk) from the masks of round 1. */
  lemma MaskTerm(s: Poly, b: Poly, a: Poly, U: Poly, ePk: Poly)
    requires |s| == |b| == |a| == |U| == |ePk| && PAdd(b, PMul(a, s)) == ePk
    ensures PAdd(PMul(s, PMul(b, U)), PMul(PMul(s, PMul(a, U)), s)) == PMul(s, PMul(U, ePk))
  {
    hide PMul, PAdd;
    MulComm(PMul(s, PMul(a, U)), s);
    MulAddRight(s, PMul(b, U), PMul(s, PMul(a, U)));
    MaskInner(s, b, a, U, ePk);
  }

  lemma MaskInner(s: Poly, b: Poly, a: Poly, U: Poly, ePk: Poly)
    requires |s| == |b| == |a| == |U| == |ePk| && PAdd(b, PMul(a, s)) == ePk
    ensures PAdd(PMul(b, U), PMul(s, PMul(a, U))) == PMul(U, ePk)
  {
    hide PMul, PAdd;
    MulAssoc(s, a, U);
    MulComm(s, a);
    MulAddLeft(b, PMul(a, s), U);
    MulComm(ePk, U);
  }

  /** Key0 + Key1 s = g s^2 + (s U e_pk + s E0 + s^2 E1 + V e_pk + E2 + s E3), exactly. */
  lemma RkgIdentity(s: Poly, b: Poly, a: Poly, ePk: Poly, g: int,
                    U: Poly, E0: Poly, E1: Poly, V: Poly, E2: Poly, E3: Poly)
    requires |s| == |b| == |a| == |ePk| == |U| == |E0| == |E1| == |V| == |E2| == |E3|
    requires PAdd(b, PMul(a, s)) == ePk
    ensures var H0, H1 := Masked(b, U, E0, PScale(g, s)), PAdd(PMul(a, U), E1);
      Phase2(PAdd(PAdd(PMul(s, H0), PMul(b, V)), E2), PAdd(PAdd(PMul(s, H1), PMul(a, V)), E3), s)
        == PAdd(RkgNoise(s, ePk, U, E0, E1, V, E2, E3), PScale(g, PMul(s, s)))
  {
    hide PMul, PAdd, PScale;
    var bU, aU, gs := PMul(b, U), PMul(a, U), PScale(g, s);
    MulAddRight(s, PAdd(bU, E0), gs);
    MulAddRight(s, bU, E0);
    MulScaleRight(g, s, s);
    var sH1 := PMul(s, PAdd(aU, E1));
    MulAddRight(s, aU, E1);
    MulAddLeft(PAdd(sH1, PMul(a, V)), E3, s);
    MulAddLeft(sH1, PMul(a, V), s);
    MulAddLeft(PMul(s, aU), PMul(s, E1), s);
    MaskTerm(s, b, a, U, ePk);
    SquareTerm(s, E1);
    RoundTwoMask(s, b, a, V, ePk);
    MulComm(E3, s);
    CollectTerms(PMul(s, bU), PMul(s, E0), PScale(g, PMul(s, s)), PMul(b, V), E2,
                 PMul(PMul(s, aU), s), PMul(PMul(s, E1), s), PMul(PMul(a, V), s), PMul(s, E3),
                 PMul(s, PMul(U, ePk)), PMul(V, ePk));
  }

  lemma SquareTerm(s: Poly, e: Poly)
    requires |s| == |e|
    ensures PMul(PMul(s, e), s) == PMul(PMul(s, s), e)
  {
    hide PMul;
    MulAssoc(s, e, s);
    MulComm(e, s);
    MulAssoc(s, s, e);
  }

  lemma RoundTwoMask(s: Poly, b: Poly, a: Poly, V: Poly, ePk: Poly)
    requires |s| == |b| == |a| == |V| == |ePk| && PAdd(b, PMul(a, s)) == ePk
    ensures PAdd(PMul(b, V), PMul(PMul(a, V), s)) == PMul(V, ePk)
  {
    hide PMul, PAdd;
    MulComm(PMul(a, V), s);
    MaskInner(s, b, a, V, ePk);
  }

  lemma CollectTerms(sbU: Poly, sE0: Poly, gss: Poly, bV: Poly, E2: Poly,
                     saUs: Poly, ssE1: Poly, aVs: Poly, sE3: Poly, sUe: Poly, Ve: Poly)
    requires |sbU| == |sE0| == |gss| == |bV| == |E2| == |saUs| == |ssE1| == |aVs| == |sE3| == |sUe| == |Ve|
    requires PAdd(sbU, saUs) == sUe && PAdd(bV, aVs) == Ve
    ensures PAdd(PAdd(PAdd(PAdd(PAdd(sbU, sE0), gss), bV), E2), PAdd(PAdd(PAdd(saUs, ssE1), aVs), sE3))
         == PAdd(PAdd(PAdd(PAdd(sUe, sE0), PAdd(ssE1, Ve)), PAdd(E2, sE3)), gss)
  {
    var l := PAdd(PAdd(PAdd(PAdd(PAdd(sbU, sE0), gss), bV), E2), PAdd(PAdd(PAdd(saUs, ssE1), aVs), sE3));
    var r := PAdd(PAdd(PAdd(PAdd(sUe, sE0), PAdd(ssE1, Ve)), PAdd(E2, sE3)), gss);
    var x, y := PAdd(sbU, saUs), PAdd(bV, aVs);
    forall i | 0 <= i < |l| ensures l[i] == r[i] {
      assert x[i] == sUe[i] && y[i] == Ve[i];
    }
  }

  /** A party's share of round 2: its secret times the round-1 aggregate, masked again. */
  ghost function Products(ss: PartyPolys, h: Poly): (rs: PartyPolys)
    requires Uniform(ss, |h|)
    ensures |rs| == |ss| && Uniform(rs, |h|) && forall p :: 0 <= p < |rs| ==> rs[p] == PMul(ss[p], h)
  {
    seq(|ss|, p requires 0 <= p < |ss| => PMul(ss[p], h))
  }

  ghost function ScaledSecrets(g: int, ss: PartyPolys, n: nat): (rs: PartyPolys)
    requires Uniform(ss, n)
    ensures |rs| == |ss| && Uniform(rs, n) && forall p :: 0 <= p < |rs| ==> rs[p] == PScale(g, ss[p])
  {
    seq(|ss|, p requires 0 <= p < |ss| => PScale(g, ss[p]))
  }

  /** What the parties contribute to one row of the two rounds. */
  datatype RkgRow = RkgRow(us: PartyPolys, e0s: PartyPolys, e1s: PartyPolys, vs: PartyPolys, e2s: PartyPolys,
                           e3s: PartyPolys) {
    ghost predicate Sized(parties: nat, n: nat) {
      && |us| == |e0s| == |e1s| == |vs| == |e2s| == |e3s| == parties
      && Uniform(us, n) && Uniform(e0s, n) && Uniform(e1s, n) && Uniform(vs, n) && Uniform(e2s, n) && Uniform(e3s, n)
    }
  }

  /** All parties' round-1 shares of one row. */
  ghost function Round1First(row: RkgRow, b: Poly, ss: PartyPolys, g: int): (rs: PartyPolys)
    requires Uniform(ss, |b|) && row.Sized(|ss|, |b|)
    ensures |rs| == |ss| && Uniform(rs, |b|)
  {
    MaskedAll(b, row.us, row.e0s, ScaledSecrets(g, ss, |b|))
  }

  ghost function Round1Second(row: RkgRow, a: Poly, parties: nat): (rs: PartyPolys)
    requires row.Sized(parties, |a|)
    ensures |rs| == parties && Uniform(rs, |a|)
    ensures forall p :: 0 <= p < parties ==> rs[p] == PAdd(PMul(a, row.us[p]), row.e1s[p])
  {
    seq(parties, p requires 0 <= p < parties => PAdd(PMul(a, row.us[p]), row.e1s[p]))
  }

  /** All parties' round-2 shares of one component of a row: s_p h + c v_p + e_p. */
  ghost function Round2(c: Poly, vs: PartyPolys, es: PartyPolys, ss: PartyPolys, h: Poly): (rs: PartyPolys)
    requires |vs| == |es| == |ss| && Uniform(vs, |c|) && Uniform(es, |c|) && Uniform(ss, |c|) && |h| == |c|
    ensures |rs| == |ss| && Uniform(rs, |c|)
    ensures forall p :: 0 <= p < |rs| ==> rs[p] == PAdd(PAdd(PMul(ss[p], h), PMul(c, vs[p])), es[p])
  {
    seq(|ss|, p requires 0 <= p < |ss| => PAdd(PAdd(PMul(ss[p], h), PMul(c, vs[p])), es[p]))
  }

  lemma PlainTotal(a: Poly, row: RkgRow, parties: nat)
    requires row.Sized(parties, |a|)
    ensures Total(|a|, Round1Second(row, a, parties)) == PAdd(PMul(a, Total(|a|, row.us)), Total(|a|, row.e1s))
  {
    hide PMul, PAdd, Total;
    var n := |a|;
    var xs := Round1Second(row, a, parties);
    var ms := MulAll(a, row.us);
    TotalAdd(n, ms, row.e1s, xs);
    MulTotal(a, row.us);
  }

  ghost function MulAll(a: Poly, us: PartyPolys): (rs: PartyPolys)
    requires Uniform(us, |a|)
    ensures |rs| == |us| && Uniform(rs, |a|) && forall p :: 0 <= p < |rs| ==> rs[p] == PMul(a, us[p])
  {
    seq(|us|, p requires 0 <= p < |us| => PMul(a, us[p]))
  }

  lemma MulTotal(a: Poly, us: PartyPolys)
    requires Uniform(us, |a|)
    ensures Total(|a|, MulAll(a, us)) == PMul(a, Total(|a|, us))
  {
    hide PMul, Total;
    var n := |a|;
    forall p | 0 <= p < |us| ensures MulAll(a, us)[p] == PMul(us[p], a) {
      MulComm(a, us[p]);
    }
    TotalTimes(n, us, MulAll(a, us), a);
    MulComm(a, Total(n, us));
  }

  lemma Round2Total(c: Poly, vs: PartyPolys, es: PartyPolys, ss: PartyPolys, h: Poly)
    requires |vs| == |es| == |ss| && Uniform(vs, |c|) && Uniform(es, |c|) && Uniform(ss, |c|) && |h| == |c|
    ensures Total(|c|, Round2(c, vs, es, ss, h))
         == PAdd(PAdd(PMul(Total(|c|, ss), h), PMul(c, Total(|c|, vs))), Total(|c|, es))
  {
    hide PMul, PAdd, Total;
    var n := |c|;
    var ps, ms := Products(ss, h), MulAll(c, vs);
    var qs := seq(|ss|, p requires 0 <= p < |ss| => PAdd(ps[p], ms[p]));
    TotalTimes(n, ss, ps, h);
    MulTotal(c, vs);
    TotalAdd(n, ps, ms, qs);
    TotalAdd(n, qs, es, Round2(c, vs, es, ss, h));
  }

  /** For any number of parties: if the same parties contribute to the public key and to both rounds,
      the aggregated row encrypts g s^2 under s = sum s_p with the stated noise. */
  lemma CollectiveRelinearizationRow(a: Poly, ss: PartyPolys, pkErrors: PartyPolys, row: RkgRow, g: int)
    requires |pkErrors| == |ss| && Uniform(ss, |a|) && Uniform(pkErrors, |a|) && row.Sized(|ss|, |a|)
    ensures var n, b := |a|, Total(|a|, CkgShares(a, ss, pkErrors));
      var s, H0, H1 := Total(n, ss), Total(n, Round1First(row, b, ss, g)), Total(n, Round1Second(row, a, |ss|));
      var Key0, Key1 := Total(n, Round2(b, row.vs, row.e2s, ss, H0)), Total(n, Round2(a, row.vs, row.e3s, ss, H1));
      Phase2(Key0, Key1, s)
        == PAdd(RkgNoise(s, Total(n, pkErrors), Total(n, row.us), Total(n, row.e0s), Total(n, row.e1s),
                         Total(n, row.vs), Total(n, row.e2s), Total(n, row.e3s)),
                PScale(g, PMul(s, s)))
  {
    hide PMul, PAdd, PScale, Total, Phase2, RkgNoise;
    var n, b, s := |a|, Total(|a|, CkgShares(a, ss, pkErrors)), Total(|a|, ss);
    PublicKeyRelation(a, ss, pkErrors);
    TotalScale(n, g, ss, ScaledSecrets(g, ss, n));
    MaskedTotals(b, row.us, row.e0s, ScaledSecrets(g, ss, n));
    PlainTotal(a, row, |ss|);
    var H0, H1 := Total(n, Round1First(row, b, ss, g)), Total(n, Round1Second(row, a, |ss|));
    Round2Total(b, row.vs, row.e2s, ss, H0);
    Round2Total(a, row.vs, row.e3s, ss, H1);
    RkgIdentity(s, b, a, Total(n, pkErrors), g, Total(n, row.us), Total(n, row.e0s), Total(n, row.e1s),
                Total(n, row.vs), Total(n, row.e2s), Total(n, row.e3s));
  }

  // -------------------------------------------------------------- Galois key rows

  /** One party's Galois row: (g x + e) - a s. */
  ghost function GkgShare(a: Poly, s: Poly, e: Poly, g: int, x: Poly): (r: Poly)
    requires |a| == |s| == |e| == |x|
    ensures |r| == |a|
  {
    PSub(PAdd(PScale(g, x), e), PMul(a, s))
  }

  ghost function GkgShares(a: Poly, ss: PartyPolys, es: PartyPolys, g: int, xs: PartyPolys): (rs: PartyPolys)
    requires |ss| == |es| == |xs| && Uniform(ss, |a|) && Uniform(es, |a|) && Uniform(xs, |a|)
    ensures |rs| == |ss| && Uniform(rs, |a|)
    ensures forall p :: 0 <= p < |rs| ==> rs[p] == GkgShare(a, ss[p], es[p], g, xs[p])
  {
    seq(|ss|, p requires 0 <= p < |ss| => GkgShare(a, ss[p], es[p], g, xs[p]))
  }

  ghost function SubstAll(ss: PartyPolys, k: int, n: nat): (rs: PartyPolys)
    requires Uniform(ss, n)
    ensures |rs| == |ss| && Uniform(rs, n) && forall p :: 0 <= p < |rs| ==> rs[p] == PSubst(ss[p], k)
  {
    seq(|ss|, p requires 0 <= p < |ss| => PSubst(ss[p], k))
  }

  lemma {:induction false} SubstTotal(ss: PartyPolys, k: int, n: nat, j: nat)
    requires Uniform(ss, n) && j <= |ss|
    ensures Total(n, SubstAll(ss, k, n)[..j]) == PSubst(Total(n, ss[..j]), k)
  {
    hide PSubst, Total, PAdd;
    if j == 0 {
      NoParties(ss, n);
      NoParties(SubstAll(ss, k, n), n);
      SubstZero(n, k);
    } else {
      SubstTotal(ss, k, n, j - 1);
      TotalNext(n, ss, j - 1);
      TotalNext(n, SubstAll(ss, k, n), j - 1);
      SubstAdd(Total(n, ss[..j - 1]), ss[j - 1], k);
    }
  }

  lemma SubstZero(n: nat, k: int)
    ensures PSubst(PZero(n), k) == PZero(n)
  {
    hide PSubst;
    SubstAdd(PZero(n), PZero(n), k);
    AddZero(PZero(n));
    Doubled(PSubst(PZero(n), k), n);
  }

  lemma Doubled(a: Poly, n: nat)
    requires |a| == n && a == PAdd(a, a)
    ensures a == PZero(n)
  {
    forall i | 0 <= i < n ensures a[i] == PZero(n)[i] {
      assert a[i] == PAdd(a, a)[i];
    }
  }

  /** The aggregated row decrypts to the errors of all parties with their signals. */
  lemma GkgPhase(a: Poly, ss: PartyPolys, es: PartyPolys, g: int, xs: PartyPolys)
    requires |ss| == |es| == |xs| && Uniform(ss, |a|) && Uniform(es, |a|) && Uniform(xs, |a|)
    ensures Phase2(Total(|a|, GkgShares(a, ss, es, g, xs)), a, Total(|a|, ss))
         == Total(|a|, Sums(ScaledSecrets(g, xs, |a|), es, |a|))
  {
    hide Total, PAdd, PMul, PScale, CkgShares, GkgShares, Sums, ScaledSecrets;
    GkgIsCkg(a, ss, es, g, xs);
    PublicKeyRelation(a, ss, Sums(ScaledSecrets(g, xs, |a|), es, |a|));
  }

  /** The aggregated Galois row encrypts g sigma_k(s) under s = sum s_p with error sum e_p. */
  lemma CollectiveGaloisRow(a: Poly, ss: PartyPolys, es: PartyPolys, g: int, k: int)
    requires |ss| == |es| && Uniform(ss, |a|) && Uniform(es, |a|)
    ensures var n, s := |a|, Total(|a|, ss);
      Phase2(Total(n, GkgShares(a, ss, es, g, SubstAll(ss, k, n))), a, s) == PAdd(Total(n, es), PScale(g, PSubst(s, k)))
  {
    hide PSubst, Total, PAdd, PMul, PScale, GkgShares, SubstAll, Sums, ScaledSecrets, Phase2;
    GkgPhase(a, ss, es, g, SubstAll(ss, k, |a|));
    SignalTotal(ss, es, g, k, |a|);
  }

  /** The errors of all parties with their signals. */
  lemma SignalTotal(ss: PartyPolys, es: PartyPolys, g: int, k: int, n: nat)
    requires |ss| == |es| && Uniform(ss, n) && Uniform(es, n)
    ensures Total(n, Sums(ScaledSecrets(g, SubstAll(ss, k, n), n), es, n))
         == PAdd(Total(n, es), PScale(g, PSubst(Total(n, ss), k)))
  {
    hide PSubst, Total, PAdd, PScale;
    var xs := SubstAll(ss, k, n);
    var zs := ScaledSecrets(g, xs, n);
    TotalAdd(n, zs, es, Sums(zs, es, n));
    TotalScale(n, g, xs, zs);
    SubstTotals(ss, k, n);
    AddComm(Total(n, zs), Total(n, es));
  }

  ghost function Sums(ps: PartyPolys, qs: PartyPolys, n: nat): (rs: PartyPolys)
    requires |ps| == |qs| && Uniform(ps, n) && Uniform(qs, n)
    ensures |rs| == |ps| && Uniform(rs, n) && forall p :: 0 <= p < |rs| ==> rs[p] == PAdd(ps[p], qs[p])
  {
    seq(|ps|, p requires 0 <= p < |ps| => PAdd(ps[p], qs[p]))
  }

  /** A Galois share is a public-key share whose error carries the scaled signal. */
  lemma GkgIsCkg(a: Poly, ss: PartyPolys, es: PartyPolys, g: int, xs: PartyPolys)
    requires |ss| == |es| == |xs| && Uniform(ss, |a|) && Uniform(es, |a|) && Uniform(xs, |a|)
    ensures GkgShares(a, ss, es, g, xs) == CkgShares(a, ss, Sums(ScaledSecrets(g, xs, |a|), es, |a|))
  {
    hide PMul, PScale, PAdd, PSub;
    var l, r := GkgShares(a, ss, es, g, xs), CkgShares(a, ss, Sums(ScaledSecrets(g, xs, |a|), es, |a|));
    forall p | 0 <= p < |ss| ensures l[p] == r[p] {
      assert l[p] == GkgShare(a, ss[p], es[p], g, xs[p]);
    }
  }

  lemma SubstTotals(ss: PartyPolys, k: int, n: nat)
    requires Uniform(ss, n)
    ensures Total(n, SubstAll(ss, k, n)) == PSubst(Total(n, ss), k)
  {
    hide PSubst, Total;
    SubstTotal(ss, k, n, |ss|);
    assert ss[..|ss|] == ss && SubstAll(ss, k, n)[..|ss|] == SubstAll(ss, k, n);
  }
}
