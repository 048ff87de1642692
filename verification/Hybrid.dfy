/** Collective hybrid keys: every participant's contribution, row by row, over QP. */
module Hybrid {
  import opened Integers
  import opened NumberTheory
  import opened Results
  import opened Negacyclic
  import opened Substitution
  import opened Rns
  import opened PolySums
  import opened RnsExtension
  import opened Rings
  import opened Rlwe
  import opened KeySwitchMath
  import opened KeySwitch
  import opened Evaluator
  import opened Collective

  type RowPair = (RnsPoly, RnsPoly)

  ghost predicate RowIs(row: RowPair, x: Poly, y: Poly, n: nat, qs: seq<int>)
    requires Moduli(qs)
  {
    |x| == |y| == n && row.0 == Residues(x, qs) && row.1 == Residues(y, qs)
  }

  /** The sampled elements are residues of these polynomials. */
  ghost predicate Sampled(xs: seq<RnsPoly>, Xs: seq<Poly>, count: nat, n: nat, qs: seq<int>)
    requires Moduli(qs)
  {
    |xs| == |Xs| == count && forall j :: 0 <= j < count ==> |Xs[j]| == n && xs[j] == Residues(Xs[j], qs)
  }

  lemma SampledAt(xs: seq<RnsPoly>, Xs: seq<Poly>, count: nat, n: nat, qs: seq<int>, j: nat)
    requires Moduli(qs) && Sampled(xs, Xs, count, n, qs) && j < count
    ensures |xs| == |Xs| == count && |Xs[j]| == n && xs[j] == Residues(Xs[j], qs)
  {}

  /** A party's secret key and the secret that is read from its first component; other than ternary ones are
      refused. */
  ghost predicate SecretShare(sk: RnsPoly, s: Poly, ring: Ring) {
    ring.Fits(sk) && Reduced(sk, ring.moduli) && |sk| > 0 && s == TernaryPoly(sk[0])
  }

  /** For a ternary secret, what is read is the secret. */
  lemma TernaryShare(sk: RnsPoly, s: Poly, ring: Ring)
    requires ring.Valid() && |s| == ring.degree && PBound(s, 1) && sk == Residues(s, ring.moduli)
    ensures SecretShare(sk, s, ring) && AllTernary(sk[0], ring.moduli[0])
  {
    hide PMod, PBound;
    TernaryRead(s, ring.moduli[0]);
  }

  method QpParams(ring: Ring, pModuli: seq<Modulus>) returns (r: Result<Ring>)
    requires ring.Valid() && (|pModuli| > 0 ==> PrimeBasis(ring.moduli + pModuli))
    ensures r.Ok? <==> |pModuli| > 0
    ensures r.Ok? ==> r.value.Sound() && r.value.degree == ring.degree && r.value.moduli == ring.moduli + pModuli
    ensures r.Err? ==> r.error == InvalidParameters
  {
    if |pModuli| == 0 {
      return Err(InvalidParameters);
    }
    var qpRing := ExtendedRing(ring, pModuli);
    return Ok(qpRing);
  }

  // ---------------------------------------------------------- collective public key

  /** b_i = e_i - a s_i over QP. */
  method QpCkgContribution(ring: Ring, pModuli: seq<Modulus>, a: RnsPoly, sk: RnsPoly, e: RnsPoly,
                           ghost A: Poly, ghost s: Poly, ghost E: Poly) returns (r: Result<RnsPoly>)
    requires ring.Valid() && (|pModuli| > 0 ==> PrimeBasis(ring.moduli + pModuli)) && SecretShare(sk, s, ring)
    requires |A| == |E| == ring.degree
    requires a == Residues(A, ring.moduli + pModuli) && e == Residues(E, ring.moduli + pModuli)
    ensures r.Ok? <==> |pModuli| > 0 && AllTernary(sk[0], ring.moduli[0])
    ensures r.Ok? ==> r.value == Residues(CkgShare(A, s, E), ring.moduli + pModuli)
    ensures r.Err? ==> r.error == InvalidParameters
  {
    hide PMul, PMod, Residues, IsPrime, TwoTo, Ring.Sound;
    var qpRing :- QpParams(ring, pModuli);
    SoundIsValid(qpRing);
    var sQp :- RebaseTernarySecret(sk, ring.moduli[0], qpRing);
    var product := qpRing.Mul(a, sQp);
    ResMul(A, s, qpRing.moduli);
    var difference := qpRing.Sub(e, product.value);
    ResSub(E, PMul(A, s), qpRing.moduli);
    return Ok(difference.value);
  }

  /** The sum of all contributions, beside the common a. */
  method AggregateQpPublicKey(ring: Ring, pModuli: seq<Modulus>, contributions: seq<RnsPoly>, a: RnsPoly,
                              ghost bs: seq<Poly>)
    returns (r: Result<RowPair>)
    requires ring.Valid() && (|pModuli| > 0 ==> PrimeBasis(ring.moduli + pModuli))
    requires Sampled(contributions, bs, |contributions|, ring.degree, ring.moduli + pModuli)
    ensures r.Ok? <==> |pModuli| > 0
    ensures Uniform(bs, ring.degree)
    ensures r.Ok? ==> r.value == (Residues(Total(ring.degree, bs), ring.moduli + pModuli), a)
    ensures r.Err? ==> r.error == InvalidParameters
  {
    hide PMod, Residues, IsPrime, TwoTo, Ring.Sound, Total, Ring.Zero;
    assert Uniform(bs, ring.degree);
    var qpRing :- QpParams(ring, pModuli);
    SoundIsValid(qpRing);
    var n := ring.degree;
    ZeroResidues(qpRing);
    NoParties(bs, n);
    var bSum := qpRing.Zero();
    for p := 0 to |contributions|
      invariant bSum == Residues(Total(n, bs[..p]), qpRing.moduli)
    {
      var next := qpRing.Add(bSum, contributions[p]);
      ResAdd(Total(n, bs[..p]), bs[p], qpRing.moduli);
      TotalNext(n, bs, p);
      bSum := next.value;
    }
    assert bs[..|bs|] == bs;
    return Ok((bSum, a));
  }

  // ------------------------------------------------------------------- Galois rows

  method GkgRow(qpRing: Ring, j: nat, sigmaQp: RnsPoly, sQp: RnsPoly, a: RnsPoly, e: RnsPoly,
                ghost A: Poly, ghost s: Poly, ghost x: Poly, ghost E: Poly) returns (row: RowPair)
    requires qpRing.Sound() && PrimeBasis(qpRing.moduli) && j < |qpRing.moduli|
    requires |A| == |s| == |x| == |E| == qpRing.degree
    requires a == Residues(A, qpRing.moduli) && e == Residues(E, qpRing.moduli)
    requires sQp == Residues(s, qpRing.moduli) && sigmaQp == Residues(x, qpRing.moduli)
    ensures RowIs(row, GkgShare(A, s, E, Cofactor(qpRing.moduli, j), x), A, qpRing.degree, qpRing.moduli)
  {
    hide PMul, PMod, Residues, IsPrime, TwoTo, Ring.Sound, Cofactor;
    SoundIsValid(qpRing);
    var qp := qpRing.moduli;
    ghost var g := Cofactor(qp, j);
    var scale := CrtBasisConstant(qp, j, qp);
    var scaled := ScalePolyPerComponent(qpRing, sigmaQp, scale.value, g);
    ResScale(g, x, qp);
    var product := qpRing.Mul(a, sQp);
    ResMul(A, s, qp);
    var sum := qpRing.Add(scaled, e);
    ResAdd(PScale(g, x), E, qp);
    var b := qpRing.Sub(sum.value, product.value);
    ResSub(PAdd(PScale(g, x), E), PMul(A, s), qp);
    row := (b.value, a);
  }

  method GkgRowContributions(ring: Ring, pModuli: seq<Modulus>, element: nat, sk: RnsPoly,
                             aRows: seq<RnsPoly>, es: seq<RnsPoly>, ghost s: Poly, ghost As: seq<Poly>,
                             ghost Es: seq<Poly>)
    returns (r: Result<seq<RowPair>>)
    requires ring.Valid() && (|pModuli| > 0 ==> PrimeBasis(ring.moduli + pModuli)) && SecretShare(sk, s, ring)
    requires Sampled(aRows, As, |ring.moduli|, ring.degree, ring.moduli + pModuli)
    requires Sampled(es, Es, |ring.moduli|, ring.degree, ring.moduli + pModuli)
    ensures r.Ok? <==> |pModuli| > 0 && element % 2 == 1 && AllTernary(sk[0], ring.moduli[0])
    ensures r.Ok? ==> |r.value| == |ring.moduli| && forall j :: 0 <= j < |r.value| ==>
              |As[j]| == |Es[j]| == |s| && RowIs(r.value[j],
                                                 GkgShare(As[j], s, Es[j], RowScales(ring.moduli, pModuli)[j],
                                                          PSubst(s, element)),
                                                 As[j], ring.degree, ring.moduli + pModuli)
    ensures r.Err? ==> r.error == InvalidParameters
  {
    hide PMod, Residues, IsPrime, TwoTo, Ring.Sound, Cofactor, PSubst, GkgShare;
    var qpRing :- QpParams(ring, pModuli);
    SoundIsValid(qpRing);
    var sigma := ring.ApplyAutomorphism(sk, element);
    if sigma.Err? {
      return Err(InvalidParameters);
    }
    if AllTernary(sk[0], ring.moduli[0]) {
      SigmaRead(sk[0], element, ring.moduli[0]);
    }
    var sigmaQp :- RebaseTernarySecret(sigma.value, ring.moduli[0], qpRing);
    var sQp :- RebaseTernarySecret(sk, ring.moduli[0], qpRing);
    var rows: seq<RowPair> := [];
    for j := 0 to |ring.moduli|
      invariant |rows| == j
      invariant forall k :: 0 <= k < j ==>
                  |As[k]| == |Es[k]| == |s| && RowIs(rows[k],
                                                     GkgShare(As[k], s, Es[k], RowScales(ring.moduli, pModuli)[k],
                                                              PSubst(s, element)),
                                                     As[k], ring.degree, ring.moduli + pModuli)
    {
      SampledAt(aRows, As, |ring.moduli|, ring.degree, ring.moduli + pModuli, j);
      SampledAt(es, Es, |ring.moduli|, ring.degree, ring.moduli + pModuli, j);
      var row := GkgRow(qpRing, j, sigmaQp, sQp, aRows[j], es[j], As[j], s, PSubst(s, element), Es[j]);
      rows := rows + [row];
    }
    return Ok(rows);
  }

  /** The aggregated rows are a key-switching key from sigma_k(s) to s = sum s_p. */
  lemma CollectiveGaloisKey(As: seq<Poly>, ss: PartyPolys, Es: seq<PartyPolys>, k: int, n: nat, gs: seq<int>, M: int,
                            bs: seq<Poly>, errors: seq<Poly>)
    requires |As| == |Es| == |gs| == |bs| == |errors| && Uniform(As, n) && Uniform(ss, n)
    requires forall j :: 0 <= j < |Es| ==> |Es[j]| == |ss| && Uniform(Es[j], n)
    requires forall j :: 0 <= j < |As| ==>
               && bs[j] == Total(n, GkgShares(As[j], ss, Es[j], gs[j], SubstAll(ss, k, n)))
               && errors[j] == Total(n, Es[j])
    ensures Rows(bs, As, errors, Total(n, ss), gs, PSubst(Total(n, ss), k), M)
  {
    hide Total, PSubst, PMul, PAdd, PScale, GkgShares, SubstAll, Cong;
    var s := Total(n, ss);
    forall j | 0 <= j < |As|
      ensures RowRelation(bs[j], As[j], errors[j], s, gs[j], PSubst(s, k), M)
    {
      CollectiveGaloisRow(As[j], ss, Es[j], gs[j], k);
      PCongRefl(PAdd(errors[j], PScale(gs[j], PSubst(s, k))), M);
    }
  }

  // ------------------------------------------------------- relinearization rounds

  /** cpk u + e, the common part of every masked component. */
  method Mask(ring: Ring, c: RnsPoly, u: RnsPoly, e: RnsPoly, ghost C: Poly, ghost U: Poly,
              ghost E: Poly) returns (r: RnsPoly)
    requires ring.Sound() && |C| == |U| == |E| == ring.degree
    requires c == Residues(C, ring.moduli) && u == Residues(U, ring.moduli) && e == Residues(E, ring.moduli)
    ensures r == Residues(PAdd(PMul(C, U), E), ring.moduli)
  {
    hide PMul, PMod, Residues, IsPrime, TwoTo, Ring.Sound;
    SoundIsValid(ring);
    var product := ring.Mul(c, u);
    ResMul(C, U, ring.moduli);
    var sum := ring.Add(product.value, e);
    ResAdd(PMul(C, U), E, ring.moduli);
    r := sum.value;
  }

  /** One row of round 1: (b u + e0 + x, a u + e1) for the scaled signal x. */
  method Round1Row(ring: Ring, b: RnsPoly, a: RnsPoly, scaled: RnsPoly, u: RnsPoly, e0: RnsPoly, e1: RnsPoly,
                   ghost B: Poly, ghost A: Poly, ghost X: Poly, ghost U: Poly, ghost E0: Poly, ghost E1: Poly)
    returns (row: RowPair)
    requires ring.Sound() && |B| == |A| == |X| == |U| == |E0| == |E1| == ring.degree
    requires b == Residues(B, ring.moduli) && a == Residues(A, ring.moduli) && scaled == Residues(X, ring.moduli)
    requires u == Residues(U, ring.moduli) && e0 == Residues(E0, ring.moduli) && e1 == Residues(E1, ring.moduli)
    ensures RowIs(row, Masked(B, U, E0, X), PAdd(PMul(A, U), E1), ring.degree, ring.moduli)
  {
    hide PMul, PMod, Residues, IsPrime, TwoTo, Ring.Sound;
    SoundIsValid(ring);
    var masked := Mask(ring, b, u, e0, B, U, E0);
    var h0 := ring.Add(masked, scaled);
    ResAdd(PAdd(PMul(B, U), E0), X, ring.moduli);
    var h1 := Mask(ring, a, u, e1, A, U, E1);
    row := (h0.value, h1);
  }

  method RkgRound1RowContributions(ring: Ring, pModuli: seq<Modulus>, cpk: RowPair, sk: RnsPoly,
                                   us: seq<RnsPoly>, e0s: seq<RnsPoly>, e1s: seq<RnsPoly>,
                                   ghost B: Poly, ghost A: Poly, ghost s: Poly,
                                   ghost U: seq<Poly>, ghost E0: seq<Poly>, ghost E1: seq<Poly>)
    returns (r: Result<seq<RowPair>>)
    requires ring.Valid() && (|pModuli| > 0 ==> PrimeBasis(ring.moduli + pModuli)) && SecretShare(sk, s, ring)
    requires RowIs(cpk, B, A, ring.degree, ring.moduli + pModuli)
    requires Sampled(us, U, |ring.moduli|, ring.degree, ring.moduli + pModuli)
    requires Sampled(e0s, E0, |ring.moduli|, ring.degree, ring.moduli + pModuli)
    requires Sampled(e1s, E1, |ring.moduli|, ring.degree, ring.moduli + pModuli)
    ensures r.Ok? <==> |pModuli| > 0 && AllTernary(sk[0], ring.moduli[0])
    ensures r.Ok? ==> |r.value| == |ring.moduli| && forall j :: 0 <= j < |r.value| ==>
              && |U[j]| == |E0[j]| == |E1[j]| == ring.degree
              && RowIs(r.value[j], Masked(B, U[j], E0[j], PScale(RowScales(ring.moduli, pModuli)[j], s)),
                       PAdd(PMul(A, U[j]), E1[j]),
                       ring.degree, ring.moduli + pModuli)
    ensures r.Err? ==> r.error == InvalidParameters
  {
    hide PMul, PMod, Residues, IsPrime, TwoTo, Ring.Sound, Cofactor, Masked, PScale, PAdd;
    var qpRing :- QpParams(ring, pModuli);
    SoundIsValid(qpRing);
    var qp := qpRing.moduli;
    var sQp :- RebaseTernarySecret(sk, ring.moduli[0], qpRing);
    var rows: seq<RowPair> := [];
    for j := 0 to |ring.moduli|
      invariant |rows| == j
      invariant forall k :: 0 <= k < j ==>
                  && |U[k]| == |E0[k]| == |E1[k]| == ring.degree
                  && RowIs(rows[k], Masked(B, U[k], E0[k], PScale(RowScales(ring.moduli, pModuli)[k], s)),
                           PAdd(PMul(A, U[k]), E1[k]),
                           ring.degree, qp)
    {
      SampledAt(us, U, |ring.moduli|, ring.degree, qp, j);
      SampledAt(e0s, E0, |ring.moduli|, ring.degree, qp, j);
      SampledAt(e1s, E1, |ring.moduli|, ring.degree, qp, j);
      ghost var g := RowScales(ring.moduli, pModuli)[j];
      var scale := CrtBasisConstant(qp, j, qp);
      var scaled := ScalePolyPerComponent(qpRing, sQp, scale.value, g);
      ResScale(g, s, qp);
      var row := Round1Row(qpRing, cpk.0, cpk.1, scaled, us[j], e0s[j], e1s[j], B, A, PScale(g, s), U[j], E0[j], E1[j]);
      rows := rows + [row];
    }
    return Ok(rows);
  }

  /** One component of round 2: s h + c v + e. */
  method Round2Component(ring: Ring, s: RnsPoly, h: RnsPoly, c: RnsPoly, v: RnsPoly, e: RnsPoly,
                         ghost S: Poly, ghost H: Poly, ghost C: Poly, ghost V: Poly, ghost E: Poly) returns (r: RnsPoly)
    requires ring.Sound() && |S| == |H| == |C| == |V| == |E| == ring.degree
    requires s == Residues(S, ring.moduli) && h == Residues(H, ring.moduli) && c == Residues(C, ring.moduli)
    requires v == Residues(V, ring.moduli) && e == Residues(E, ring.moduli)
    ensures r == Residues(PAdd(PAdd(PMul(S, H), PMul(C, V)), E), ring.moduli)
  {
    hide PMul, PMod, Residues, IsPrime, TwoTo, Ring.Sound;
    SoundIsValid(ring);
    var sh := ring.Mul(s, h);
    ResMul(S, H, ring.moduli);
    var cv := ring.Mul(c, v);
    ResMul(C, V, ring.moduli);
    var sum := ring.Add(sh.value, cv.value);
    ResAdd(PMul(S, H), PMul(C, V), ring.moduli);
    var total := ring.Add(sum.value, e);
    ResAdd(PAdd(PMul(S, H), PMul(C, V)), E, ring.moduli);
    r := total.value;
  }

  method RkgRound2RowContributions(ring: Ring, pModuli: seq<Modulus>, cpk: RowPair, round1: seq<RowPair>, sk: RnsPoly,
                                   vs: seq<RnsPoly>, e2s: seq<RnsPoly>, e3s: seq<RnsPoly>,
                                   ghost B: Poly, ghost A: Poly, ghost s: Poly, ghost H0: seq<Poly>,
                                   ghost H1: seq<Poly>,
                                   ghost V: seq<Poly>, ghost E2: seq<Poly>, ghost E3: seq<Poly>)
    returns (r: Result<seq<RowPair>>)
    requires ring.Valid() && (|pModuli| > 0 ==> PrimeBasis(ring.moduli + pModuli)) && SecretShare(sk, s, ring)
    requires RowIs(cpk, B, A, ring.degree, ring.moduli + pModuli)
    requires |H0| == |H1| == |round1|
    requires forall j :: 0 <= j < |round1| ==> RowIs(round1[j], H0[j], H1[j], ring.degree, ring.moduli + pModuli)
    requires Sampled(vs, V, |round1|, ring.degree, ring.moduli + pModuli)
    requires Sampled(e2s, E2, |round1|, ring.degree, ring.moduli + pModuli)
    requires Sampled(e3s, E3, |round1|, ring.degree, ring.moduli + pModuli)
    ensures r.Ok? <==> |pModuli| > 0 && AllTernary(sk[0], ring.moduli[0])
    ensures r.Ok? ==> |r.value| == |round1| && forall j :: 0 <= j < |r.value| ==>
              && |H0[j]| == |H1[j]| == |V[j]| == |E2[j]| == |E3[j]| == ring.degree
              && RowIs(r.value[j], PAdd(PAdd(PMul(s, H0[j]), PMul(B, V[j])), E2[j]),
                       PAdd(PAdd(PMul(s, H1[j]), PMul(A, V[j])), E3[j]),
                       ring.degree, ring.moduli + pModuli)
    ensures r.Err? ==> r.error == InvalidParameters
  {
    hide PMul, PMod, Residues, IsPrime, TwoTo, Ring.Sound, PAdd;
    var qpRing :- QpParams(ring, pModuli);
    SoundIsValid(qpRing);
    var qp := qpRing.moduli;
    var sQp :- RebaseTernarySecret(sk, ring.moduli[0], qpRing);
    var rows: seq<RowPair> := [];
    for j := 0 to |round1|
      invariant |rows| == j
      invariant forall k :: 0 <= k < j ==>
                  && |H0[k]| == |H1[k]| == |V[k]| == |E2[k]| == |E3[k]| == ring.degree
                  && RowIs(rows[k], PAdd(PAdd(PMul(s, H0[k]), PMul(B, V[k])), E2[k]),
                           PAdd(PAdd(PMul(s, H1[k]), PMul(A, V[k])), E3[k]),
                           ring.degree, qp)
    {
      SampledAt(vs, V, |round1|, ring.degree, qp, j);
      SampledAt(e2s, E2, |round1|, ring.degree, qp, j);
      SampledAt(e3s, E3, |round1|, ring.degree, qp, j);
      assert RowIs(round1[j], H0[j], H1[j], ring.degree, qp);
      var h0 := Round2Component(qpRing, sQp, round1[j].0, cpk.0, vs[j], e2s[j], s, H0[j], B, V[j], E2[j]);
      var h1 := Round2Component(qpRing, sQp, round1[j].1, cpk.1, vs[j], e3s[j], s, H1[j], A, V[j], E3[j]);
      rows := rows + [(h0, h1)];
    }
    return Ok(rows);
  }

  /** What the aggregated row j is, and the noise it carries. */
  ghost predicate AggregatedRow(key0: Poly, key1: Poly, noise: Poly, a: Poly, ss: PartyPolys, pkErrors: PartyPolys,
                                row: RkgRow, g: int) {
    && |pkErrors| == |ss| && Uniform(ss, |a|) && Uniform(pkErrors, |a|) && row.Sized(|ss|, |a|)
    && var n, b := |a|, Total(|a|, CkgShares(a, ss, pkErrors));
       var H0, H1 := Total(n, Round1First(row, b, ss, g)), Total(n, Round1Second(row, a, |ss|));
       && key0 == Total(n, Round2(b, row.vs, row.e2s, ss, H0))
       && key1 == Total(n, Round2(a, row.vs, row.e3s, ss, H1))
       && noise == RkgNoise(Total(n, ss), Total(n, pkErrors), Total(n, row.us), Total(n, row.e0s), Total(n, row.e1s),
                            Total(n, row.vs), Total(n, row.e2s), Total(n, row.e3s))
  }

  /** The aggregated rows are a key-switching key from s^2 to s, for any number of parties:
      relinearization with them is correct by `Evaluator.RelinearizeCorrect`. */
  lemma CollectiveRelinearizationKey(key0s: seq<Poly>, key1s: seq<Poly>, noises: seq<Poly>, a: Poly, ss: PartyPolys,
                                     pkErrors: PartyPolys, rows: seq<RkgRow>, gs: seq<int>, M: int)
    requires |key0s| == |key1s| == |noises| == |rows| == |gs| && Uniform(ss, |a|)
    requires forall j :: 0 <= j < |rows| ==>
               AggregatedRow(key0s[j], key1s[j], noises[j], a, ss, pkErrors, rows[j], gs[j])
    ensures var s := Total(|a|, ss); Rows(key0s, key1s, noises, s, gs, PMul(s, s), M)
  {
    hide AggregatedRow, PMul, RowRelation, Total;
    var s := Total(|a|, ss);
    forall j | 0 <= j < |rows|
      ensures RowRelation(key0s[j], key1s[j], noises[j], s, gs[j], PMul(s, s), M)
    {
      AggregatedRowRelation(key0s[j], key1s[j], noises[j], a, ss, pkErrors, rows[j], gs[j], M);
    }
  }

  lemma AggregatedRowRelation(key0: Poly, key1: Poly, noise: Poly, a: Poly, ss: PartyPolys, pkErrors: PartyPolys,
                              row: RkgRow, g: int, M: int)
    requires AggregatedRow(key0, key1, noise, a, ss, pkErrors, row, g)
    ensures RowRelation(key0, key1, noise, Total(|a|, ss), g, PMul(Total(|a|, ss), Total(|a|, ss)), M)
  {
    hide PMul, Total, PAdd, PScale, RkgNoise, Cong, CkgShares, Round1First, Round1Second, Round2;
    CollectiveRelinearizationRow(a, ss, pkErrors, row, g);
    var s := Total(|a|, ss);
    PCongRefl(PAdd(noise, PScale(g, PMul(s, s))), M);
  }
}
