/** Reconstruction of the collective secret from combined shares. */
module VssReconstruct {
  import opened Integers
  import opened NumberTheory
  import opened Results
  import opened PolySums
  import opened Lagrange
  import opened ScalarField
  import opened VssPolynomials
  import opened VssShares
  import RnsExtension

  // --------------------------------------------------------- Lagrange coefficients

  /** Some other evaluation point coincides with this one modulo L. */
  ghost predicate Collides(points: seq<int>, index: nat, L: int)
    requires index < |points|
  {
    exists j :: 0 <= j < |points| && j != index && Cong(points[index], points[j], L)
  }

  /** The points met before position `k`, without the one at `index`. */
  ghost function Met(points: seq<int>, index: nat, k: nat): (ys: seq<int>)
    requires index < |points| && k <= |points|
  {
    if k <= index then points[..k] else points[..index] + points[index + 1..k]
  }

  lemma MetNext(points: seq<int>, index: nat, k: nat)
    requires index < |points| && k < |points|
    ensures Met(points, index, k + 1) == if k == index then Met(points, index, k)
        else Met(points, index, k) + [points[k]]
  {}

  lemma NegProductPush(ys: seq<int>, y: int)
    ensures NegProduct(ys + [y]) == NegProduct(ys) * -y
  {
    assert (ys + [y])[..|ys|] == ys;
  }

  lemma DiffProductPush(x: int, ys: seq<int>, y: int)
    ensures DiffProduct(x, ys + [y]) == DiffProduct(x, ys) * (x - y)
  {
    assert (ys + [y])[..|ys|] == ys;
  }

  /** prod (-x_j) / (x_i - x_j); two coinciding points are refused. */
  method LagrangeCoefficientAtZero(index: nat, points: seq<int>, L: int) returns (r: Result<int>)
    requires L >= 2
    ensures index >= |points| ==> r == Err(InvalidParameters)
    ensures index < |points| ==>
              r == if Collides(points, index, L) then Err(DuplicateParticipant) else Ok(Coefficient(points, index, L))
  {
    hide Cong, NegProduct, DiffProduct, Inverse;
    if index >= |points| {
      return Err(InvalidParameters);
    }
    var xi := points[index];
    var numerator, denominator := FAdd(1, 0, L), FAdd(1, 0, L);
    EmptyProducts(xi, numerator, L);
    for j := 0 to |points|
      invariant Cong(numerator, NegProduct(Met(points, index, j)), L)
      invariant Cong(denominator, DiffProduct(xi, Met(points, index, j)), L)
      invariant forall k :: 0 <= k < j && k != index ==> !Cong(xi, points[k], L)
    {
      MetNext(points, index, j);
      if j != index {
        var negated := FNeg(points[j], L);
        var product := FMul(numerator, negated, L);
        var diff := FAdd(xi, FNeg(points[j], L), L);
        DifferenceOf(xi, points[j], FNeg(points[j], L), diff, L);
        if diff == 0 {
          return Err(DuplicateParticipant);
        }
        NextProducts(numerator, denominator, points[j], xi, Met(points, index, j), negated, product, diff,
                     FMul(denominator, diff, L), L);
        numerator := product;
        denominator := FMul(denominator, diff, L);
      }
    }
    assert Met(points, index, |points|) == Without(points, index);
    var result := FMul(numerator, FInvert(denominator, L), L);
    CoefficientComputed(points, index, numerator, denominator, result, L);
    return Ok(result);
  }

  lemma EmptyProducts(x: int, one: int, L: int)
    requires Cong(one, 1 + 0, L)
    ensures Cong(one, NegProduct([]), L) && Cong(one, DiffProduct(x, []), L)
  {}

  lemma DifferenceOf(x: int, y: int, negated: int, diff: int, L: int)
    requires L >= 2 && Cong(negated, 0 - y, L) && 0 <= diff < L && Cong(diff, x + negated, L)
    ensures Cong(diff, x - y, L) && (diff == 0 <==> Cong(x, y, L))
  {
    CongRefl(x, L);
    CongAdd(x, x, negated, 0 - y, L);
    CongTrans(diff, x + negated, x - y, L);
    CongIffMod(diff, x - y, L);
    SmallMod(diff, L);
    if diff == 0 {
      CongSym(0, x - y, L);
    }
    if Cong(x, y, L) {
      CongIffMod(x - y, 0, L);
      SmallMod(0, L);
    }
  }

  lemma NextProducts(numerator: int, denominator: int, y: int, x: int, ys: seq<int>, negated: int, product: int,
                     diff: int,
                     next: int, L: int)
    requires Cong(numerator, NegProduct(ys), L) && Cong(denominator, DiffProduct(x, ys), L)
    requires Cong(negated, 0 - y, L) && Cong(product, numerator * negated, L)
    requires Cong(diff, x - y, L) && Cong(next, denominator * diff, L)
    ensures Cong(product, NegProduct(ys + [y]), L) && Cong(next, DiffProduct(x, ys + [y]), L)
  {
    hide NegProduct, DiffProduct;
    NegProductPush(ys, y);
    CongMul(numerator, NegProduct(ys), negated, 0 - y, L);
    CongTrans(product, numerator * negated, NegProduct(ys) * (0 - y), L);
    DiffProductPush(x, ys, y);
    CongMul(denominator, DiffProduct(x, ys), diff, x - y, L);
    CongTrans(next, denominator * diff, DiffProduct(x, ys) * (x - y), L);
  }

  lemma CoefficientComputed(points: seq<int>, index: nat, numerator: int, denominator: int, result: int, L: int)
    requires L >= 2 && index < |points| && 0 <= result < L
    requires Cong(numerator, NegProduct(Without(points, index)), L)
    requires Cong(denominator, DiffProduct(points[index], Without(points, index)), L)
    requires Cong(result, numerator * Inverse(denominator, L), L)
    ensures result == Coefficient(points, index, L)
  {
    hide NegProduct, DiffProduct, Inverse, Without;
    var n, d := NegProduct(Without(points, index)), DiffProduct(points[index], Without(points, index));
    InverseCong(denominator, d, L);
    CongRefl(Inverse(d, L), L);
    CongMul(numerator, n, Inverse(d, L), Inverse(d, L), L);
    CongTrans(result, numerator * Inverse(d, L), n * Inverse(d, L), L);
    ModIs(n * Inverse(d, L), result, L);
  }

  // ---------------------------------------------------------------- reconstruction

  /** One participant's identifier and combined share. */
  type CombinedShare = (nat, seq<int>)

  ghost function PointsOfShares(shares: seq<CombinedShare>): (xs: seq<int>)
    ensures |xs| == |shares| && forall i :: 0 <= i < |xs| ==> xs[i] == shares[i].0
  {
    seq(|shares|, i requires 0 <= i < |shares| => shares[i].0)
  }

  ghost predicate SameLength(shares: seq<CombinedShare>) {
    forall i :: 0 <= i < |shares| ==> |shares[i].1| == |shares[0].1|
  }

  /** Coordinate `j` of every share. */
  ghost function ShareColumn(shares: seq<CombinedShare>, j: nat): (fs: seq<int>)
    requires forall i :: 0 <= i < |shares| ==> j < |shares[i].1|
    ensures |fs| == |shares| && forall i :: 0 <= i < |fs| ==> fs[i] == shares[i].1[j]
  {
    seq(|shares|, i requires 0 <= i < |shares| => shares[i].1[j])
  }

  /** All Lagrange coefficients, or the first refusal. */
  method Coefficients(points: seq<int>, L: int) returns (r: Result<seq<int>>)
    requires L >= 2
    ensures r.Ok? <==> DistinctPoints(points, L)
    ensures r.Ok? ==> |r.value| == |points| && forall i :: 0 <= i < |points| ==> r.value[i] == Coefficient(points, i, L)
    ensures r.Err? ==> r.error == DuplicateParticipant
  {
    hide Coefficient, Cong;
    var cs: seq<int> := [];
    for i := 0 to |points|
      invariant |cs| == i && forall k :: 0 <= k < i ==> cs[k] == Coefficient(points, k, L)
      invariant forall k :: 0 <= k < i ==> !Collides(points, k, L)
    {
      var c :- LagrangeCoefficientAtZero(i, points, L);
      cs := cs + [c];
    }
    NoCollisions(points, L);
    return Ok(cs);
  }

  lemma NoCollisions(points: seq<int>, L: int)
    requires forall k :: 0 <= k < |points| ==> !Collides(points, k, L)
    ensures DistinctPoints(points, L)
  {
    hide Cong;
    forall i, j | 0 <= i < |points| && 0 <= j < |points| && i != j ensures !Cong(points[i], points[j], L) {
      assert !Collides(points, i, L);
    }
  }

  /** The first `i` weighted terms of coordinate `j`. */
  ghost predicate WeighedSoFar(result: seq<int>, shares: seq<CombinedShare>, n: nat, i: nat, L: int)
    requires L >= 2 && i <= |shares| && forall k :: 0 <= k < |shares| ==> |shares[k].1| == n
  {
    |result| == n && forall j :: 0 <= j < n ==> WeighedAt(result, shares, i, j, L)
  }

  ghost predicate WeighedAt(result: seq<int>, shares: seq<CombinedShare>, i: nat, j: nat, L: int)
    requires L >= 2 && i <= |shares| && j < |result| && forall k :: 0 <= k < |shares| ==> j < |shares[k].1|
  {
    0 <= result[j] < L && Cong(result[j], SumOf(Terms(PointsOfShares(shares), ShareColumn(shares, j), L)[..i]), L)
  }

  lemma TermNext(xs: seq<int>, fs: seq<int>, i: nat, L: int)
    requires L >= 2 && |xs| == |fs| && i < |xs|
    ensures SumOf(Terms(xs, fs, L)[..i + 1]) == SumOf(Terms(xs, fs, L)[..i]) + Coefficient(xs, i, L) * fs[i]
  {
    hide Coefficient;
    assert Terms(xs, fs, L)[..i + 1][..i] == Terms(xs, fs, L)[..i];
  }

  /** Adds one share, scaled by its coefficient, to the accumulated vector. */
  method AddWeighted(result: seq<int>, values: seq<int>, coefficient: int, L: int,
                     ghost shares: seq<CombinedShare>, ghost i: nat, ghost n: nat) returns (next: seq<int>)
    requires L >= 2 && i < |shares| && (forall k :: 0 <= k < |shares| ==> |shares[k].1| == n) && values == shares[i].1
    requires coefficient == Coefficient(PointsOfShares(shares), i, L)
    requires WeighedSoFar(result, shares, n, i, L)
    ensures WeighedSoFar(next, shares, n, i + 1, L)
  {
    hide Coefficient, Cong, SumOf, Terms;
    next := [];
    ghost var following := i + 1;
    for j := 0 to |result|
      invariant |next| == j
      invariant forall k :: 0 <= k < j ==> WeighedAt(next, shares, following, k, L)
    {
      var term := FMul(coefficient, values[j], L);
      var sum := FAdd(result[j], term, L);
      assert WeighedAt(result, shares, i, j, L);
      var xs, fs := PointsOfShares(shares), ShareColumn(shares, j);
      TermNext(xs, fs, i, L);
      CongAdd(result[j], SumOf(Terms(xs, fs, L)[..i]), term, coefficient * values[j], L);
      CongTrans(sum, result[j] + term, SumOf(Terms(xs, fs, L)[..following]), L);
      ghost var before := next;
      next := next + [sum];
      forall k | 0 <= k < j ensures WeighedAt(next, shares, following, k, L) {
        assert WeighedAt(before, shares, following, k, L) && next[k] == before[k];
      }
    }
  }

  /** The interpolated scalar of every coordinate. */
  method WeighShares(shares: seq<CombinedShare>, coefficients: seq<int>, L: int,
                     ghost n: nat) returns (result: seq<int>)
    requires L >= 2 && |shares| > 0 && |coefficients| == |shares|
    requires forall k :: 0 <= k < |shares| ==> |shares[k].1| == n
    requires forall k :: 0 <= k < |shares| ==> coefficients[k] == Coefficient(PointsOfShares(shares), k, L)
    ensures |result| == n
    ensures forall j :: 0 <= j < n ==> result[j] == Weigh(PointsOfShares(shares), ShareColumn(shares, j), L) % L
  {
    hide Coefficient, Cong;
    result := seq(|shares[0].1|, _ => 0);
    NothingWeighed(result, shares, n, L);
    for i := 0 to |shares|
      invariant WeighedSoFar(result, shares, n, i, L)
    {
      result := AddWeighted(result, shares[i].1, coefficients[i], L, shares, i, n);
    }
    forall j | 0 <= j < n ensures result[j] == Weigh(PointsOfShares(shares), ShareColumn(shares, j), L) % L {
      assert WeighedAt(result, shares, |shares|, j, L);
      var ts := Terms(PointsOfShares(shares), ShareColumn(shares, j), L);
      assert ts[..|shares|] == ts;
      ModIs(SumOf(ts), result[j], L);
    }
  }

  lemma NothingWeighed(result: seq<int>, shares: seq<CombinedShare>, n: nat, L: int)
    requires L >= 2 && (forall k :: 0 <= k < |shares| ==> |shares[k].1| == n)
    requires |result| == n && forall j :: 0 <= j < n ==> result[j] == 0
    ensures WeighedSoFar(result, shares, n, 0, L)
  {
    hide Coefficient, Cong;
    forall j | 0 <= j < n ensures WeighedAt(result, shares, 0, j, L) {
      assert Terms(PointsOfShares(shares), ShareColumn(shares, j), L)[..0] == [];
      CongRefl(0, L);
    }
  }

  /** Interpolates every coordinate at zero and reads the results as small signed integers. */
  method ReconstructSecret(shares: seq<CombinedShare>, threshold: nat, bound: RnsExtension.i128, L: int)
    returns (r: Result<seq<RnsExtension.i128>>)
    requires GroupOrder(L)
    ensures |shares| < threshold ==> r == Err(ThresholdNotMet)
    ensures |shares| >= threshold && |shares| == 0 ==> r == Err(MissingShare)
    ensures |shares| >= threshold && |shares| > 0 && !SameLength(shares) ==> r == Err(InvalidParameters)
    ensures |shares| >= threshold && |shares| > 0 && SameLength(shares) && !DistinctPoints(PointsOfShares(shares), L)
            ==> r == Err(DuplicateParticipant)
    ensures |shares| >= threshold && |shares| > 0 && SameLength(shares) && DistinctPoints(PointsOfShares(shares), L) ==>
              if forall j :: 0 <= j < |shares[0].1| ==> Recovered(shares, j, bound, L).Ok?
              then r.Ok? && |r.value| == |shares[0].1|
                   && forall j :: 0 <= j < |r.value| ==> Recovered(shares, j, bound, L) == Ok(r.value[j])
              else r == Err(InvalidParameters)
  {
    hide IsPrime, Cong, Coefficient, Weigh;
    if |shares| < threshold {
      return Err(ThresholdNotMet);
    }
    if |shares| == 0 {
      return Err(MissingShare);
    }
    var n := |shares[0].1|;
    var points: seq<int> := [];
    for i := 0 to |shares|
      invariant |points| == i && forall k :: 0 <= k < i ==> points[k] == shares[k].0 && |shares[k].1| == n
    {
      if |shares[i].1| != n {
        return Err(InvalidParameters);
      }
      points := points + [shares[i].0];
    }
    assert points == PointsOfShares(shares);
    var coefficients :- Coefficients(points, L);
    var result := WeighShares(shares, coefficients, L, n);
    var out: seq<RnsExtension.i128> := [];
    for j := 0 to n
      invariant |out| == j && forall k :: 0 <= k < j ==> Recovered(shares, k, bound, L) == Ok(out[k])
    {
      DivModId(Weigh(PointsOfShares(shares), ShareColumn(shares, j), L), L);
      var recovered := RecoverCentered(result[j], bound, L);
      assert recovered == Recovered(shares, j, bound, L);
      if recovered.Err? {
        return Err(InvalidParameters);
      }
      out := out + [recovered.value];
    }
    return Ok(out);
  }

  /** What coordinate `j` is read back as. */
  ghost function Recovered(shares: seq<CombinedShare>, j: nat, bound: RnsExtension.i128,
                           L: int): Result<RnsExtension.i128>
    requires GroupOrder(L) && forall i :: 0 <= i < |shares| ==> j < |shares[i].1|
  {
    var s := Weigh(PointsOfShares(shares), ShareColumn(shares, j), L);
    DivModId(s, L);
    RecoverCentered(s % L, bound, L)
  }

  // ------------------------------------------------------------------- the theorem

  /** The dealers: valid polynomials of one threshold and length. */
  ghost predicate Dealers(ps: seq<VectorPolynomial>, t: nat, n: nat) {
    forall d :: 0 <= d < |ps| ==> ps[d].Valid() && ps[d].Threshold() == t && ps[d].VectorLen() == n
  }

  /** The sum of all dealers' polynomials of coordinate `j` at x. */
  ghost function CollectiveAt(ps: seq<VectorPolynomial>, t: nat, n: nat, j: nat, x: int): int
    requires Dealers(ps, t, n) && j < n
  {
    var k := |ps| - 1;
    if |ps| == 0 then 0
    else CollectiveAt(ps[..k], t, n, j, x) + PolyAt(Coordinate(ps[k].coefficients, n, j), x)
  }

  /** The sum of all dealers' constant terms of coordinate `j`. */
  ghost function CollectiveSecret(ps: seq<VectorPolynomial>, t: nat, n: nat, j: nat): int
    requires Dealers(ps, t, n) && j < n
  {
    var k := |ps| - 1;
    if |ps| == 0 then 0 else (assert ps[k].Valid(); CollectiveSecret(ps[..k], t, n, j) + ps[k].coefficients[0][j])
  }

  ghost function CollectiveValues(ps: seq<VectorPolynomial>, t: nat, n: nat, j: nat, xs: seq<int>): (fs: seq<int>)
    requires Dealers(ps, t, n) && j < n
    ensures |fs| == |xs| && forall i :: 0 <= i < |fs| ==> fs[i] == CollectiveAt(ps, t, n, j, xs[i])
  {
    seq(|xs|, i requires 0 <= i < |xs| => CollectiveAt(ps, t, n, j, xs[i]))
  }

  /** Interpolation is additive over the dealers. */
  lemma {:induction false} CollectiveInterpolation(ps: seq<VectorPolynomial>, t: nat, n: nat, j: nat, xs: seq<int>,
                                                   L: int)
    requires IsPrime(L) && L >= 2 && Dealers(ps, t, n) && j < n && 0 < t <= |xs| && DistinctPoints(xs, L)
    ensures Cong(Weigh(xs, CollectiveValues(ps, t, n, j, xs), L), CollectiveSecret(ps, t, n, j), L)
  {
    hide IsPrime, Cong, Weigh, PolyAt, DistinctPoints;
    if |ps| == 0 {
      WeighZero(xs, CollectiveValues(ps, t, n, j, xs), L);
      CongRefl(0, L);
    } else {
      var k := |ps| - 1;
      var c := Coordinate(ps[k].coefficients, n, j);
      CollectiveInterpolation(ps[..k], t, n, j, xs, L);
      Interpolation(c, xs, L);
      var fs, gs := CollectiveValues(ps[..k], t, n, j, xs), Values(c, xs);
      assert Combine(fs, 1, gs) == CollectiveValues(ps, t, n, j, xs);
      TermsCombine(xs, fs, 1, gs, L);
      CongAdd(Weigh(xs, fs, L), CollectiveSecret(ps[..k], t, n, j), Weigh(xs, gs, L), c[0], L);
    }
  }

  /** A participant's share is the sum of all dealers' polynomials at its identifier. */
  ghost predicate CollectiveShare(share: CombinedShare, ps: seq<VectorPolynomial>, t: nat, n: nat, L: int)
    requires Dealers(ps, t, n)
  {
    |share.1| == n && forall j :: 0 <= j < n ==> Cong(share.1[j], CollectiveAt(ps, t, n, j, share.0), L)
  }

  /** Honest shares of every dealer, summed, are the participant's collective share. */
  lemma {:induction false} SummedSharesAreCollective(shares: seq<VssShare>, ps: seq<VectorPolynomial>, t: nat, n: nat,
                                                     x: nat,
                                                     j: nat, L: int)
    requires Dealers(ps, t, n) && |shares| == |ps| && j < n
    requires forall d :: 0 <= d < |ps| ==>
               |shares[d].values| == n && shares[d].recipient == x && HonestShare(shares[d], ps[d], L)
    ensures Cong(SumVectors(ValuesOf(shares, n), n)[j], CollectiveAt(ps, t, n, j, x), L)
  {
    hide Cong, PolyAt;
    if |ps| == 0 {
      CongRefl(0, L);
    } else {
      var k := |ps| - 1;
      SummedSharesAreCollective(shares[..k], ps[..k], t, n, x, j, L);
      assert ValuesOf(shares, n)[..k] == ValuesOf(shares[..k], n);
      assert HonestShare(shares[k], ps[k], L);
      var v := VectorAt(ps[k].coefficients, n, x);
      CongAdd(SumVectors(ValuesOf(shares[..k], n), n)[j], CollectiveAt(ps[..k], t, n, j, x),
              shares[k].values[j], v[j], L);
    }
  }

  /** For any set of dealers and any at least `t` distinct participants, reconstruction returns exactly the sum of
      the dealers' secrets when it is within the bound. */
  lemma ReconstructionCorrect(shares: seq<CombinedShare>, ps: seq<VectorPolynomial>, t: nat, n: nat, j: nat,
                              secret: RnsExtension.i128, bound: RnsExtension.i128, L: int)
    requires GroupOrder(L) && Dealers(ps, t, n) && j < n && 0 < t <= |shares|
    requires DistinctPoints(PointsOfShares(shares), L)
    requires forall i :: 0 <= i < |shares| ==> |shares[i].1| == n && CollectiveShare(shares[i], ps, t, n, L)
    requires Cong(secret, CollectiveSecret(ps, t, n, j), L) && Abs(secret) <= bound
    ensures Recovered(shares, j, bound, L) == Ok(secret)
  {
    hide IsPrime, Cong, Weigh, CollectiveAt, CollectiveSecret, DistinctPoints, RecoverCentered;
    var xs, fs := PointsOfShares(shares), ShareColumn(shares, j);
    var gs := CollectiveValues(ps, t, n, j, xs);
    forall i | 0 <= i < |fs| ensures Cong(fs[i], gs[i], L) {
      assert CollectiveShare(shares[i], ps, t, n, L);
    }
    WeighCong(xs, fs, gs, L);
    CollectiveInterpolation(ps, t, n, j, xs, L);
    CongTrans(Weigh(xs, fs, L), Weigh(xs, gs, L), CollectiveSecret(ps, t, n, j), L);
    CongSym(secret, CollectiveSecret(ps, t, n, j), L);
    CongTrans(Weigh(xs, fs, L), CollectiveSecret(ps, t, n, j), secret, L);
    ModEq(Weigh(xs, fs, L), secret, L);
    DivModId(secret, L);
    RecoverIff(secret % L, bound, L, secret);
  }

  /** Dealers that sampled their polynomials for these secrets. */
  ghost predicate Secrets(ps: seq<VectorPolynomial>, secrets: seq<seq<int>>, t: nat, n: nat, L: int)
    requires Dealers(ps, t, n) && L > 0
  {
    && |secrets| == |ps|
    && forall d :: 0 <= d < |ps| ==>
         && |secrets[d]| == n && ps[d].Valid()
         && forall j :: 0 <= j < n ==> ps[d].coefficients[0][j] == secrets[d][j] % L
  }

  /** The collective secret is the sum of what the dealers embedded. */
  lemma {:induction false} CollectiveSecretIsSum(ps: seq<VectorPolynomial>, secrets: seq<seq<int>>, t: nat, n: nat,
                                                 j: nat, L: int)
    requires Dealers(ps, t, n) && L > 0 && Secrets(ps, secrets, t, n, L) && j < n && VssPolynomials.Rows(secrets, n)
    ensures Cong(SumVectors(secrets, n)[j], CollectiveSecret(ps, t, n, j), L)
  {
    hide Cong;
    if |ps| == 0 {
      CongRefl(0, L);
    } else {
      var k := |ps| - 1;
      CollectiveSecretIsSum(ps[..k], secrets[..k], t, n, j, L);
      ModCong(secrets[k][j], L);
      CongSym(secrets[k][j] % L, secrets[k][j], L);
      CongAdd(SumVectors(secrets[..k], n)[j], CollectiveSecret(ps[..k], t, n, j), secrets[k][j],
              ps[k].coefficients[0][j], L);
    }
  }

  /** End to end, from the dealers' signed secrets to the reconstructed vector: with the contract of
      `ReconstructSecret`, the result is `Ok(totals)`. */
  lemma SharingRoundTrip(shares: seq<CombinedShare>, ps: seq<VectorPolynomial>, secrets: seq<seq<int>>, t: nat, n: nat,
                         totals: seq<RnsExtension.i128>, bound: RnsExtension.i128, L: int)
    requires GroupOrder(L) && Dealers(ps, t, n) && Secrets(ps, secrets, t, n, L) && VssPolynomials.Rows(secrets, n)
    requires 0 < t <= |shares| && DistinctPoints(PointsOfShares(shares), L)
    requires forall i :: 0 <= i < |shares| ==> |shares[i].1| == n && CollectiveShare(shares[i], ps, t, n, L)
    requires totals == SumVectors(secrets, n) && forall j :: 0 <= j < n ==> Abs(totals[j]) <= bound
    ensures SameLength(shares) && |shares[0].1| == n
    ensures forall j :: 0 <= j < n ==> Recovered(shares, j, bound, L) == Ok(totals[j])
  {
    hide IsPrime, Cong, CollectiveSecret, CollectiveAt, Recovered, DistinctPoints;
    forall j | 0 <= j < n ensures Recovered(shares, j, bound, L) == Ok(totals[j]) {
      CollectiveSecretIsSum(ps, secrets, t, n, j, L);
      ReconstructionCorrect(shares, ps, t, n, j, totals[j], bound, L);
    }
  }

  /** Distinct word-size identifiers are distinct evaluation points. */
  lemma DistinctIdentifiers(shares: seq<CombinedShare>, L: int)
    requires GroupOrder(L) && forall i :: 0 <= i < |shares| ==> shares[i].0 < TWO_64
    requires forall i, j :: 0 <= i < j < |shares| ==> shares[i].0 != shares[j].0
    ensures DistinctPoints(PointsOfShares(shares), L)
  {
    hide IsPrime, Divides;
    var xs := PointsOfShares(shares);
    forall i, j | 0 <= i < |xs| && 0 <= j < |xs| && i != j ensures !Cong(xs[i], xs[j], L) {
      if Cong(xs[i], xs[j], L) {
        SmallMultiple(xs[i] - xs[j], L);
      }
    }
  }
}
