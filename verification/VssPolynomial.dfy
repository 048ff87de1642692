/** The dealer's vector polynomial: evaluation, shares, and Pedersen commitments. */
module VssPolynomials {
  import opened Integers
  import opened Results
  import opened Lagrange
  import opened ScalarField
  import RnsExtension

  /** Points of the prime-order group, by their logarithm to a fixed generator: addition of points is
      addition modulo L, and scalar multiplication is multiplication modulo L. */
  type Point = int

  datatype PedersenGenerators = PedersenGenerators(g: seq<Point>, h: Point)

  /** sum s_i p_i. */
  ghost function Inner(ss: seq<int>, ps: seq<int>): int
    requires |ss| == |ps|
  {
    var n := |ss| - 1;
    if |ss| == 0 then 0 else Inner(ss[..n], ps[..n]) + ss[n] * ps[n]
  }

  method MultiscalarMul(scalars: seq<int>, points: seq<Point>, L: int) returns (r: Point)
    requires |scalars| == |points| && L > 0
    ensures 0 <= r < L && Cong(r, Inner(scalars, points), L)
  {
    r := 0;
    CongRefl(0, L);
    for i := 0 to |scalars|
      invariant 0 <= r < L && Cong(r, Inner(scalars[..i], points[..i]), L)
    {
      InnerNext(scalars, points, i);
      var term := FMul(scalars[i], points[i], L);
      var sum := FAdd(r, term, L);
      CongAdd(r, Inner(scalars[..i], points[..i]), term, scalars[i] * points[i], L);
      CongTrans(sum, r + term, Inner(scalars[..i + 1], points[..i + 1]), L);
      r := sum;
    }
    assert scalars[..|scalars|] == scalars && points[..|points|] == points;
  }

  lemma InnerNext(ss: seq<int>, ps: seq<int>, i: nat)
    requires |ss| == |ps| && i < |ss|
    ensures Inner(ss[..i + 1], ps[..i + 1]) == Inner(ss[..i], ps[..i]) + ss[i] * ps[i]
  {
    assert ss[..i + 1][..i] == ss[..i] && ps[..i + 1][..i] == ps[..i];
  }

  lemma InnerPush(ss: seq<int>, s: int, ps: seq<int>, p: int)
    requires |ss| == |ps|
    ensures Inner(ss + [s], ps + [p]) == Inner(ss, ps) + s * p
  {
    assert (ss + [s])[..|ss|] == ss && (ps + [p])[..|ps|] == ps;
  }

  // ------------------------------------------------------------ the polynomial

  datatype VectorPolynomial = VectorPolynomial(dealer: nat, coefficients: seq<seq<int>>, blinding: seq<int>) {
    /** One vector and one blinding scalar per degree, all of the same length. */
    predicate Valid() {
      && |coefficients| > 0 && |coefficients[0]| > 0 && |blinding| == |coefficients|
      && forall k :: 0 <= k < |coefficients| ==> |coefficients[k]| == |coefficients[0]|
    }

    function VectorLen(): nat
      requires Valid()
    {
      |coefficients[0]|
    }

    function Threshold(): nat {
      |coefficients|
    }
  }

  ghost predicate Rows(cvs: seq<seq<int>>, n: nat) {
    forall k :: 0 <= k < |cvs| ==> |cvs[k]| == n
  }

  /** The coefficients of coordinate `j`. */
  ghost function Coordinate(cvs: seq<seq<int>>, n: nat, j: nat): (c: seq<int>)
    requires Rows(cvs, n) && j < n
    ensures |c| == |cvs| && forall k :: 0 <= k < |c| ==> c[k] == cvs[k][j]
  {
    seq(|cvs|, k requires 0 <= k < |cvs| => cvs[k][j])
  }

  /** f(x), coordinate by coordinate. */
  ghost function VectorAt(cvs: seq<seq<int>>, n: nat, x: int): (f: seq<int>)
    requires Rows(cvs, n)
    ensures |f| == n && forall j :: 0 <= j < n ==> f[j] == PolyAt(Coordinate(cvs, n, j), x)
  {
    seq(n, j requires 0 <= j < n => PolyAt(Coordinate(cvs, n, j), x))
  }

  /** The secret becomes the constant term; everything else comes from the random scalars. */
  method Sample(dealer: nat, secret: seq<RnsExtension.i128>, threshold: nat, random: seq<seq<int>>, blinding: seq<int>,
                L: int)
    returns (r: Result<VectorPolynomial>)
    requires GroupOrder(L)
    requires threshold > 0 ==> |random| == threshold - 1 && |blinding| == threshold
    requires forall k :: 0 <= k < |random| ==> |random[k]| == |secret|
    ensures r.Ok? <==> threshold > 0 && |secret| > 0 && forall j :: 0 <= j < |secret| ==> secret[j] != I128_MIN
    ensures r.Ok? ==>
              && r.value.Valid() && r.value.dealer == dealer && r.value.Threshold() == threshold
              && r.value.VectorLen() == |secret|
              && r.value.coefficients[1..] == random && r.value.blinding == blinding
              && forall j :: 0 <= j < |secret| ==> r.value.coefficients[0][j] == secret[j] % L
    ensures r.Err? ==> r.error == InvalidParameters
  {
    if threshold == 0 {
      return Err(InvalidParameters);
    }
    if |secret| == 0 {
      return Err(InvalidParameters);
    }
    var degreeZero: seq<int> := [];
    for j := 0 to |secret|
      invariant |degreeZero| == j
      invariant forall k :: 0 <= k < j ==> secret[k] != I128_MIN && degreeZero[k] == secret[k] % L
    {
      var embedded :- EmbedCentered(secret[j], L);
      degreeZero := degreeZero + [embedded];
    }
    return Ok(VectorPolynomial(dealer, [degreeZero] + random, blinding));
  }

  lemma HornerStep(c: seq<int>, x: int, k: nat, f: int, product: int, next: int, L: int)
    requires k < |c| && Cong(f, PolyAt(c[k + 1..], x), L)
    requires Cong(product, f * x, L) && Cong(next, product + c[k], L)
    ensures Cong(next, PolyAt(c[k..], x), L)
  {
    assert c[k..][0] == c[k] && c[k..][1..] == c[k + 1..];
    var p := PolyAt(c[k + 1..], x);
    CongRefl(x, L);
    CongMul(f, p, x, x, L);
    CongTrans(product, f * x, p * x, L);
    CongRefl(c[k], L);
    CongAdd(product, p * x, c[k], c[k], L);
    CongTrans(next, product + c[k], p * x + c[k], L);
    SwapProduct(p, x);
  }

  lemma SwapProduct(a: int, b: int)
    ensures a * b == b * a
  {}

  /** Horner's method on every coordinate and on the blinding polynomial. */
  method Evaluate(p: VectorPolynomial, x: int, L: int) returns (f: seq<int>, rho: int)
    requires p.Valid() && L > 0
    ensures |f| == p.VectorLen() && forall j :: 0 <= j < |f| ==>
              0 <= f[j] < L && Cong(f[j], VectorAt(p.coefficients, p.VectorLen(), x)[j], L)
    ensures 0 <= rho < L && Cong(rho, PolyAt(p.blinding, x), L)
  {
    hide PolyAt, Cong;
    ghost var cvs, n := p.coefficients, p.VectorLen();
    f := seq(p.VectorLen(), _ => 0);
    CongRefl(0, L);
    NoCoefficients(cvs, n, x);
    var k := |p.coefficients|;
    while k > 0
      invariant 0 <= k <= |cvs| && |f| == n
      invariant forall j :: 0 <= j < n ==> 0 <= f[j] < L && Cong(f[j], PolyAt(Coordinate(cvs, n, j)[k..], x), L)
    {
      k := k - 1;
      f := HornerVector(f, p.coefficients[k], x, L, cvs, n, k);
    }
    forall j | 0 <= j < n ensures Coordinate(cvs, n, j)[0..] == Coordinate(cvs, n, j) {}
    rho := 0;
    EmptyValue(p.blinding, x);
    k := |p.blinding|;
    while k > 0
      invariant 0 <= k <= |p.blinding|
      invariant 0 <= rho < L && Cong(rho, PolyAt(p.blinding[k..], x), L)
    {
      k := k - 1;
      var product := FMul(rho, x, L);
      var next := FAdd(product, p.blinding[k], L);
      HornerStep(p.blinding, x, k, rho, product, next, L);
      rho := next;
    }
    assert p.blinding[0..] == p.blinding;
  }

  lemma EmptyValue(c: seq<int>, x: int)
    ensures PolyAt(c[|c|..], x) == 0
  {}

  lemma NoCoefficients(cvs: seq<seq<int>>, n: nat, x: int)
    requires Rows(cvs, n)
    ensures forall j :: 0 <= j < n ==> PolyAt(Coordinate(cvs, n, j)[|cvs|..], x) == 0
  {}

  /** One Horner step on every coordinate. */
  method HornerVector(f: seq<int>, c: seq<int>, x: int, L: int, ghost cvs: seq<seq<int>>, ghost n: nat, ghost k: nat)
    returns (next: seq<int>)
    requires L > 0 && Rows(cvs, n) && k < |cvs| && c == cvs[k] && |f| == n
    requires forall j :: 0 <= j < n ==> Cong(f[j], PolyAt(Coordinate(cvs, n, j)[k + 1..], x), L)
    ensures |next| == n
    ensures forall j :: 0 <= j < n ==> 0 <= next[j] < L && Cong(next[j], PolyAt(Coordinate(cvs, n, j)[k..], x), L)
  {
    hide PolyAt, Cong;
    next := [];
    for j := 0 to |f|
      invariant |next| == j
      invariant forall i :: 0 <= i < j ==> 0 <= next[i] < L && Cong(next[i], PolyAt(Coordinate(cvs, n, i)[k..], x), L)
    {
      var product := FMul(f[j], x, L);
      var sum := FAdd(product, c[j], L);
      HornerStep(Coordinate(cvs, n, j), x, k, f[j], product, sum, L);
      next := next + [sum];
    }
  }

  // ------------------------------------------------------------------- commitments

  /** A public point as it is transmitted: a valid encoding, or bytes that do not decode. */
  datatype Compressed = Encoded(point: Point) | Undecodable

  datatype CommitmentSet = CommitmentSet(dealer: nat, commitments: seq<Compressed>)

  ghost predicate Decodes(cs: seq<Compressed>) {
    forall k :: 0 <= k < |cs| ==> cs[k].Encoded?
  }

  ghost function PointsOf(cs: seq<Compressed>): (ps: seq<Point>)
    requires Decodes(cs)
    ensures |ps| == |cs| && forall k :: 0 <= k < |ps| ==> ps[k] == cs[k].point
  {
    seq(|cs|, k requires 0 <= k < |cs| => cs[k].point)
  }

  function Compress(ps: seq<Point>): (cs: seq<Compressed>)
    ensures Decodes(cs) && PointsOf(cs) == ps
  {
    var cs := seq(|ps|, k requires 0 <= k < |ps| => Encoded(ps[k]));
    assert PointsOf(cs) == ps;
    cs
  }

  /** <c_k, g> + b_k h, before reduction. */
  ghost function ExactCommitments(cvs: seq<seq<int>>, bs: seq<int>, n: nat, g: seq<Point>, h: Point): (cs: seq<int>)
    requires Rows(cvs, n) && |bs| == |cvs| && |g| == n
    ensures |cs| == |cvs| && forall k :: 0 <= k < |cs| ==> cs[k] == Inner(cvs[k], g) + bs[k] * h
  {
    seq(|cvs|, k requires 0 <= k < |cvs| => Inner(cvs[k], g) + bs[k] * h)
  }

  /** One Pedersen vector commitment per degree. */
  method Commit(p: VectorPolynomial, generators: PedersenGenerators, L: int) returns (r: Result<CommitmentSet>)
    requires p.Valid() && L > 0
    ensures r.Ok? <==> |generators.g| == p.VectorLen()
    ensures r.Ok? ==>
              && r.value.dealer == p.dealer && |r.value.commitments| == p.Threshold() && Decodes(r.value.commitments)
              && var exact := ExactCommitments(p.coefficients, p.blinding, p.VectorLen(), generators.g, generators.h);
                 forall k :: 0 <= k < p.Threshold() ==> Cong(r.value.commitments[k].point, exact[k], L)
    ensures r.Err? ==> r.error == InvalidParameters
  {
    hide Inner, Cong;
    if |generators.g| != p.VectorLen() {
      return Err(InvalidParameters);
    }
    var commitments: seq<Compressed> := [];
    for k := 0 to |p.coefficients|
      invariant |commitments| == k && Decodes(commitments)
      invariant forall i :: 0 <= i < k ==>
                  Cong(commitments[i].point, Inner(p.coefficients[i], generators.g) + p.blinding[i] * generators.h, L)
    {
      var point := MultiscalarMul(p.coefficients[k] + [p.blinding[k]], generators.g + [generators.h], L);
      InnerPush(p.coefficients[k], p.blinding[k], generators.g, generators.h);
      commitments := commitments + [Encoded(point)];
    }
    return Ok(CommitmentSet(p.dealer, commitments));
  }

  // -------------------------------------------------------------- the identity

  lemma {:induction false} InnerCombine(xs: seq<int>, k: int, ys: seq<int>, ps: seq<int>)
    requires |xs| == |ys| == |ps|
    ensures Inner(Combine(xs, k, ys), ps) == Inner(xs, ps) + k * Inner(ys, ps)
  {
    if |xs| > 0 {
      var n := |xs| - 1;
      assert Combine(xs, k, ys)[..n] == Combine(xs[..n], k, ys[..n]);
      InnerCombine(xs[..n], k, ys[..n], ps[..n]);
      CombineProduct(xs[n], k, ys[n], ps[n], Inner(ys[..n], ps[..n]));
    }
  }

  lemma CombineProduct(x: int, k: int, y: int, p: int, i: int)
    ensures (x + k * y) * p + k * i == x * p + k * (i + y * p)
  {
    assert k * y * p == k * (y * p);
  }

  lemma {:induction false} InnerCong(xs: seq<int>, ys: seq<int>, ps: seq<int>, L: int)
    requires |xs| == |ys| == |ps| && forall i :: 0 <= i < |xs| ==> Cong(xs[i], ys[i], L)
    ensures Cong(Inner(xs, ps), Inner(ys, ps), L)
  {
    if |xs| == 0 {
      CongRefl(0, L);
    } else {
      var n := |xs| - 1;
      InnerCong(xs[..n], ys[..n], ps[..n], L);
      CongRefl(ps[n], L);
      CongMul(xs[n], ys[n], ps[n], ps[n], L);
      CongAdd(Inner(xs[..n], ps[..n]), Inner(ys[..n], ps[..n]), xs[n] * ps[n], ys[n] * ps[n], L);
    }
  }

  /** f(x) = c_0 + x (rest)(x), coordinate by coordinate. */
  lemma VectorHorner(cvs: seq<seq<int>>, n: nat, x: int)
    requires Rows(cvs, n) && |cvs| > 0
    ensures Rows(cvs[1..], n) && VectorAt(cvs, n, x) == Combine(cvs[0], x, VectorAt(cvs[1..], n, x))
  {
    var l, r := VectorAt(cvs, n, x), Combine(cvs[0], x, VectorAt(cvs[1..], n, x));
    forall j | 0 <= j < n ensures l[j] == r[j] {
      assert Coordinate(cvs, n, j)[1..] == Coordinate(cvs[1..], n, j);
    }
  }

  /** Evaluating the commitments commits to the evaluations: exactly, before reduction. */
  lemma {:induction false} CommitmentsEvaluate(cvs: seq<seq<int>>, bs: seq<int>, n: nat, g: seq<Point>, h: Point,
                                               x: int)
    requires Rows(cvs, n) && |bs| == |cvs| && |g| == n
    ensures PolyAt(ExactCommitments(cvs, bs, n, g, h), x) == Inner(VectorAt(cvs, n, x), g) + PolyAt(bs, x) * h
  {
    hide Inner, Combine;
    if |cvs| == 0 {
      ZeroInner(VectorAt(cvs, n, x), g);
    } else {
      var cs := ExactCommitments(cvs, bs, n, g, h);
      VectorHorner(cvs, n, x);
      assert cs[1..] == ExactCommitments(cvs[1..], bs[1..], n, g, h);
      CommitmentsEvaluate(cvs[1..], bs[1..], n, g, h, x);
      InnerCombine(cvs[0], x, VectorAt(cvs[1..], n, x), g);
      CollectDegree(Inner(cvs[0], g), bs[0], h, x, Inner(VectorAt(cvs[1..], n, x), g), PolyAt(bs[1..], x));
    }
  }

  lemma CollectDegree(c: int, b: int, h: int, x: int, i: int, r: int)
    ensures c + b * h + x * (i + r * h) == c + x * i + (b + x * r) * h
  {
    assert x * (r * h) == x * r * h;
  }

  lemma {:induction false} ZeroInner(v: seq<int>, g: seq<int>)
    requires |v| == |g| && forall j :: 0 <= j < |v| ==> v[j] == 0
    ensures Inner(v, g) == 0
  {
    if |v| > 0 {
      ZeroInner(v[..|v| - 1], g[..|v| - 1]);
    }
  }

  lemma {:induction false} PolyAtCoefficients(c: seq<int>, d: seq<int>, x: int, L: int)
    requires |c| == |d| && forall k :: 0 <= k < |c| ==> Cong(c[k], d[k], L)
    ensures Cong(PolyAt(c, x), PolyAt(d, x), L)
  {
    if |c| == 0 {
      CongRefl(0, L);
    } else {
      PolyAtCoefficients(c[1..], d[1..], x, L);
      CongRefl(x, L);
      CongMul(x, x, PolyAt(c[1..], x), PolyAt(d[1..], x), L);
      CongAdd(c[0], d[0], x * PolyAt(c[1..], x), x * PolyAt(d[1..], x), L);
    }
  }

  lemma {:induction false} PolyAtPush(c: seq<int>, y: int, x: int)
    ensures PolyAt(c + [y], x) == PolyAt(c, x) + Pow(x, |c|) * y
  {
    if |c| > 0 {
      assert (c + [y])[1..] == c[1..] + [y];
      PolyAtPush(c[1..], y, x);
      PushArith(x, PolyAt(c[1..], x), Pow(x, |c| - 1), y);
    }
  }

  lemma PushArith(x: int, p: int, w: int, y: int)
    ensures x * (p + w * y) == x * p + x * w * y
  {
    assert x * (w * y) == x * w * y;
  }
}
