/** Pedersen shares: verification, combination of commitments, and accumulation. */
module VssShares {
  import opened Integers
  import opened Results
  import opened Lagrange
  import opened ScalarField
  import opened VssPolynomials
  import NumberTheory

  datatype VssShare = VssShare(dealer: nat, recipient: nat, values: seq<int>, blinding: int)

  /** The dealer's polynomial at the recipient's own identifier. */
  method CreateShare(p: VectorPolynomial, recipient: nat, L: int) returns (share: VssShare)
    requires p.Valid() && L > 0
    ensures share.dealer == p.dealer && share.recipient == recipient && HonestShare(share, p, L)
  {
    hide PolyAt, Cong, VectorAt;
    var x := recipient % L;
    DivModId(recipient, L);
    var f, rho := Evaluate(p, x, L);
    share := VssShare(p.dealer, recipient, f, rho);
    ModCong(recipient, L);
    PointReduced(p, f, rho, x, recipient, L);
  }

  /** Values congruent to the dealer's polynomial at the recipient. */
  ghost predicate HonestShare(share: VssShare, p: VectorPolynomial, L: int)
    requires p.Valid()
  {
    && |share.values| == p.VectorLen()
    && (forall j :: 0 <= j < |share.values| ==>
          Cong(share.values[j], VectorAt(p.coefficients, p.VectorLen(), share.recipient)[j], L))
    && Cong(share.blinding, PolyAt(p.blinding, share.recipient), L)
  }

  lemma PointReduced(p: VectorPolynomial, f: seq<int>, rho: int, x: int, y: int, L: int)
    requires p.Valid() && Cong(x, y, L) && |f| == p.VectorLen()
    requires forall j :: 0 <= j < |f| ==> Cong(f[j], VectorAt(p.coefficients, p.VectorLen(), x)[j], L)
    requires Cong(rho, PolyAt(p.blinding, x), L)
    ensures forall j :: 0 <= j < |f| ==> Cong(f[j], VectorAt(p.coefficients, p.VectorLen(), y)[j], L)
    ensures Cong(rho, PolyAt(p.blinding, y), L)
  {
    hide PolyAt, Cong;
    var n := p.VectorLen();
    forall j | 0 <= j < n ensures Cong(f[j], VectorAt(p.coefficients, n, y)[j], L) {
      var c := Coordinate(p.coefficients, n, j);
      PolyAtCong(c, x, y, L);
      CongTrans(f[j], PolyAt(c, x), PolyAt(c, y), L);
    }
    PolyAtCong(p.blinding, x, y, L);
    CongTrans(rho, PolyAt(p.blinding, x), PolyAt(p.blinding, y), L);
  }

  // ------------------------------------------------------------------- verification

  /** sum g_j v_j + h rho = sum C_k x^k in the group. */
  ghost predicate Equation(x: int, values: seq<int>, blinding: int, cs: seq<Point>, generators: PedersenGenerators,
                           L: int) {
    |values| == |generators.g| && Cong(Inner(values, generators.g) + blinding * generators.h, PolyAt(cs, x), L)
  }

  /** The guards in the order they are checked, then the equation. */
  ghost function Verdict(x: int, values: seq<int>, blinding: int, commitments: seq<Compressed>,
                         generators: PedersenGenerators, L: int): (r: Result<()>)
  {
    if |values| != |generators.g| || |commitments| == 0 then Err(InvalidParameters)
    else if !Decodes(commitments) then Err(MalformedMessage)
    else if Equation(x, values, blinding, PointsOf(commitments), generators, L) then Ok(())
    else Err(InvalidVssShare)
  }

  lemma PowerStep(power: int, x: int, k: nat, next: int, L: int)
    requires Cong(power, Pow(x, k), L) && Cong(next, power * x, L)
    ensures Cong(next, Pow(x, k + 1), L)
  {
    CongRefl(x, L);
    CongMul(power, Pow(x, k), x, x, L);
    SwapProduct(Pow(x, k), x);
    CongTrans(next, power * x, Pow(x, k + 1), L);
  }

  lemma {:induction false} InnerOfPowers(ws: seq<int>, cs: seq<int>, x: int, L: int)
    requires |ws| == |cs| && forall k :: 0 <= k < |ws| ==> Cong(ws[k], Pow(x, k), L)
    ensures Cong(Inner(ws, cs), PolyAt(cs, x), L)
  {
    hide Pow, Cong;
    if |cs| == 0 {
      CongRefl(0, L);
    } else {
      var n := |cs| - 1;
      InnerOfPowers(ws[..n], cs[..n], x, L);
      assert cs == cs[..n] + [cs[n]];
      PolyAtPush(cs[..n], cs[n], x);
      CongRefl(cs[n], L);
      CongMul(ws[n], Pow(x, n), cs[n], cs[n], L);
      CongAdd(Inner(ws[..n], cs[..n]), PolyAt(cs[..n], x), ws[n] * cs[n], Pow(x, n) * cs[n], L);
    }
  }

  /** Checks the Pedersen identity with two multiscalar multiplications. */
  method VerifyEquation(x: int, values: seq<int>, blinding: int, commitments: seq<Compressed>,
                        generators: PedersenGenerators, L: int) returns (r: Result<()>)
    requires L > 0
    ensures r == Verdict(x, values, blinding, commitments, generators, L)
    ensures r == Ok(()) <==>
              && |values| == |generators.g| && |commitments| > 0 && Decodes(commitments)
              && Cong(Inner(values, generators.g) + blinding * generators.h, PolyAt(PointsOf(commitments), x), L)
    ensures r.Err? ==>
              r.error == if |values| != |generators.g| || |commitments| == 0 then InvalidParameters
                         else if !Decodes(commitments) then MalformedMessage else InvalidVssShare
  {
    hide Inner, PolyAt, Cong, Pow;
    if |values| != |generators.g| {
      return Err(InvalidParameters);
    }
    if |commitments| == 0 {
      return Err(InvalidParameters);
    }
    var lhs := MultiscalarMul(values + [blinding], generators.g + [generators.h], L);
    InnerPush(values, blinding, generators.g, generators.h);
    var scalars: seq<int>, points: seq<Point> := [], [];
    var power := FAdd(1, 0, L);
    FirstPower(x, power, L);
    for k := 0 to |commitments|
      invariant |scalars| == |points| == k
      invariant Cong(power, Pow(x, k), L)
      invariant forall i :: 0 <= i < k ==> Cong(scalars[i], Pow(x, i), L)
      invariant forall i :: 0 <= i < k ==> commitments[i].Encoded? && points[i] == commitments[i].point
    {
      if commitments[k].Undecodable? {
        return Err(MalformedMessage);
      }
      scalars := scalars + [power];
      points := points + [commitments[k].point];
      var next := FMul(power, x, L);
      PowerStep(power, x, k, next, L);
      power := next;
    }
    assert points == PointsOf(commitments);
    var rhs := MultiscalarMul(scalars, points, L);
    InnerOfPowers(scalars, points, x, L);
    SidesAgree(lhs, Inner(values, generators.g) + blinding * generators.h, rhs, Inner(scalars, points),
               PolyAt(points, x), L);
    if lhs == rhs {
      return Ok(());
    } else {
      return Err(InvalidVssShare);
    }
  }

  lemma FirstPower(x: int, power: int, L: int)
    requires Cong(power, 1 + 0, L)
    ensures Cong(power, Pow(x, 0), L)
  {}

  /** Equal reduced points are congruent sides. */
  lemma SidesAgree(lhs: int, left: int, rhs: int, right: int, value: int, L: int)
    requires L > 0 && 0 <= lhs < L && 0 <= rhs < L
    requires Cong(lhs, left, L) && Cong(rhs, right, L) && Cong(right, value, L)
    ensures lhs == rhs <==> Cong(left, value, L)
  {
    CongTrans(rhs, right, value, L);
    CongIffMod(lhs, left, L);
    CongIffMod(rhs, value, L);
    CongIffMod(left, value, L);
    SmallMod(lhs, L);
    SmallMod(rhs, L);
  }

  /** The check of one dealer's share, against that dealer's commitments only. */
  method Verify(share: VssShare, commitments: CommitmentSet, generators: PedersenGenerators,
                L: int) returns (r: Result<()>)
    requires L > 0
    ensures r == if share.dealer != commitments.dealer then Err(InvalidVssShare)
                 else Verdict(share.recipient, share.values, share.blinding, commitments.commitments, generators, L)
  {
    if share.dealer != commitments.dealer {
      return Err(InvalidVssShare);
    }
    r := VerifyEquation(share.recipient, share.values, share.blinding, commitments.commitments, generators, L);
  }

  /** The check of a participant's combined share. */
  method VerifyCombined(participant: nat, values: seq<int>, blinding: int, combined: seq<Compressed>,
                        generators: PedersenGenerators, L: int) returns (r: Result<()>)
    requires L > 0
    ensures r == Verdict(participant, values, blinding, combined, generators, L)
  {
    r := VerifyEquation(participant, values, blinding, combined, generators, L);
  }

  /** The commitments a dealer publishes for its polynomial. */
  ghost predicate HonestCommitments(cs: seq<Point>, p: VectorPolynomial, generators: PedersenGenerators, L: int)
    requires p.Valid()
  {
    && |generators.g| == p.VectorLen() && |cs| == p.Threshold()
    && var exact := ExactCommitments(p.coefficients, p.blinding, p.VectorLen(), generators.g, generators.h);
       forall k :: 0 <= k < |cs| ==> Cong(cs[k], exact[k], L)
  }

  /** Every honest share passes verification. */
  lemma HonestShareVerifies(share: VssShare, p: VectorPolynomial, cs: seq<Point>, generators: PedersenGenerators,
                            L: int)
    requires p.Valid() && HonestShare(share, p, L) && HonestCommitments(cs, p, generators, L)
    ensures Equation(share.recipient, share.values, share.blinding, cs, generators, L)
  {
    hide Inner, PolyAt, Cong, VectorAt;
    var x, n, g, h := share.recipient, p.VectorLen(), generators.g, generators.h;
    var exact := ExactCommitments(p.coefficients, p.blinding, n, g, h);
    CommitmentsEvaluate(p.coefficients, p.blinding, n, g, h, x);
    PolyAtCoefficients(cs, exact, x, L);
    var v := VectorAt(p.coefficients, n, x);
    InnerCong(share.values, v, g, L);
    CongRefl(h, L);
    CongMul(share.blinding, PolyAt(p.blinding, x), h, h, L);
    CongAdd(Inner(share.values, g), Inner(v, g), share.blinding * h, PolyAt(p.blinding, x) * h, L);
    CongSym(PolyAt(cs, x), PolyAt(exact, x), L);
    CongTrans(Inner(share.values, g) + share.blinding * h, PolyAt(exact, x), PolyAt(cs, x), L);
  }

  // --------------------------------------------------------------------- tampering

  lemma {:induction false} InnerUpdate(ss: seq<int>, j: nat, delta: int, ps: seq<int>)
    requires |ss| == |ps| && j < |ss|
    ensures Inner(ss[j := ss[j] + delta], ps) == Inner(ss, ps) + delta * ps[j]
  {
    var n := |ss| - 1;
    if j < n {
      assert ss[j := ss[j] + delta][..n] == ss[..n][j := ss[..n][j] + delta];
      InnerUpdate(ss[..n], j, delta, ps[..n]);
    } else {
      assert ss[j := ss[j] + delta][..n] == ss[..n];
      assert (ss[n] + delta) * ps[n] == ss[n] * ps[n] + delta * ps[n];
    }
  }

  /** Moving one side of a congruence by a product of two non-zero scalars breaks it. */
  lemma ShiftedSide(side: int, value: int, delta: int, factor: int, L: int)
    requires NumberTheory.IsPrime(L) && !Cong(delta, 0, L) && !Cong(factor, 0, L) && Cong(side, value, L)
    ensures !Cong(side + delta * factor, value, L)
  {
    hide NumberTheory.IsPrime;
    if Cong(side + delta * factor, value, L) {
      CongSub(side + delta * factor, value, side, value, L);
      NumberTheory.PrimeDivides(L, delta, factor);
    }
  }

  /** An honest share with its blinding changed is refused, whatever the change. */
  lemma TamperedBlinding(share: VssShare, p: VectorPolynomial, commitments: seq<Compressed>, delta: int,
                         generators: PedersenGenerators, L: int)
    requires p.Valid() && HonestShare(share, p, L) && Decodes(commitments) && NumberTheory.IsPrime(L)
    requires HonestCommitments(PointsOf(commitments), p, generators, L)
    requires !Cong(delta, 0, L) && !Cong(generators.h, 0, L)
    ensures Verdict(share.recipient, share.values, share.blinding + delta, commitments, generators, L)
         == Err(InvalidVssShare)
  {
    hide Inner, PolyAt, Cong, ExactCommitments, NumberTheory.IsPrime;
    HonestShareVerifies(share, p, PointsOf(commitments), generators, L);
    var i, h := Inner(share.values, generators.g), generators.h;
    ShiftedSide(i + share.blinding * h, PolyAt(PointsOf(commitments), share.recipient), delta, h, L);
    assert i + share.blinding * h + delta * h == i + (share.blinding + delta) * h by {
      Distributes(share.blinding, delta, h);
    }
  }

  lemma Distributes(a: int, b: int, c: int)
    ensures (a + b) * c == a * c + b * c
  {}

  /** An honest share with one coordinate changed is refused, whatever the change. */
  lemma TamperedValue(share: VssShare, p: VectorPolynomial, commitments: seq<Compressed>, j: nat, delta: int,
                      generators: PedersenGenerators, L: int)
    requires p.Valid() && HonestShare(share, p, L) && Decodes(commitments) && NumberTheory.IsPrime(L)
    requires HonestCommitments(PointsOf(commitments), p, generators, L) && j < |generators.g|
    requires !Cong(delta, 0, L) && !Cong(generators.g[j], 0, L)
    ensures |share.values| == |generators.g|
    ensures Verdict(share.recipient, share.values[j := share.values[j] + delta], share.blinding, commitments,
                    generators, L) == Err(InvalidVssShare)
  {
    hide Inner, PolyAt, Cong, ExactCommitments, NumberTheory.IsPrime;
    HonestShareVerifies(share, p, PointsOf(commitments), generators, L);
    var i, h := Inner(share.values, generators.g), generators.h;
    ShiftedSide(i + share.blinding * h, PolyAt(PointsOf(commitments), share.recipient), delta, generators.g[j], L);
    InnerUpdate(share.values, j, delta, generators.g);
  }

  // ------------------------------------------------------------------- combination

  /** Coordinatewise sum, before reduction. */
  ghost function AddVectors(a: seq<int>, b: seq<int>): (r: seq<int>)
    requires |a| == |b|
    ensures |r| == |a| && forall j :: 0 <= j < |r| ==> r[j] == a[j] + b[j]
  {
    seq(|a|, j requires 0 <= j < |a| => a[j] + b[j])
  }

  lemma {:induction false} InnerAdd(a: seq<int>, b: seq<int>, ps: seq<int>)
    requires |a| == |b| == |ps|
    ensures Inner(AddVectors(a, b), ps) == Inner(a, ps) + Inner(b, ps)
  {
    if |a| > 0 {
      var n := |a| - 1;
      assert AddVectors(a, b)[..n] == AddVectors(a[..n], b[..n]);
      InnerAdd(a[..n], b[..n], ps[..n]);
    }
  }

  lemma {:induction false} PolyAtAdd(c: seq<int>, d: seq<int>, x: int)
    requires |c| == |d|
    ensures PolyAt(AddVectors(c, d), x) == PolyAt(c, x) + PolyAt(d, x)
  {
    if |c| > 0 {
      assert AddVectors(c, d)[1..] == AddVectors(c[1..], d[1..]);
      PolyAtAdd(c[1..], d[1..], x);
      Distribute(x, PolyAt(c[1..], x), PolyAt(d[1..], x));
    }
  }

  lemma Distribute(x: int, a: int, b: int)
    ensures x * (a + b) == x * a + x * b
  {}

  ghost predicate Congruent(a: seq<int>, b: seq<int>, L: int) {
    |a| == |b| && forall j :: 0 <= j < |a| ==> Cong(a[j], b[j], L)
  }

  /** Sums of verified shares satisfy the equation against sums of commitments. */
  lemma EquationAdds(x: int, v: seq<int>, r: int, cs: seq<Point>, v': seq<int>, r': int, cs': seq<Point>,
                     sum: seq<int>, rsum: int, csum: seq<Point>, generators: PedersenGenerators, L: int)
    requires Equation(x, v, r, cs, generators, L) && Equation(x, v', r', cs', generators, L) && |cs| == |cs'|
    requires Congruent(sum, AddVectors(v, v'), L) && Cong(rsum, r + r', L) && Congruent(csum, AddVectors(cs, cs'), L)
    ensures Equation(x, sum, rsum, csum, generators, L)
  {
    hide Inner, PolyAt, Cong;
    var g, h := generators.g, generators.h;
    InnerAdd(v, v', g);
    InnerCong(sum, AddVectors(v, v'), g, L);
    PolyAtAdd(cs, cs', x);
    PolyAtCoefficients(csum, AddVectors(cs, cs'), x, L);
    AddSides(Inner(v, g), Inner(v', g), r, r', h, PolyAt(cs, x), PolyAt(cs', x), Inner(sum, g), rsum, PolyAt(csum, x),
             L);
  }

  lemma AddSides(i: int, i': int, r: int, r': int, h: int, p: int, p': int, isum: int, rsum: int, psum: int, L: int)
    requires Cong(i + r * h, p, L) && Cong(i' + r' * h, p', L)
    requires Cong(isum, i + i', L) && Cong(rsum, r + r', L) && Cong(psum, p + p', L)
    ensures Cong(isum + rsum * h, psum, L)
  {
    CongRefl(h, L);
    CongMul(rsum, r + r', h, h, L);
    CongAdd(isum, i + i', rsum * h, (r + r') * h, L);
    CongAdd(i + r * h, p, i' + r' * h, p', L);
    assert i + i' + (r + r') * h == i + r * h + (i' + r' * h);
    CongTrans(isum + rsum * h, i + r * h + (i' + r' * h), p + p', L);
    CongSym(psum, p + p', L);
    CongTrans(isum + rsum * h, p + p', psum, L);
  }

  /** The sum of a list of vectors of length `n`, before reduction. */
  ghost function SumVectors(vs: seq<seq<int>>, n: nat): (r: seq<int>)
    requires Rows(vs, n)
    ensures |r| == n
  {
    var k := |vs| - 1;
    if |vs| == 0 then seq(n, _ => 0) else AddVectors(SumVectors(vs[..k], n), vs[k])
  }

  lemma SumVectorsPush(vs: seq<seq<int>>, v: seq<int>, n: nat)
    requires Rows(vs, n) && |v| == n
    ensures Rows(vs + [v], n) && SumVectors(vs + [v], n) == AddVectors(SumVectors(vs, n), v)
  {
    assert (vs + [v])[..|vs|] == vs;
  }

  ghost predicate AllDecode(sets: seq<CommitmentSet>) {
    forall d :: 0 <= d < |sets| ==> Decodes(sets[d].commitments)
  }

  ghost function AllPoints(sets: seq<CommitmentSet>): (vs: seq<seq<int>>)
    requires AllDecode(sets)
    ensures |vs| == |sets| && forall d :: 0 <= d < |vs| ==> vs[d] == PointsOf(sets[d].commitments)
  {
    seq(|sets|, d requires 0 <= d < |sets| => PointsOf(sets[d].commitments))
  }

  /** Decodes one commitment set. */
  method DecodeSet(cs: seq<Compressed>) returns (r: Result<seq<Point>>)
    ensures r.Ok? <==> Decodes(cs)
    ensures r.Ok? ==> r.value == PointsOf(cs)
    ensures r.Err? ==> r.error == MalformedMessage
  {
    var points: seq<Point> := [];
    for k := 0 to |cs|
      invariant |points| == k && forall i :: 0 <= i < k ==> cs[i].Encoded? && points[i] == cs[i].point
    {
      if cs[k].Undecodable? {
        return Err(MalformedMessage);
      }
      points := points + [cs[k].point];
    }
    assert points == PointsOf(cs);
    return Ok(points);
  }

  method AddPoints(a: seq<Point>, b: seq<Point>, L: int, ghost exact: seq<int>) returns (r: seq<Point>)
    requires |a| == |b| == |exact| && L > 0 && Congruent(a, exact, L)
    ensures Congruent(r, AddVectors(exact, b), L)
  {
    hide Cong;
    r := [];
    for k := 0 to |a|
      invariant |r| == k && forall i :: 0 <= i < k ==> Cong(r[i], exact[i] + b[i], L)
    {
      var sum := FAdd(a[k], b[k], L);
      CongRefl(b[k], L);
      CongAdd(a[k], exact[k], b[k], b[k], L);
      CongTrans(sum, a[k] + b[k], exact[k] + b[k], L);
      r := r + [sum];
    }
  }

  /** A set that fits the first one and decodes. */
  ghost predicate FitsFirst(sets: seq<CommitmentSet>, d: nat)
    requires d < |sets|
  {
    |sets[d].commitments| == |sets[0].commitments| && Decodes(sets[d].commitments)
  }

  /** Sums the dealers' commitments degree by degree; the first set that does not fit decides the refusal, its length
      before its encodings. */
  method CombineCommitments(sets: seq<CommitmentSet>, L: int) returns (r: Result<seq<Compressed>>)
    requires L > 0
    ensures |sets| == 0 ==> r == Err(MissingShare)
    ensures |sets| > 0 ==> (r.Ok? <==> forall d :: 0 <= d < |sets| ==> FitsFirst(sets, d))
    ensures |sets| > 0 && r.Err? ==>
              exists d :: 0 <= d < |sets| && !FitsFirst(sets, d) && (forall i :: 0 <= i < d ==> FitsFirst(sets, i))
                          && r.error == if |sets[d].commitments| != |sets[0].commitments| then InvalidParameters
                                        else MalformedMessage
    ensures r.Ok? ==>
              && AllDecode(sets) && Rows(AllPoints(sets), |sets[0].commitments|) && Decodes(r.value)
              && Congruent(PointsOf(r.value), SumVectors(AllPoints(sets), |sets[0].commitments|), L)
  {
    hide Cong, SumVectors, AddVectors, PointsOf;
    if |sets| == 0 {
      return Err(MissingShare);
    }
    var first := DecodeSet(sets[0].commitments);
    if first.Err? {
      assert !FitsFirst(sets, 0);
      return Err(first.error);
    }
    var combined := first.value;
    ghost var n := |combined|;
    ghost var vs: seq<seq<int>> := [combined];
    SingleVector(combined, n, L);
    for d := 1 to |sets|
      invariant |combined| == n == |sets[0].commitments| && |vs| == d && Rows(vs, n)
      invariant forall i :: 0 <= i < d ==> FitsFirst(sets, i) && vs[i] == PointsOf(sets[i].commitments)
      invariant Congruent(combined, SumVectors(vs, n), L)
    {
      if |sets[d].commitments| != |combined| {
        assert !FitsFirst(sets, d);
        return Err(InvalidParameters);
      }
      var points := DecodeSet(sets[d].commitments);
      if points.Err? {
        assert !FitsFirst(sets, d);
        return Err(points.error);
      }
      SumVectorsPush(vs, points.value, n);
      combined := AddPoints(combined, points.value, L, SumVectors(vs, n));
      vs := vs + [points.value];
    }
    assert vs == AllPoints(sets);
    return Ok(Compress(combined));
  }

  lemma SingleVector(v: seq<int>, n: nat, L: int)
    requires |v| == n
    ensures Rows([v], n) && Congruent(v, SumVectors([v], n), L)
  {
    assert [v][..0] == [];
    assert SumVectors([v], n) == AddVectors(seq(n, _ => 0), v);
    assert AddVectors(seq(n, _ => 0), v) == v;
    CongruentRefl(v, L);
  }

  /** For any set of dealers, sums of shares that satisfy the equation satisfy it against the combined commitments. */
  lemma {:induction false} CombinedShareVerifies(x: int, vs: seq<seq<int>>, rs: seq<int>, css: seq<seq<Point>>, t: nat,
                                                 generators: PedersenGenerators, L: int)
    requires |vs| == |rs| == |css| && Rows(css, t) && Rows(vs, |generators.g|)
    requires forall d :: 0 <= d < |vs| ==> Equation(x, vs[d], rs[d], css[d], generators, L)
    ensures Equation(x, SumVectors(vs, |generators.g|), SumScalars(rs), SumVectors(css, t), generators, L)
  {
    hide Inner, PolyAt, Cong;
    var n := |generators.g|;
    if |vs| == 0 {
      ZeroEquation(x, n, t, generators, L);
    } else {
      var k := |vs| - 1;
      CombinedShareVerifies(x, vs[..k], rs[..k], css[..k], t, generators, L);
      CongruentRefl(SumVectors(vs, n), L);
      CongruentRefl(SumVectors(css, t), L);
      CongRefl(SumScalars(rs), L);
      EquationAdds(x, SumVectors(vs[..k], n), SumScalars(rs[..k]), SumVectors(css[..k], t), vs[k], rs[k], css[k],
                   SumVectors(vs, n), SumScalars(rs), SumVectors(css, t), generators, L);
    }
  }

  ghost function SumScalars(rs: seq<int>): int {
    if |rs| == 0 then 0 else SumScalars(rs[..|rs| - 1]) + rs[|rs| - 1]
  }

  lemma SumScalarsPush(rs: seq<int>, r: int)
    ensures SumScalars(rs + [r]) == SumScalars(rs) + r
  {
    assert (rs + [r])[..|rs|] == rs;
  }

  lemma CongruentRefl(a: seq<int>, L: int)
    ensures Congruent(a, a, L)
  {
    forall j | 0 <= j < |a| ensures Cong(a[j], a[j], L) {
      CongRefl(a[j], L);
    }
  }

  lemma ZeroEquation(x: int, n: nat, t: nat, generators: PedersenGenerators, L: int)
    requires n == |generators.g|
    ensures Equation(x, seq(n, _ => 0), 0, seq(t, _ => 0), generators, L)
  {
    ZeroInner(seq(n, _ => 0), generators.g);
    ZeroPolynomial(seq(t, _ => 0), x);
    CongRefl(0, L);
  }

  lemma {:induction false} ZeroPolynomial(c: seq<int>, x: int)
    requires forall k :: 0 <= k < |c| ==> c[k] == 0
    ensures PolyAt(c, x) == 0
  {
    if |c| > 0 {
      ZeroPolynomial(c[1..], x);
    }
  }

  // ------------------------------------------------------------------- accumulation

  /** Accumulates one participant's verified shares, one per dealer. */
  class ShareAccumulator {
    const participant: nat
    const L: int
    const generators: PedersenGenerators
    var sumValues: seq<int>
    var sumBlinding: int
    var dealersSeen: set<nat>
    ghost var accepted: seq<VssShare>
    ghost var against: seq<seq<Point>>

    /** The sums are those of the accepted shares; every accepted share satisfied its dealer's equation. */
    ghost predicate Valid()
      reads this
    {
      && L > 0 && |accepted| == |against|
      && (forall d :: 0 <= d < |accepted| ==>
            |accepted[d].values| == |sumValues| && accepted[d].recipient == participant &&
                accepted[d].dealer in dealersSeen)
      && (forall d, e :: 0 <= d < e < |accepted| ==> accepted[d].dealer != accepted[e].dealer)
      && (forall d :: 0 <= d < |accepted| ==>
            Equation(participant, accepted[d].values, accepted[d].blinding, against[d], generators, L))
      && Congruent(sumValues, SumVectors(ValuesOf(accepted, |sumValues|), |sumValues|), L)
      && Cong(sumBlinding, SumScalars(BlindingsOf(accepted)), L)
    }

    constructor (participant: nat, vectorLen: nat, generators: PedersenGenerators, L: int)
      requires L > 0
      ensures Valid() && accepted == [] && dealersSeen == {} && this.participant == participant && this.L == L
      ensures this.generators == generators && |sumValues| == vectorLen
    {
      this.participant := participant;
      this.L := L;
      this.generators := generators;
      sumValues := seq(vectorLen, _ => 0);
      sumBlinding := 0;
      dealersSeen := {};
      accepted := [];
      against := [];
      new;
      CongruentRefl(sumValues, L);
      CongRefl(0, L);
    }

    /** A dealer is marked as seen before its share is verified, so a share that fails verification uses up
        its dealer. */
    method AddVerifiedShare(share: VssShare, commitments: CommitmentSet) returns (r: Result<()>)
      requires Valid()
      modifies this
      ensures Valid() && |sumValues| == old(|sumValues|)
      ensures share.recipient != participant ==> r == Err(UnknownParticipant)
      ensures share.recipient == participant && |share.values| != |sumValues| ==> r == Err(InvalidParameters)
      ensures share.recipient == participant && |share.values| == |sumValues| ==>
                r == if share.dealer in old(dealersSeen) then Err(DuplicateParticipant)
                     else if share.dealer != commitments.dealer then Err(InvalidVssShare)
                     else Verdict(participant, share.values, share.blinding, commitments.commitments, generators, L)
      ensures dealersSeen == if share.recipient == participant && |share.values| == |sumValues|
                             then old(dealersSeen) + {share.dealer} else old(dealersSeen)
      ensures accepted == if r.Ok? then old(accepted) + [share] else old(accepted)
      ensures r.Ok? ==>
                Decodes(commitments.commitments) && against == old(against) + [PointsOf(commitments.commitments)]
      ensures r.Err? ==> against == old(against) && sumValues == old(sumValues) && sumBlinding == old(sumBlinding)
    {
      hide Cong, SumVectors, SumScalars, Equation, AddVectors;
      if share.recipient != participant {
        return Err(UnknownParticipant);
      }
      if |share.values| != |sumValues| {
        return Err(InvalidParameters);
      }
      if share.dealer in dealersSeen {
        return Err(DuplicateParticipant);
      }
      dealersSeen := dealersSeen + {share.dealer};
      var verified := Verify(share, commitments, generators, L);
      if verified.Err? {
        return verified;
      }
      ghost var n := |sumValues|;
      ghost var before := accepted;
      ValuesPush(before, share, n);
      var sums := AddPoints(sumValues, share.values, L, SumVectors(ValuesOf(before, n), n));
      var blinding := FAdd(sumBlinding, share.blinding, L);
      BlindingStep(before, share, sumBlinding, blinding, L);
      sumValues, sumBlinding := sums, blinding;
      accepted := accepted + [share];
      against := against + [PointsOf(commitments.commitments)];
      return Ok(());
    }

    function DealerCount(): nat
      reads this
    {
      |dealersSeen|
    }

    /** The final combined share. */
    method Finalize() returns (values: seq<int>, blinding: int)
      requires Valid()
      ensures |values| == |sumValues| && Congruent(values, SumVectors(ValuesOf(accepted, |values|), |values|), L)
      ensures Cong(blinding, SumScalars(BlindingsOf(accepted)), L)
    {
      return sumValues, sumBlinding;
    }
  }

  ghost function ValuesOf(shares: seq<VssShare>, n: nat): (vs: seq<seq<int>>)
    requires forall d :: 0 <= d < |shares| ==> |shares[d].values| == n
    ensures |vs| == |shares| && Rows(vs, n) && forall d :: 0 <= d < |vs| ==> vs[d] == shares[d].values
  {
    seq(|shares|, d requires 0 <= d < |shares| => shares[d].values)
  }

  ghost function BlindingsOf(shares: seq<VssShare>): (rs: seq<int>)
    ensures |rs| == |shares| && forall d :: 0 <= d < |rs| ==> rs[d] == shares[d].blinding
  {
    seq(|shares|, d requires 0 <= d < |shares| => shares[d].blinding)
  }

  lemma ValuesPush(shares: seq<VssShare>, share: VssShare, n: nat)
    requires (forall d :: 0 <= d < |shares| ==> |shares[d].values| == n) && |share.values| == n
    ensures ValuesOf(shares + [share], n) == ValuesOf(shares, n) + [share.values]
    ensures SumVectors(ValuesOf(shares + [share], n), n) == AddVectors(SumVectors(ValuesOf(shares, n), n), share.values)
  {
    assert ValuesOf(shares + [share], n) == ValuesOf(shares, n) + [share.values];
    SumVectorsPush(ValuesOf(shares, n), share.values, n);
  }

  lemma BlindingStep(shares: seq<VssShare>, share: VssShare, sum: int, next: int, L: int)
    requires Cong(sum, SumScalars(BlindingsOf(shares)), L) && Cong(next, sum + share.blinding, L)
    ensures Cong(next, SumScalars(BlindingsOf(shares + [share])), L)
  {
    hide Cong;
    assert BlindingsOf(shares + [share]) == BlindingsOf(shares) + [share.blinding];
    SumScalarsPush(BlindingsOf(shares), share.blinding);
    CongRefl(share.blinding, L);
    CongAdd(sum, SumScalars(BlindingsOf(shares)), share.blinding, share.blinding, L);
    CongTrans(next, sum + share.blinding, SumScalars(BlindingsOf(shares)) + share.blinding, L);
  }

  /** What an accumulator finalizes satisfies the equation against the sum of the commitments it was checked
      against, for any set of dealers. */
  lemma AccumulatedShareVerifies(shares: seq<VssShare>, css: seq<seq<Point>>, t: nat, x: int, values: seq<int>,
                                 blinding: int,
                                 combined: seq<Point>, generators: PedersenGenerators, L: int)
    requires |shares| == |css| && Rows(css, t)
    requires forall d :: 0 <= d < |shares| ==> |shares[d].values| == |generators.g|
    requires forall d :: 0 <= d < |shares| ==> Equation(x, shares[d].values, shares[d].blinding, css[d], generators, L)
    requires Congruent(values, SumVectors(ValuesOf(shares, |generators.g|), |generators.g|), L)
    requires Cong(blinding, SumScalars(BlindingsOf(shares)), L) && Congruent(combined, SumVectors(css, t), L)
    ensures Equation(x, values, blinding, combined, generators, L)
  {
    hide Inner, PolyAt, Cong, SumVectors, SumScalars, AddVectors;
    var n := |generators.g|;
    var vs, rs := ValuesOf(shares, n), BlindingsOf(shares);
    CombinedShareVerifies(x, vs, rs, css, t, generators, L);
    ZeroEquation(x, n, t, generators, L);
    AddZeroVector(SumVectors(vs, n));
    AddZeroVector(SumVectors(css, t));
    EquationAdds(x, SumVectors(vs, n), SumScalars(rs), SumVectors(css, t), seq(n, _ => 0), 0, seq(t, _ => 0),
                 values, blinding, combined, generators, L);
  }

  lemma AddZeroVector(a: seq<int>)
    ensures AddVectors(a, seq(|a|, _ => 0)) == a
  {}
}
