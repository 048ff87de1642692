/** Exact reconstruction from residues, and the basis conversions built on it. */
module RnsExtension {
  import opened Integers
  import opened NumberTheory
  import opened Reduce
  import opened Results
  import opened Negacyclic
  import opened Rns
  import opened Crt
  import opened BigUints

  function Degree(x: RnsPoly): nat {
    if |x| == 0 then 0 else |x[0]|
  }

  /** What `Poly::from_coeffs` accepts. */
  predicate Rectangular(x: RnsPoly) {
    |x| > 0 && |x[0]| > 0 && forall j :: 0 <= j < |x| ==> |x[j]| == |x[0]|
  }

  method FromCoeffs(coeffs: RnsPoly) returns (r: Result<RnsPoly>)
    ensures r == if Rectangular(coeffs) then Ok(coeffs) else Err(DimensionMismatch)
  {
    if Degree(coeffs) == 0 || exists j :: 0 <= j < |coeffs| && |coeffs[j]| != Degree(coeffs) {
      return Err(DimensionMismatch);
    }
    return Ok(coeffs);
  }

  // ------------------------------------------------------------ reconstruction

  lemma ProductPrefix(qs: seq<int>, k: nat)
    requires k < |qs|
    ensures Product(qs[..k + 1]) == Product(qs[..k]) * qs[k]
  {
    assert qs[..k + 1][..k] == qs[..k];
  }

  method BasisProduct(qs: seq<u64>) returns (r: BigUint)
    ensures Val(r) == Product(qs)
  {
    r := FromU64(1);
    for k := 0 to |qs|
      invariant Val(r) == Product(qs[..k])
    {
      ProductPrefix(qs, k);
      r := MulU64(r, qs[k]);
    }
    assert qs[..|qs|] == qs;
  }

  /** Q / q_k and the inverse of its residue, from the basis product. */
  method CofactorConstants(bigQ: BigUint, qs: seq<Modulus>, k: nat) returns (m: BigUint, y: u64)
    requires PrimeBasis(qs) && k < |qs| && Val(bigQ) == Product(qs)
    ensures Val(m) == Cofactor(qs, k) && y == CofactorInverse(qs, k) && y < qs[k]
  {
    hide IsPrime, Product, Cofactor, Inverse;
    var remainder, residue, unused;
    m, remainder := DivmodU64(bigQ, qs[k]);
    ProductCofactor(qs, k);
    QuotientUnique(qs[k], Val(m), remainder, Cofactor(qs, k), 0);
    unused, residue := DivmodU64(m, qs[k]);
    DivModUnique(Val(m), qs[k], Val(unused), residue);
    y := InvMod(residue, qs[k]);
  }

  /** Repeated subtraction; `k` bounds the size in multiples of Q, and at most `k - 1` rounds run. */
  method ReduceBelow(start: BigUint, bigQ: BigUint, ghost k: nat) returns (t: BigUint, ghost rounds: nat)
    requires Val(bigQ) > 0 && k > 0 && 0 <= Val(start) < k * Val(bigQ)
    ensures 0 <= Val(t) < Val(bigQ) && Val(start) == Val(t) + rounds * Val(bigQ) && rounds <= k - 1
    ensures Val(t) == Val(start) % Val(bigQ)
  {
    t := start;
    rounds := 0;
    var o := Cmp(t, bigQ);
    while o != Less
      invariant Val(start) == Val(t) + rounds * Val(bigQ) && 0 <= Val(t)
      invariant o == Less <==> Val(t) < Val(bigQ)
      invariant rounds <= k - 1
      decreases Val(t)
    {
      AnotherRound(Val(start), Val(t), Val(bigQ), rounds, k);
      t := Sub(t, bigQ);
      rounds := rounds + 1;
      o := Cmp(t, bigQ);
    }
    DivModUnique(Val(start), Val(bigQ), rounds, Val(t));
  }

  lemma AnotherRound(s: int, t: int, q: int, rounds: nat, k: nat)
    requires s == t + rounds * q && t >= q > 0 && s < k * q
    ensures s == t - q + (rounds + 1) * q && rounds + 1 <= k - 1
  {
    if rounds + 1 >= k {
      MulMono(k, rounds + 1, q);
    }
  }

  /** One coefficient: sum the terms, then reduce. */
  method ReconstructValue(rs: seq<u64>, source: seq<Modulus>, bigQ: BigUint, ms: seq<BigUint>, ys: seq<u64>)
    returns (t: BigUint)
    requires PrimeBasis(source) && |rs| == |source| == |ms| == |ys| && Val(bigQ) == Product(source)
    requires forall c :: 0 <= c < |source| ==> Val(ms[c]) == Cofactor(source, c) && ys[c] == CofactorInverse(source, c)
    ensures Val(t) == CrtValue(rs, source)
  {
    hide IsPrime, Product, Cofactor, CofactorInverse;
    t := Zero();
    for c := 0 to |source|
      invariant Val(t) == CrtSum(rs, source, c)
    {
      var scaled := MulMod(rs[c], ys[c], source[c]);
      var term := MulU64(ms[c], scaled);
      t := Add(t, term);
    }
    CrtSumBound(rs, source, |source|);
    PrimeModuli(source);
    ghost var rounds;
    t, rounds := ReduceBelow(t, bigQ, |source|);
  }

  /** For every coefficient, the integer in [0, Q) with these residues. */
  method ReconstructTrueValues(poly: RnsPoly, source: seq<Modulus>) returns (r: Result<(BigUint, seq<BigUint>)>)
    requires PrimeBasis(source) && Rectangular(poly)
    ensures r.Ok? <==> |poly| == |source|
    ensures r.Ok? ==>
              && Val(r.value.0) == Product(source) && |r.value.1| == Degree(poly)
              && forall i :: 0 <= i < Degree(poly) ==> Val(r.value.1[i]) == Lift(poly, Degree(poly), source)[i]
    ensures r.Err? ==> r.error == DimensionMismatch
  {
    hide IsPrime, Product, Cofactor, CofactorInverse, CrtValue;
    if |poly| != |source| {
      return Err(DimensionMismatch);
    }
    var bigQ := BasisProduct(source);
    var ms: seq<BigUint>, ys: seq<u64> := [], [];
    for k := 0 to |source|
      invariant |ms| == |ys| == k
      invariant forall c :: 0 <= c < k ==> Val(ms[c]) == Cofactor(source, c) && ys[c] == CofactorInverse(source, c)
    {
      var m, y := CofactorConstants(bigQ, source, k);
      ms := ms + [m];
      ys := ys + [y];
    }
    var values: seq<BigUint> := [];
    for i := 0 to Degree(poly)
      invariant |values| == i
      invariant forall p :: 0 <= p < i ==> Val(values[p]) == CrtValue(Column(poly, p), source)
    {
      var rs: seq<u64> := seq(|poly|, c requires 0 <= c < |poly| => poly[c][i]);
      assert rs == Column(poly, i);
      var t := ReconstructValue(rs, source, bigQ, ms, ys);
      values := values + [t];
    }
    return Ok((bigQ, values));
  }

  // ------------------------------------------------------------ basis extension

  /** Residue of a big integer modulo each modulus of a basis. */
  method ResiduesOf(value: BigUint, target: seq<Modulus>) returns (rs: seq<u64>)
    ensures |rs| == |target| && forall j :: 0 <= j < |target| ==> rs[j] < target[j] && rs[j] == Val(value) % target[j]
  {
    rs := [];
    for j := 0 to |target|
      invariant |rs| == j
      invariant forall k :: 0 <= k < j ==> rs[k] < target[k] && rs[k] == Val(value) % target[k]
    {
      var q, residue := DivmodU64(value, target[j]);
      DivModUnique(Val(value), target[j], Val(q), residue);
      rs := rs + [residue];
    }
  }

  function SetColumn(x: RnsPoly, i: nat, rs: seq<u64>): (r: RnsPoly)
    requires |x| == |rs| && forall j :: 0 <= j < |x| ==> i < |x[j]|
    ensures |r| == |x| && forall j :: 0 <= j < |x| ==> r[j] == x[j][i := rs[j]]
  {
    seq(|x|, j requires 0 <= j < |x| => x[j][i := rs[j]])
  }

  function ZeroRows(k: nat, n: nat): (r: RnsPoly)
    ensures |r| == k && forall j :: 0 <= j < k ==> |r[j]| == n && forall i :: 0 <= i < n ==> r[j][i] == 0
  {
    seq(k, _ => seq(n, _ => 0))
  }

  /** The first `i` columns hold the residues of `a`. */
  ghost predicate ColumnsDone(x: seq<Poly>, a: Poly, qs: seq<int>, i: nat)
    requires Moduli(qs)
  {
    && Shape(x, |a|, |qs|)
    && forall j, c :: 0 <= j < |qs| && 0 <= c < i && c < |a| ==> x[j][c] == PMod(a, qs[j])[c]
  }

  lemma ColumnStep(x: RnsPoly, a: Poly, qs: seq<int>, i: nat, rs: seq<u64>)
    requires Moduli(qs) && i < |a| && ColumnsDone(x, a, qs, i)
    requires |rs| == |qs| && forall j :: 0 <= j < |qs| ==> rs[j] == a[i] % qs[j]
    ensures ColumnsDone(SetColumn(x, i, rs), a, qs, i + 1)
  {}

  lemma ColumnsAll(x: RnsPoly, a: Poly, qs: seq<int>)
    requires Moduli(qs) && ColumnsDone(x, a, qs, |a|)
    ensures x == Residues(a, qs)
  {
    hide PMod;
    forall j | 0 <= j < |qs| ensures x[j] == PMod(a, qs[j]) {
      assert |x[j]| == |a|;
    }
  }

  /** The residues of the [0, Q) values modulo another basis. */
  method ExtendBasis(poly: RnsPoly, source: seq<Modulus>, target: seq<Modulus>) returns (r: Result<RnsPoly>)
    requires PrimeBasis(source) && Rectangular(poly) && |target| > 0
    ensures r.Ok? <==> |poly| == |source|
    ensures r.Ok? ==> r.value == Residues(Lift(poly, Degree(poly), source), target) && Rectangular(r.value)
    ensures r.Err? ==> r.error == DimensionMismatch
  {
    hide IsPrime, Product, PMod, ColumnsDone;
    var reconstructed :- ReconstructTrueValues(poly, source);
    var values := reconstructed.1;
    ghost var a := Lift(poly, Degree(poly), source);
    var coeffs := ZeroRows(|target|, Degree(poly));
    ColumnsStart(coeffs, a, target);
    for i := 0 to Degree(poly)
      invariant Shape(coeffs, Degree(poly), |target|) && ColumnsDone(coeffs, a, target, i)
    {
      var rs := ResiduesOf(values[i], target);
      ColumnStep(coeffs, a, target, i, rs);
      coeffs := SetColumn(coeffs, i, rs);
    }
    ColumnsAll(coeffs, a, target);
    r := FromCoeffs(coeffs);
  }

  lemma ColumnsStart(x: RnsPoly, a: Poly, qs: seq<int>)
    requires Moduli(qs) && Shape(x, |a|, |qs|)
    ensures ColumnsDone(x, a, qs, 0)
  {}

  // ----------------------------------------------------------- basis constants

  /** (Q / q_index) modulo each target. */
  method CrtBasisConstant(source: seq<Modulus>, index: nat, targets: seq<Modulus>) returns (r: Result<seq<u64>>)
    requires |source| > 0
    ensures r.Ok? <==> index < |source|
    ensures r.Ok? ==> |r.value| == |targets| && forall k :: 0 <= k < |targets| ==>
                        r.value[k] == Cofactor(source, index) % targets[k]
    ensures r.Err? ==> r.error == DimensionMismatch
  {
    hide Product, Cofactor;
    if index >= |source| {
      return Err(DimensionMismatch);
    }
    var bigQ := BasisProduct(source);
    var m, remainder := DivmodU64(bigQ, source[index]);
    ProductCofactor(source, index);
    QuotientUnique(source[index], Val(m), remainder, Cofactor(source, index), 0);
    var rs := ResiduesOf(m, targets);
    return Ok(rs);
  }

  lemma LiftConstantMod(M: int, y: int, t: int, r: int)
    requires t > 0 && r == M % t * y % t
    ensures r == M * y % t
  {
    ModCong(M, t);
    CongRefl(y, t);
    CongMul(M % t, M, y, y, t);
    ModEq(M % t * y, M * y, t);
  }

  /** G_index modulo each target. */
  method CrtLiftConstant(source: seq<Modulus>, index: nat, targets: seq<Modulus>) returns (r: Result<seq<u64>>)
    requires PrimeBasis(source)
    ensures r.Ok? <==> index < |source|
    ensures r.Ok? ==> |r.value| == |targets| && forall k :: 0 <= k < |targets| ==>
                        r.value[k] == LiftConstant(source, index) % targets[k]
    ensures r.Err? ==> r.error == DimensionMismatch
  {
    hide IsPrime, Product, Cofactor, CofactorInverse;
    if index >= |source| {
      return Err(DimensionMismatch);
    }
    var bigQ := BasisProduct(source);
    var m, y := CofactorConstants(bigQ, source, index);
    var ms := ResiduesOf(m, targets);
    var out: seq<u64> := [];
    for k := 0 to |targets|
      invariant |out| == k
      invariant forall c :: 0 <= c < k ==> out[c] == LiftConstant(source, index) % targets[c]
    {
      var v := MulMod(ms[k], y, targets[k]);
      LiftConstantMod(Val(m), y, targets[k], v);
      out := out + [v];
    }
    return Ok(out);
  }

  /** floor(Q / divisor) modulo each modulus of the basis. */
  method FloorDivideResidues(basis: seq<Modulus>, divisor: u64) returns (rs: seq<u64>)
    requires divisor > 0
    ensures |rs| == |basis| && forall j :: 0 <= j < |basis| ==> rs[j] == Product(basis) / divisor % basis[j]
  {
    var bigQ := BasisProduct(basis);
    var quotient, remainder := DivmodU64(bigQ, divisor);
    DivModUnique(Val(bigQ), divisor, Val(quotient), remainder);
    rs := ResiduesOf(quotient, basis);
  }

  // ----------------------------------------------------------- centered values

  const I128_MAX: int := 0x7FFF_FFFF_FFFF_FFFF_FFFF_FFFF_FFFF_FFFF

  type i128 = x: int | -0x8000_0000_0000_0000_0000_0000_0000_0000 <= x <= 0x7FFF_FFFF_FFFF_FFFF_FFFF_FFFF_FFFF_FFFF

  /** Splits a value of [0, Q) into the sign and magnitude of its centered representative. */
  method CenterValue(value: BigUint, bigQ: BigUint) returns (negative: bool, magnitude: BigUint)
    requires 0 <= Val(value) < Val(bigQ)
    ensures Center(Val(value), Val(bigQ)) == if negative then 0 - Val(magnitude) else Val(magnitude)
    ensures Val(magnitude) >= 0 && 2 * Val(magnitude) <= Val(bigQ)
    ensures negative <==> Center(Val(value), Val(bigQ)) < 0
  {
    var doubled := MulU64(value, 2);
    var o := Cmp(doubled, bigQ);
    negative := o == Greater;
    if negative {
      magnitude := BigUints.Sub(bigQ, value);
    } else {
      magnitude := value;
    }
  }

  /** The signed values, unless one needs more than 127 bits of magnitude. */
  method ReconstructCenteredValues(poly: RnsPoly, source: seq<Modulus>) returns (r: Result<seq<i128>>)
    requires PrimeBasis(source) && Rectangular(poly)
    ensures |poly| != |source| ==> r == Err(DimensionMismatch)
    ensures |poly| == |source| ==>
              var a := CenteredLift(poly, Degree(poly), source);
              r == if exists i :: 0 <= i < |a| && Abs(a[i]) >= TWO_128 / 2 then Err(CrtOverflow) else Ok(a)
  {
    hide IsPrime, Product;
    var reconstructed :- ReconstructTrueValues(poly, source);
    var bigQ, values := reconstructed.0, reconstructed.1;
    ghost var a := CenteredLift(poly, Degree(poly), source);
    var out: seq<i128> := [];
    for i := 0 to |values|
      invariant |out| == i && forall k :: 0 <= k < i ==> Abs(a[k]) <= I128_MAX && out[k] == a[k]
    {
      var negative, magnitude := CenterValue(values[i], bigQ);
      assert a[i] == Center(Val(values[i]), Val(bigQ));
      var small := CheckedToU128(magnitude);
      if small.None? || small.value > I128_MAX {
        return Err(CrtOverflow);
      }
      out := out + [if negative then 0 - small.value else small.value];
    }
    assert out == a;
    return Ok(out);
  }

  function EuclideanRemainder(value: int, q: u64): (r: u64)
    requires q > 0
    ensures r == value % q && r < q
  {
    DivModId(value, q);
    value % q
  }

  /** The residues of signed coefficients. */
  method EmbedCenteredCoeffs(coeffs: seq<i128>, moduli: seq<Modulus>) returns (r: Result<RnsPoly>)
    ensures r == if |coeffs| == 0 || |moduli| == 0 then Err(DimensionMismatch) else Ok(Residues(coeffs, moduli))
  {
    hide PMod;
    var out := ZeroRows(|moduli|, |coeffs|);
    for j := 0 to |moduli|
      invariant Shape(out, |coeffs|, |moduli|)
      invariant forall k :: 0 <= k < j ==> out[k] == PMod(coeffs, moduli[k])
    {
      var row: seq<u64> := [];
      for i := 0 to |coeffs|
        invariant |row| == i && forall c :: 0 <= c < i ==> row[c] == PMod(coeffs, moduli[j])[c]
      {
        row := row + [EuclideanRemainder(coeffs[i], moduli[j])];
      }
      assert row == PMod(coeffs, moduli[j]);
      out := out[j := row];
    }
    assert out == Residues(coeffs, moduli);
    r := FromCoeffs(out);
  }

  /** Basis extension that preserves the signed value. */
  method ExtendBasisCentered(poly: RnsPoly, source: seq<Modulus>, target: seq<Modulus>) returns (r: Result<RnsPoly>)
    requires PrimeBasis(source) && Rectangular(poly) && |target| > 0
    ensures |poly| != |source| ==> r == Err(DimensionMismatch)
    ensures |poly| == |source| ==>
              var a := CenteredLift(poly, Degree(poly), source);
              r == if exists i :: 0 <= i < |a| && Abs(a[i]) >= TWO_128 / 2 then Err(CrtOverflow)
                   else Ok(Residues(a, target))
  {
    hide IsPrime, Product;
    var centered :- ReconstructCenteredValues(poly, source);
    r := EmbedCenteredCoeffs(centered, target);
  }

  /** A signed polynomial that fits both bases survives the extension and its reversal. */
  lemma CenteredExtensionRoundTrip(a: Poly, source: seq<Modulus>, target: seq<Modulus>)
    requires PrimeBasis(source) && PrimeBasis(target)
    requires forall i :: 0 <= i < |a| ==> -Product(source) < 2 * a[i] < Product(source)
    requires forall i :: 0 <= i < |a| ==> -Product(target) < 2 * a[i] < Product(target)
    ensures CenteredLift(Residues(CenteredLift(Residues(a, source), |a|, source), target), |a|, target) == a
  {
    hide IsPrime, Product;
    PrimeModuli(source);
    PrimeModuli(target);
    CenteredLiftOfResidues(a, source);
    CenteredLiftOfResidues(a, target);
  }
}
