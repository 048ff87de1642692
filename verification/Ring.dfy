/** The ring context and its polynomial operations. */
module Rings {
  import opened Integers
  import opened Sums
  import opened NumberTheory
  import opened Reduce
  import opened Results
  import opened Negacyclic
  import opened Substitution
  import opened Automorphisms
  import opened Rns
  import opened NttTransforms
  import Barrett
  import NttTables
  import Ntt

  /** A polynomial whose residues are overwritten in place. */
  class PolyBuffer {
    var coeffs: RnsPoly

    constructor (coeffs: RnsPoly)
      ensures this.coeffs == coeffs
    {
      this.coeffs := coeffs;
    }
  }

  /** `after` agrees with `target` on the rows above `j` and the first `i` entries of row `j`,
      and with `before` elsewhere. */
  ghost predicate Progress(before: seq<Poly>, after: seq<Poly>, target: seq<Poly>, j: nat, i: nat)
    requires |before| == |target| && forall r :: 0 <= r < |before| ==> |before[r]| == |target[r]|
  {
    && |after| == |before|
    && (forall r :: 0 <= r < j && r < |after| ==> after[r] == target[r])
    && (forall r :: j < r < |after| ==> after[r] == before[r])
    && (j < |after| ==>
          && |after[j]| == |before[j]|
          && (forall c :: 0 <= c < i && c < |after[j]| ==> after[j][c] == target[j][c])
          && (forall c :: i <= c < |after[j]| ==> after[j][c] == before[j][c]))
  }

  lemma ProgressStart(before: seq<Poly>, target: seq<Poly>)
    requires |before| == |target| && forall r :: 0 <= r < |before| ==> |before[r]| == |target[r]|
    ensures Progress(before, before, target, 0, 0)
  {}

  lemma ProgressRow(before: seq<Poly>, after: seq<Poly>, target: seq<Poly>, j: nat, n: nat)
    requires |before| == |target| && forall r :: 0 <= r < |before| ==> |before[r]| == |target[r]|
    requires j < |before| && |before[j]| == n && Progress(before, after, target, j, n)
    ensures Progress(before, after, target, j + 1, 0)
  {
    assert after[j] == target[j];
  }

  lemma ProgressDone(before: seq<Poly>, after: seq<Poly>, target: seq<Poly>)
    requires |before| == |target| && forall r :: 0 <= r < |before| ==> |before[r]| == |target[r]|
    requires Progress(before, after, target, |before|, 0)
    ensures after == target
  {}

  /** The polynomial with one entry overwritten. */
  function SetEntry(x: RnsPoly, j: nat, i: nat, v: u64): (r: RnsPoly)
    requires j < |x| && i < |x[j]|
    ensures |r| == |x| && r[j] == x[j][i := v] && forall k :: 0 <= k < |x| && k != j ==> r[k] == x[k]
  {
    var row: seq<u64> := x[j][i := v];
    x[j := row]
  }

  /** One more entry of row `j` overwritten with its target value. */
  lemma ProgressEntry(before: seq<Poly>, mid: RnsPoly, target: seq<Poly>, j: nat, i: nat, v: u64)
    requires |before| == |target| && forall r :: 0 <= r < |before| ==> |before[r]| == |target[r]|
    requires j < |before| && i < |before[j]| && Progress(before, mid, target, j, i)
    requires v == target[j][i]
    ensures Progress(before, SetEntry(mid, j, i, v), target, j, i + 1)
  {}

  /** Row `k` of a product after all pairs from the first `a` rows and `b` terms of row `a`. */
  ghost predicate SchoolAt(x: Poly, y: Poly, out: seq<int>, q: int, a: nat, b: nat, k: nat)
    requires |x| == |y| == |out| > 0 && k < |out|
  {
    var f := LinTerm(x, Rev(y, k));
    var taken := (if k >= a then k - a else k - a + |x|) < b;
    0 <= out[k] < q && Cong(out[k], Sum(a, f) + (if taken then f(a) else 0), q)
  }

  ghost predicate School(x: Poly, y: Poly, out: seq<int>, q: int, a: nat, b: nat)
    requires |x| == |y| == |out| > 0
  {
    forall k :: 0 <= k < |out| ==> SchoolAt(x, y, out, q, a, b, k)
  }

  lemma SchoolStart(x: Poly, y: Poly, out: seq<int>, q: int)
    requires |x| == |y| == |out| > 0 && q > 0 && forall k :: 0 <= k < |out| ==> out[k] == 0
    ensures School(x, y, out, q, 0, 0)
  {
    hide Cong, Coef;
    CongRefl(0, q);
  }

  lemma SchoolRow(x: Poly, y: Poly, out: seq<int>, q: int, a: nat)
    requires |x| == |y| == |out| > 0 && a < |x| && School(x, y, out, q, a, |x|)
    ensures School(x, y, out, q, a + 1, 0)
  {
    hide Cong, LinTerm;
    var next := a + 1;
    forall k | 0 <= k < |out| ensures SchoolAt(x, y, out, q, next, 0, k) {
      assert SchoolAt(x, y, out, q, a, |x|, k);
    }
  }

  lemma SchoolDone(x: Poly, y: Poly, out: seq<int>, q: int)
    requires |x| == |y| == |out| > 0 && q > 0 && School(x, y, out, q, |x|, 0)
    ensures out == PMod(PMul(x, y), q)
  {
    hide Cong, Coef, Sum, PMod;
    var n := |x|;
    forall k | 0 <= k < n ensures Cong(out[k], PMul(x, y)[k], q) && 0 <= out[k] < q {
      assert SchoolAt(x, y, out, q, n, 0, k);
      LinIsSum(x, Rev(y, k));
    }
    PModIs(out, PMul(x, y), q);
  }

  /** The pair (a, b) is added at a + b, or subtracted at a + b - N. */
  lemma SchoolPair(x: Poly, y: Poly, mid: seq<int>, out: seq<int>, q: int, a: nat, b: nat, prod: int, k: nat)
    requires |x| == |y| == |mid| == |out| > 0 && a < |x| && b < |x|
    requires School(x, y, mid, q, a, b) && Cong(prod, x[a] * y[b], q)
    requires k == if a + b < |x| then a + b else a + b - |x|
    requires forall c :: 0 <= c < |x| && c != k ==> out[c] == mid[c]
    requires 0 <= out[k] < q && Cong(out[k], if a + b < |x| then mid[k] + prod else mid[k] - prod, q)
    ensures School(x, y, out, q, a, b + 1)
  {
    hide Cong, LinTerm, Sum;
    var next := b + 1;
    forall c | 0 <= c < |x| ensures SchoolAt(x, y, out, q, a, next, c) {
      assert SchoolAt(x, y, mid, q, a, b, c);
      if c == k {
        PairTermAt(x, y, a, b, k);
        var s := Sum(a, LinTerm(x, Rev(y, k)));
        PairValue(mid[k], s, prod, x[a] * y[b], out[k], a + b < |x|, q);
      }
    }
  }

  lemma PairValue(m: int, s: int, prod: int, xy: int, v: int, plus: bool, q: int)
    requires Cong(m, s + 0, q) && Cong(prod, xy, q) && Cong(v, if plus then m + prod else m - prod, q)
    ensures Cong(v, s + if plus then xy else -xy, q)
  {
    CongAdd(m, s, prod, xy, q);
    CongSub(m, s, prod, xy, q);
    CongTrans(v, if plus then m + prod else m - prod, s + if plus then xy else -xy, q);
  }

  lemma PairTermAt(x: Poly, y: Poly, a: nat, b: nat, k: nat)
    requires |x| == |y| && a < |x| && b < |x|
    requires k == if a + b < |x| then a + b else a + b - |x|
    ensures LinTerm(x, Rev(y, k))(a) == if a + b < |x| then x[a] * y[b] else -(x[a] * y[b])
  {
    hide Coef;
    CoefAt(x, a);
    CoefAt(y, b);
    if a + b < |x| {
      assert k - a == b;
    } else {
      CoefAnti(y, k - a);
      assert k - a + |y| == b;
      assert x[a] * -y[b] == -(x[a] * y[b]);
    }
  }

  /** What the scatter loop of one component has written after `i` monomials. */
  ghost predicate Scattered(c: Poly, out: seq<int>, k: nat, q: int, i: nat)
    requires |c| == |out| > 0
  {
    forall p :: 0 <= p < i && p < |c| ==> ScatteredAt(c, out, k, q, p)
  }

  ghost predicate ScatteredAt(c: Poly, out: seq<int>, k: nat, q: int, p: nat)
    requires |c| == |out| > 0 && p < |c|
  {
    && 0 <= out[Pos(|c|, k * p)] < q
    && Cong(out[Pos(|c|, k * p)], Sgn(|c|, k * p) * c[p], q)
  }

  lemma ScatterStep(c: Poly, mid: seq<int>, out: seq<int>, k: nat, u: int, q: int, i: nat, v: int)
    requires |c| == |mid| == |out| && i < |c| && Unit(k, u, |c|)
    requires Scattered(c, mid, k, q, i) && out == mid[Pos(|c|, k * i) := v]
    requires 0 <= v < q && Cong(v, Sgn(|c|, k * i) * c[i], q)
    ensures Scattered(c, out, k, q, i + 1)
  {
    hide Pos, Sgn, Cong, Unit;
    forall p | 0 <= p < i + 1
      ensures ScatteredAt(c, out, k, q, p)
    {
      if p < i {
        assert ScatteredAt(c, mid, k, q, p);
        if Pos(|c|, k * p) == Pos(|c|, k * i) {
          PosInjective(|c|, k, u, p, i);
        }
      }
    }
  }

  lemma ScatterDone(c: Poly, out: seq<int>, k: nat, u: int, q: int)
    requires |c| == |out| > 0 && Unit(k, u, |c|) && q > 0 && Scattered(c, out, k, q, |c|)
    ensures out == PMod(PSubst(c, k), q)
  {
    hide Pos, Sgn, Cong, Unit, PSubst, PMod;
    forall m | 0 <= m < |c|
      ensures 0 <= out[m] < q && Cong(out[m], PSubst(c, k)[m], q)
    {
      SourceCorrect(|c|, k, u, m);
      var i := Source(|c|, u, m);
      assert ScatteredAt(c, out, k, q, i);
      SubstScatter(c, k, u, i);
    }
    PModIs(out, PSubst(c, k), q);
  }

  datatype Ring = Ring(degree: nat, moduli: seq<Modulus>,
                       reducers: seq<Option<Barrett.BarrettReducer>>, tables: seq<Option<NttTables.NttTable>>)
  {
    ghost predicate Valid() {
      && 0 < 2 * degree < TWO_64 && (exists l: nat :: degree == TwoTo(l))
      && |moduli| > 0 && |reducers| == |moduli| && |tables| == |moduli|
      && (forall j :: 0 <= j < |moduli| ==>
            && (reducers[j].Some? ==> reducers[j].value.Valid() && reducers[j].value.modulus == moduli[j])
            && (tables[j].Some? ==> tables[j].value.Valid() && tables[j].value.degree == degree
                                    && tables[j].value.modulus == moduli[j]))
    }

    /** The transforms are only used modulo primes. */
    ghost predicate Sound() {
      Valid() && forall j :: 0 <= j < |moduli| && tables[j].Some? ==> IsPrime(moduli[j])
    }

    predicate Fits(x: seq<seq<int>>) {
      |x| == |moduli| && forall j :: 0 <= j < |x| ==> |x[j]| == degree
    }

    function Zero(): (r: RnsPoly)
      ensures Fits(r) && forall j :: 0 <= j < |r| ==> r[j] == PZero(degree)
    {
      seq(|moduli|, _ => PZero(degree))
    }

    method MulResidue(j: nat, a: u64, b: u64) returns (r: u64)
      requires Valid() && j < |moduli|
      ensures r == a * b % moduli[j] && r < moduli[j] && Cong(r, a * b, moduli[j])
    {
      hide TwoTo;
      var q := moduli[j];
      ModCong(a * b, q);
      DivModId(a * b, q);
      if reducers[j].Some? && a < q && b < q {
        Ntt.ReducedProduct(a, b, q);
        r := Barrett.Reduce(reducers[j].value, a * b);
      } else {
        r := MulMod(a, b, q);
      }
    }

    // ------------------------------------------------------ in-place operations

    method AddAssign(lhs: PolyBuffer, rhs: RnsPoly) returns (r: Result<()>)
      requires Valid()
      modifies lhs
      ensures r.Ok? <==> Fits(old(lhs.coeffs)) && Fits(rhs)
      ensures r.Ok? ==> lhs.coeffs == RAdd(old(lhs.coeffs), rhs, moduli)
      ensures r.Err? ==> lhs.coeffs == old(lhs.coeffs) && r.error == DimensionMismatch
    {
      hide TwoTo, NttTables.NttTable.Valid, Barrett.BarrettReducer.Valid, PMod, Reduced, Cong;
      if !Fits(lhs.coeffs) || !Fits(rhs) {
        return Err(DimensionMismatch);
      }
      ghost var x, target := lhs.coeffs, RAdd(lhs.coeffs, rhs, moduli);
      ProgressStart(x, target);
      for j := 0 to |moduli|
        invariant Progress(x, lhs.coeffs, target, j, 0)
      {
        var q := moduli[j];
        for i := 0 to degree
          invariant Progress(x, lhs.coeffs, target, j, i)
        {
          var v := AddMod(lhs.coeffs[j][i], rhs[j][i], q);
          SumEntry(x, rhs, moduli, j, i, v);
          ProgressEntry(x, lhs.coeffs, target, j, i, v);
          lhs.coeffs := SetEntry(lhs.coeffs, j, i, v);
        }
        ProgressRow(x, lhs.coeffs, target, j, degree);
      }
      ProgressDone(x, lhs.coeffs, target);
      return Ok(());
    }

    /** `sub_mod` relies on a reduced subtrahend; the result is reduced when the minuend is. */
    method SubAssign(lhs: PolyBuffer, rhs: RnsPoly) returns (r: Result<()>)
      requires Valid()
      requires Fits(lhs.coeffs) && Fits(rhs) ==> Reduced(rhs, moduli)
      modifies lhs
      ensures r.Ok? <==> Fits(old(lhs.coeffs)) && Fits(rhs)
      ensures r.Ok? ==> lhs.coeffs == Differences(old(lhs.coeffs), rhs, moduli)
      ensures r.Ok? && Reduced(old(lhs.coeffs), moduli) ==> lhs.coeffs == RSub(old(lhs.coeffs), rhs, moduli)
      ensures r.Err? ==> lhs.coeffs == old(lhs.coeffs) && r.error == DimensionMismatch
    {
      hide TwoTo, NttTables.NttTable.Valid, Barrett.BarrettReducer.Valid, PMod, Reduced, Cong;
      if !Fits(lhs.coeffs) || !Fits(rhs) {
        return Err(DimensionMismatch);
      }
      ghost var x, target := lhs.coeffs, Differences(lhs.coeffs, rhs, moduli);
      ProgressStart(x, target);
      for j := 0 to |moduli|
        invariant Progress(x, lhs.coeffs, target, j, 0)
      {
        var q := moduli[j];
        for i := 0 to degree
          invariant Progress(x, lhs.coeffs, target, j, i)
        {
          ReducedEntry(rhs, moduli, j, i);
          var v := SubMod(lhs.coeffs[j][i], rhs[j][i], q);
          ProgressEntry(x, lhs.coeffs, target, j, i, v);
          lhs.coeffs := SetEntry(lhs.coeffs, j, i, v);
        }
        ProgressRow(x, lhs.coeffs, target, j, degree);
      }
      ProgressDone(x, lhs.coeffs, target);
      if Reduced(x, moduli) {
        DifferencesReduced(x, rhs, moduli);
      }
      return Ok(());
    }

    method NegAssign(poly: PolyBuffer) returns (r: Result<()>)
      requires Valid()
      requires Fits(poly.coeffs) ==> Reduced(poly.coeffs, moduli)
      modifies poly
      ensures r.Ok? <==> Fits(old(poly.coeffs))
      ensures r.Ok? ==> poly.coeffs == RNeg(old(poly.coeffs), moduli)
      ensures r.Err? ==> poly.coeffs == old(poly.coeffs) && r.error == DimensionMismatch
    {
      hide TwoTo, NttTables.NttTable.Valid, Barrett.BarrettReducer.Valid, PMod, Reduced, Cong;
      if !Fits(poly.coeffs) {
        return Err(DimensionMismatch);
      }
      ghost var x, target := poly.coeffs, RNeg(poly.coeffs, moduli);
      ProgressStart(x, target);
      for j := 0 to |moduli|
        invariant Progress(x, poly.coeffs, target, j, 0)
      {
        var q := moduli[j];
        for i := 0 to degree
          invariant Progress(x, poly.coeffs, target, j, i)
        {
          ReducedEntry(x, moduli, j, i);
          var v := NegMod(poly.coeffs[j][i], q);
          NegationEntry(x, moduli, j, i, v);
          ProgressEntry(x, poly.coeffs, target, j, i, v);
          poly.coeffs := SetEntry(poly.coeffs, j, i, v);
        }
        ProgressRow(x, poly.coeffs, target, j, degree);
      }
      ProgressDone(x, poly.coeffs, target);
      return Ok(());
    }

    method ScalarMulAssign(poly: PolyBuffer, scalar: u64) returns (r: Result<()>)
      requires Valid()
      modifies poly
      ensures r.Ok? <==> Fits(old(poly.coeffs))
      ensures r.Ok? ==> poly.coeffs == RScale(scalar, old(poly.coeffs), moduli)
      ensures r.Err? ==> poly.coeffs == old(poly.coeffs) && r.error == DimensionMismatch
    {
      hide TwoTo, NttTables.NttTable.Valid, Barrett.BarrettReducer.Valid, PMod, Reduced, Cong;
      if !Fits(poly.coeffs) {
        return Err(DimensionMismatch);
      }
      ghost var x, target := poly.coeffs, RScale(scalar, poly.coeffs, moduli);
      ProgressStart(x, target);
      for j := 0 to |moduli|
        invariant Progress(x, poly.coeffs, target, j, 0)
      {
        var q := moduli[j];
        DivModId(scalar, q);
        var s: u64 := scalar % q;
        for i := 0 to degree
          invariant Progress(x, poly.coeffs, target, j, i)
        {
          var v := MulResidue(j, poly.coeffs[j][i], s);
          ScaledEntry(x, moduli, scalar, j, i, s, v);
          ProgressEntry(x, poly.coeffs, target, j, i, v);
          poly.coeffs := SetEntry(poly.coeffs, j, i, v);
        }
        ProgressRow(x, poly.coeffs, target, j, degree);
      }
      ProgressDone(x, poly.coeffs, target);
      return Ok(());
    }

    // ------------------------------------------------------------ pure wrappers

    method Add(lhs: RnsPoly, rhs: RnsPoly) returns (r: Result<RnsPoly>)
      requires Valid()
      ensures r.Ok? <==> Fits(lhs) && Fits(rhs)
      ensures r.Ok? ==> Fits(r.value) && r.value == RAdd(lhs, rhs, moduli)
      ensures r.Err? ==> r.error == DimensionMismatch
    {
      var out := new PolyBuffer(lhs);
      var done :- AddAssign(out, rhs);
      return Ok(out.coeffs);
    }

    method Sub(lhs: RnsPoly, rhs: RnsPoly) returns (r: Result<RnsPoly>)
      requires Valid()
      requires Fits(lhs) && Fits(rhs) ==> Reduced(lhs, moduli) && Reduced(rhs, moduli)
      ensures r.Ok? <==> Fits(lhs) && Fits(rhs)
      ensures r.Ok? ==> Fits(r.value) && r.value == RSub(lhs, rhs, moduli)
      ensures r.Err? ==> r.error == DimensionMismatch
    {
      var out := new PolyBuffer(lhs);
      var done :- SubAssign(out, rhs);
      return Ok(out.coeffs);
    }

    method Neg(poly: RnsPoly) returns (r: Result<RnsPoly>)
      requires Valid() && (Fits(poly) ==> Reduced(poly, moduli))
      ensures r.Ok? <==> Fits(poly)
      ensures r.Ok? ==> Fits(r.value) && r.value == RNeg(poly, moduli)
      ensures r.Err? ==> r.error == DimensionMismatch
    {
      var out := new PolyBuffer(poly);
      var done :- NegAssign(out);
      return Ok(out.coeffs);
    }

    method ScalarMul(poly: RnsPoly, scalar: u64) returns (r: Result<RnsPoly>)
      requires Valid()
      ensures r.Ok? <==> Fits(poly)
      ensures r.Ok? ==> Fits(r.value) && r.value == RScale(scalar, poly, moduli)
      ensures r.Err? ==> r.error == DimensionMismatch
    {
      var out := new PolyBuffer(poly);
      var done :- ScalarMulAssign(out, scalar);
      return Ok(out.coeffs);
    }

    // ----------------------------------------------------------- multiplication

    /** All pairs, accumulated into a zeroed component. */
    method SchoolbookMulComponent(j: nat, lhs: RnsPoly, rhs: RnsPoly, out: array<u64>)
      requires Valid() && j < |moduli| && Fits(lhs) && Fits(rhs)
      requires out.Length == degree && forall i :: 0 <= i < degree ==> out[i] == 0
      modifies out
      ensures out[..] == PMod(PMul(lhs[j], rhs[j]), moduli[j])
    {
      hide TwoTo, School, Cong, PMod, PMul, NttTables.NttTable.Valid, Barrett.BarrettReducer.Valid;
      var n, q := degree, moduli[j];
      SchoolStart(lhs[j], rhs[j], out[..], q);
      for a := 0 to n
        invariant School(lhs[j], rhs[j], out[..], q, a, 0)
      {
        for b := 0 to n
          invariant School(lhs[j], rhs[j], out[..], q, a, b)
        {
          ghost var mid := out[..];
          var prod := MulResidue(j, lhs[j][a], rhs[j][b]);
          var idx := a + b;
          if idx < n {
            out[idx] := AddMod(out[idx], prod, q);
          } else {
            idx := idx - n;
            SchoolBelow(lhs[j], rhs[j], mid, q, a, b, idx);
            out[idx] := SubMod(out[idx], prod, q);
          }
          SchoolPair(lhs[j], rhs[j], mid, out[..], q, a, b, prod, idx);
        }
        SchoolRow(lhs[j], rhs[j], out[..], q, a);
      }
      SchoolDone(lhs[j], rhs[j], out[..], q);
    }

    /** One component through the transform: forward, multiply values, back. */
    method NttMulComponent(j: nat, lhs: seq<u64>, rhs: seq<u64>, a: array<u64>, scratch: array<u64>)
      requires Sound() && j < |moduli| && tables[j].Some?
      requires |lhs| == |rhs| == degree == a.Length == scratch.Length && a != scratch
      modifies a, scratch
      ensures a[..] == PMod(PMul(lhs, rhs), moduli[j])
    {
      hide TwoTo, PMod, PMul, NttTables.NttTable.Valid, Barrett.BarrettReducer.Valid, Cong, IsForward, IsInverse,
        Ntt.AllBelow;
      var table := tables[j].value;
      ForwardComponentInto(lhs, table, a);
      ForwardComponentInto(rhs, table, scratch);
      ghost var u: Poly, v: Poly := a[..], scratch[..];
      for i := 0 to degree
        invariant scratch[..] == v
        invariant forall p :: 0 <= p < i ==> Cong(a[p], u[p] * v[p], moduli[j])
        invariant forall p :: i <= p < degree ==> a[p] == u[p]
      {
        a[i] := MulResidue(j, a[i], scratch[i]);
      }
      ghost var w := a[..];
      InverseTransformInPlace(a, table);
      TransformedProduct(table, lhs, rhs, u, v, w, a[..]);
    }

    method CoeffwiseMul(lhs: RnsPoly, rhs: RnsPoly) returns (r: Result<RnsPoly>)
      requires Valid()
      ensures r.Ok? <==> Fits(lhs) && Fits(rhs)
      ensures r.Ok? ==> Fits(r.value) && forall j, i :: 0 <= j < |moduli| && 0 <= i < degree ==>
                          r.value[j][i] == RemainderOfProduct(lhs[j][i], rhs[j][i], moduli[j])
      ensures r.Err? ==> r.error == DimensionMismatch
    {
      hide TwoTo, NttTables.NttTable.Valid, Barrett.BarrettReducer.Valid;
      if !Fits(lhs) || !Fits(rhs) {
        return Err(DimensionMismatch);
      }
      var out := Zero();
      for j := 0 to |moduli|
        invariant Fits(out)
        invariant forall k, i :: 0 <= k < j && 0 <= i < degree ==>
                    out[k][i] == RemainderOfProduct(lhs[k][i], rhs[k][i], moduli[k])
      {
        for i := 0 to degree
          invariant Fits(out)
          invariant forall k, c :: 0 <= k < j && 0 <= c < degree ==>
                      out[k][c] == RemainderOfProduct(lhs[k][c], rhs[k][c], moduli[k])
          invariant forall c :: 0 <= c < i ==> out[j][c] == RemainderOfProduct(lhs[j][c], rhs[j][c], moduli[j])
        {
          var v := MulResidue(j, lhs[j][i], rhs[j][i]);
          out := SetEntry(out, j, i, v);
        }
      }
      return Ok(out);
    }

    /** Negacyclic multiplication: the transform where a table exists, all pairs elsewhere. */
    method Mul(lhs: RnsPoly, rhs: RnsPoly) returns (r: Result<RnsPoly>)
      requires Sound()
      ensures r.Ok? <==> Fits(lhs) && Fits(rhs)
      ensures r.Ok? ==> Fits(r.value) && r.value == RMul(lhs, rhs, moduli)
      ensures r.Err? ==> r.error == DimensionMismatch
    {
      hide TwoTo, PMod, PMul, NttTables.NttTable.Valid, Barrett.BarrettReducer.Valid, IsPrime;
      if !Fits(lhs) || !Fits(rhs) {
        return Err(DimensionMismatch);
      }
      var out := Zero();
      var scratch := new u64[degree](_ => 0);
      for j := 0 to |moduli|
        invariant Fits(out)
        invariant forall k :: 0 <= k < j ==> out[k] == PMod(PMul(lhs[k], rhs[k]), moduli[k])
      {
        var a := new u64[degree](_ => 0);
        if tables[j].Some? {
          NttMulComponent(j, lhs[j], rhs[j], a, scratch);
        } else {
          SchoolbookMulComponent(j, lhs, rhs, a);
        }
        out := out[j := a[..]];
      }
      return Ok(out);
    }

    method SchoolbookMul(lhs: RnsPoly, rhs: RnsPoly) returns (r: Result<RnsPoly>)
      requires Valid()
      ensures r.Ok? <==> Fits(lhs) && Fits(rhs)
      ensures r.Ok? ==> Fits(r.value) && r.value == RMul(lhs, rhs, moduli)
      ensures r.Err? ==> r.error == DimensionMismatch
    {
      hide TwoTo, PMod, PMul, NttTables.NttTable.Valid, Barrett.BarrettReducer.Valid;
      if !Fits(lhs) || !Fits(rhs) {
        return Err(DimensionMismatch);
      }
      var out := Zero();
      for j := 0 to |moduli|
        invariant Fits(out)
        invariant forall k :: 0 <= k < j ==> out[k] == PMod(PMul(lhs[k], rhs[k]), moduli[k])
      {
        var a := new u64[degree](_ => 0);
        SchoolbookMulComponent(j, lhs, rhs, a);
        out := out[j := a[..]];
      }
      return Ok(out);
    }

    // -------------------------------------------------------------- automorphisms

    /** Scatters one component: monomial `i` goes to `i k mod 2N`, folded. */
    method ScatterComponent(c: seq<u64>, k: nat, q: u64, out: array<u64>, ghost u: int)
      requires |c| == degree == out.Length > 0 && q > 1 && Below(c, q) && Unit(k, u, degree)
      modifies out
      ensures out[..] == PMod(PSubst(c, k), q)
    {
      hide PMod, PSubst, Cong, Unit;
      var n, twoN := degree, 2 * degree;
      for i := 0 to n
        invariant Scattered(c, out[..], k, q, i)
      {
        ghost var mid := out[..];
        IntMulComm(i, k);
        DivModId(i * k, twoN);
        var m := i * k % twoN;
        assert Sgn(n, k * i) == if m < n then 1 else -1;
        assert Pos(n, k * i) == if m < n then m else m - n;
        CongRefl(c[i], q);
        if m < n {
          out[m] := c[i];
        } else {
          out[m - n] := NegMod(c[i], q);
        }
        ScatterStep(c, mid, out[..], k, u, q, i, out[Pos(n, k * i)]);
      }
      ScatterDone(c, out[..], k, u, q);
    }

    /** sigma_k: X -> X^k.  For the power-of-two degrees a ring can have, exactly the odd `k` are accepted. */
    method ApplyAutomorphism(poly: RnsPoly, k: nat) returns (r: Result<RnsPoly>)
      requires Valid() && (Fits(poly) ==> Reduced(poly, moduli))
      ensures r.Ok? <==> Fits(poly) && k % 2 == 1
      ensures r.Ok? ==> Fits(r.value) && r.value == RAut(poly, k, moduli)
      ensures r.Err? ==> r.error == if Fits(poly) then InvalidAutomorphismElement else DimensionMismatch
    {
      hide TwoTo, PMod, PSubst, NttTables.NttTable.Valid, Barrett.BarrettReducer.Valid, Unit;
      if !Fits(poly) {
        return Err(DimensionMismatch);
      }
      var n := degree;
      var twoN := 2 * n;
      ghost var l: nat :| n == TwoTo(l);
      OddIsCoprime(k, l);
      DivModId(k, twoN);
      if k % 2 == 0 || Gcd(k % twoN, twoN) != 1 {
        return Err(InvalidAutomorphismElement);
      }
      ghost var u := UnitOf(k, n);
      var out := Zero();
      for j := 0 to |moduli|
        invariant Fits(out)
        invariant forall c :: 0 <= c < j ==> out[c] == PMod(PSubst(poly[c], k), moduli[c])
      {
        var a := new u64[n](_ => 0);
        ScatterComponent(poly[j], k, moduli[j], a, u);
        out := out[j := a[..]];
      }
      return Ok(out);
    }
  }

  function RemainderOfProduct(a: int, b: int, q: int): int
    requires q > 0
  {
    a * b % q
  }

  lemma ReducedEntry(x: seq<Poly>, qs: seq<int>, j: nat, i: nat)
    requires Reduced(x, qs) && j < |x| && i < |x[j]|
    ensures 0 <= x[j][i] < qs[j]
  {
    assert Below(x[j], qs[j]);
  }

  lemma SumEntry(x: seq<Poly>, y: seq<Poly>, qs: seq<int>, j: nat, i: nat, v: int)
    requires Moduli(qs) && |x| == |y| == |qs| && forall k :: 0 <= k < |x| ==> |x[k]| == |y[k]|
    requires j < |x| && i < |x[j]| && 0 <= v < qs[j] && Cong(v, x[j][i] + y[j][i], qs[j])
    ensures v == RAdd(x, y, qs)[j][i]
  {
    hide Cong;
    ModIs(x[j][i] + y[j][i], v, qs[j]);
  }

  /** Entry by entry subtraction; an unreduced minuend leaves an unreduced difference. */
  ghost function Differences(x: RnsPoly, y: RnsPoly, qs: seq<Modulus>): (r: RnsPoly)
    requires |x| == |y| == |qs| && Reduced(y, qs) && forall k :: 0 <= k < |x| ==> |x[k]| == |y[k]|
    ensures |r| == |x| && forall j :: 0 <= j < |r| ==> DifferenceRow(r[j], x[j], y[j], qs[j])
  {
    assert forall j :: 0 <= j < |y| ==> Below(y[j], qs[j]);
    seq(|x|, j requires 0 <= j < |x| => seq(|x[j]|, i requires 0 <= i < |x[j]| => SubMod(x[j][i], y[j][i], qs[j])))
  }

  ghost predicate DifferenceRow(r: seq<u64>, x: seq<u64>, y: seq<u64>, q: Modulus) {
    |r| == |x| == |y| && forall i :: 0 <= i < |r| ==> y[i] < q && r[i] == SubMod(x[i], y[i], q)
  }

  /** Reduced operands have the reduced difference. */
  lemma DifferencesReduced(x: RnsPoly, y: RnsPoly, qs: seq<Modulus>)
    requires |x| == |y| == |qs| && Reduced(x, qs) && Reduced(y, qs) && forall k :: 0 <= k < |x| ==> |x[k]| == |y[k]|
    ensures Differences(x, y, qs) == RSub(x, y, qs)
  {
    hide Cong, PMod;
    var l, r := Differences(x, y, qs), RSub(x, y, qs);
    forall j | 0 <= j < |qs| ensures l[j] == r[j] {
      assert DifferenceRow(l[j], x[j], y[j], qs[j]);
      forall i | 0 <= i < |l[j]| ensures l[j][i] == r[j][i] {
        ReducedEntry(x, qs, j, i);
        ReducedEntry(y, qs, j, i);
        DifferenceEntry(x, y, qs, j, i, l[j][i]);
      }
    }
  }

  lemma DifferenceEntry(x: seq<Poly>, y: seq<Poly>, qs: seq<int>, j: nat, i: nat, v: int)
    requires Moduli(qs) && |x| == |y| == |qs| && forall k :: 0 <= k < |x| ==> |x[k]| == |y[k]|
    requires j < |x| && i < |x[j]| && 0 <= v < qs[j] && Cong(v, x[j][i] - y[j][i], qs[j])
    ensures v == RSub(x, y, qs)[j][i]
  {
    hide Cong;
    ModIs(x[j][i] - y[j][i], v, qs[j]);
  }

  lemma NegationEntry(x: seq<Poly>, qs: seq<int>, j: nat, i: nat, v: int)
    requires Moduli(qs) && |x| == |qs|
    requires j < |x| && i < |x[j]| && 0 <= v < qs[j] && Cong(v, 0 - x[j][i], qs[j])
    ensures v == RNeg(x, qs)[j][i]
  {
    hide Cong;
    ModIs(-x[j][i], v, qs[j]);
  }

  lemma ScaledEntry(x: seq<Poly>, qs: seq<int>, scalar: int, j: nat, i: nat, s: int, v: int)
    requires Moduli(qs) && |x| == |qs|
    requires j < |x| && i < |x[j]| && 0 <= v < qs[j] && s == scalar % qs[j] && Cong(v, x[j][i] * s, qs[j])
    ensures v == RScale(scalar, x, qs)[j][i]
  {
    hide Cong;
    var q, c := qs[j], x[j][i];
    ModCong(scalar, q);
    CongRefl(c, q);
    CongMul(c, c, s, scalar, q);
    IntMulComm(c, scalar);
    CongTrans(v, c * s, scalar * c, q);
    ModIs(scalar * c, v, q);
  }

  lemma SchoolBelow(x: Poly, y: Poly, out: seq<int>, q: int, a: nat, b: nat, k: nat)
    requires |x| == |y| == |out| > 0 && k < |out| && School(x, y, out, q, a, b)
    ensures 0 <= out[k] < q
  {
    assert SchoolAt(x, y, out, q, a, b, k);
  }

  method ForwardComponentInto(input: seq<u64>, table: NttTables.NttTable, out: array<u64>)
    requires table.Valid() && IsPrime(table.modulus) && |input| == out.Length == table.degree
    modifies out
    ensures IsForward(input, out[..], table.psi, table.modulus) && Ntt.AllBelow(out[..], table.modulus)
  {
    hide IsPrime, NttTables.HasOrder, IsForward, Ntt.AllBelow;
    forall i | 0 <= i < out.Length {
      out[i] := input[i];
    }
    assert out[..] == input;
    ForwardTransformInPlace(out, table);
  }

  /** The transform branch computes the reduced negacyclic product. */
  lemma TransformedProduct(table: NttTables.NttTable, lhs: Poly, rhs: Poly, u: Poly, v: Poly, w: Poly, c: seq<u64>)
    requires table.Valid() && IsPrime(table.modulus)
    requires |lhs| == |rhs| == |u| == |v| == |w| == |c| == table.degree
    requires IsForward(lhs, u, table.psi, table.modulus) && IsForward(rhs, v, table.psi, table.modulus)
    requires forall k :: 0 <= k < |w| ==> Cong(w[k], u[k] * v[k], table.modulus)
    requires IsInverse(w, c, table.invPsi, table.invDegree, table.modulus) && Ntt.AllBelow(c, table.modulus)
    ensures c == PMod(PMul(lhs, rhs), table.modulus)
  {
    var n, q := table.degree, table.modulus;
    assert n > 0 && q > 0;
    NttTables.TableRoot(table);
    hide NttTables.NttTable.Valid, IsPrime, Cong, IsForward, IsInverse, PMul, PMod;
    ValuesMultiply(lhs, rhs, u, v, w, table.psi, n, q);
    InverseUndoesForward(PMul(lhs, rhs), w, c, table.psi, table.invPsi, table.invDegree, n, q);
    PModIs(c, PMul(lhs, rhs), q);
  }

  /** A ring context over checked moduli; only an empty list of moduli is refused. */
  method New(degree: nat, moduli: seq<Modulus>) returns (r: Result<Ring>)
    requires 0 < 2 * degree < TWO_64 && exists l: nat :: degree == TwoTo(l)
    ensures r.Ok? <==> |moduli| > 0
    ensures r.Ok? ==> r.value.Valid() && r.value.degree == degree && r.value.moduli == moduli
    ensures r.Err? ==> r.error == DimensionMismatch
  {
    hide TwoTo, NttTables.NttTable.Valid, Barrett.BarrettReducer.Valid;
    if |moduli| == 0 {
      return Err(DimensionMismatch);
    }
    var reducers: seq<Option<Barrett.BarrettReducer>> := [];
    var tables: seq<Option<NttTables.NttTable>> := [];
    for j := 0 to |moduli|
      invariant |reducers| == j && |tables| == j
      invariant forall k :: 0 <= k < j && reducers[k].Some? ==>
                  reducers[k].value.Valid() && reducers[k].value.modulus == moduli[k]
      invariant forall k :: 0 <= k < j && tables[k].Some? ==>
                  tables[k].value.Valid() && tables[k].value.degree == degree && tables[k].value.modulus == moduli[k]
    {
      var reducer := Barrett.New(moduli[j]);
      var table := NttTables.New(degree, moduli[j]);
      reducers := reducers + [if reducer.Ok? then Some(reducer.value) else None];
      tables := tables + [if table.Ok? then Some(table.value) else None];
    }
    return Ok(Ring(degree, moduli, reducers, tables));
  }
}
