/** Lagrange interpolation at zero over a prime field, for any number of points. */
module Lagrange {
  import opened Integers
  import opened NumberTheory
  import opened PolySums

  // ------------------------------------------------------------------ polynomials

  /** c_0 + c_1 x + c_2 x^2 + ... */
  ghost function PolyAt(c: seq<int>, x: int): int {
    if |c| == 0 then 0 else c[0] + x * PolyAt(c[1..], x)
  }

  /** The quotient of f(x) - f(z) by x - z. */
  ghost function Deflate(c: seq<int>, z: int): (g: seq<int>)
    ensures |g| == if |c| == 0 then 0 else |c| - 1
  {
    if |c| <= 1 then [] else [PolyAt(c[1..], z)] + Deflate(c[1..], z)
  }

  lemma {:induction false} DeflateCorrect(c: seq<int>, z: int, x: int)
    ensures PolyAt(c, x) == PolyAt(c, z) + (x - z) * PolyAt(Deflate(c, z), x)
  {
    if |c| > 1 {
      DeflateCorrect(c[1..], z, x);
      var h := Deflate(c[1..], z);
      assert ([PolyAt(c[1..], z)] + h)[1..] == h;
      DeflateStep(x, z, PolyAt(c[1..], x), PolyAt(c[1..], z), PolyAt(h, x));
    } else if |c| == 1 {
      assert c[1..] == [];
    }
  }

  lemma DeflateStep(x: int, z: int, hx: int, hz: int, g: int)
    requires hx == hz + (x - z) * g
    ensures x * hx == z * hz + (x - z) * (hz + x * g)
  {
    assert (x - z) * (x * g) == x * ((x - z) * g);
  }

  lemma {:induction false} PolyAtCong(c: seq<int>, x: int, y: int, L: int)
    requires Cong(x, y, L)
    ensures Cong(PolyAt(c, x), PolyAt(c, y), L)
  {
    if |c| == 0 {
      CongRefl(0, L);
    } else {
      PolyAtCong(c[1..], x, y, L);
      CongMul(x, y, PolyAt(c[1..], x), PolyAt(c[1..], y), L);
      CongRefl(c[0], L);
      CongAdd(c[0], c[0], x * PolyAt(c[1..], x), y * PolyAt(c[1..], y), L);
    }
  }

  // ------------------------------------------------------------ products and sums

  /** Product of -y over `ys`. */
  ghost function NegProduct(ys: seq<int>): int {
    if |ys| == 0 then 1 else NegProduct(ys[..|ys| - 1]) * -ys[|ys| - 1]
  }

  /** Product of x - y over `ys`. */
  ghost function DiffProduct(x: int, ys: seq<int>): int {
    if |ys| == 0 then 1 else DiffProduct(x, ys[..|ys| - 1]) * (x - ys[|ys| - 1])
  }

  lemma {:induction false} NegProductWithout(ys: seq<int>, k: nat)
    requires k < |ys|
    ensures NegProduct(ys) == NegProduct(Without(ys, k)) * -ys[k]
  {
    var n := |ys| - 1;
    if k == n {
      assert Without(ys, k) == ys[..n];
    } else {
      NegProductWithout(ys[..n], k);
      var w := Without(ys, k);
      assert w[..|w| - 1] == Without(ys[..n], k) && w[|w| - 1] == ys[n];
      MulSwapLast(NegProduct(Without(ys[..n], k)), -ys[k], -ys[n]);
    }
  }

  lemma {:induction false} DiffProductWithout(x: int, ys: seq<int>, k: nat)
    requires k < |ys|
    ensures DiffProduct(x, ys) == DiffProduct(x, Without(ys, k)) * (x - ys[k])
  {
    var n := |ys| - 1;
    if k == n {
      assert Without(ys, k) == ys[..n];
    } else {
      DiffProductWithout(x, ys[..n], k);
      var w := Without(ys, k);
      assert w[..|w| - 1] == Without(ys[..n], k) && w[|w| - 1] == ys[n];
      MulSwapLast(DiffProduct(x, Without(ys[..n], k)), x - ys[k], x - ys[n]);
    }
  }

  lemma {:induction false} DiffProductInvertible(x: int, ys: seq<int>, L: int)
    requires IsPrime(L) && forall j :: 0 <= j < |ys| ==> !Cong(x, ys[j], L)
    ensures !Divides(L, DiffProduct(x, ys))
  {
    hide IsPrime;
    var n := |ys| - 1;
    if |ys| == 0 {
      PrimeIsLarge(L);
      SmallNotDivisible(L, 1);
    } else {
      DiffProductInvertible(x, ys[..n], L);
      assert !Cong(x, ys[n], L);
      if Divides(L, DiffProduct(x, ys)) {
        PrimeDivides(L, DiffProduct(x, ys[..n]), x - ys[n]);
      }
    }
  }

  lemma PrimeIsLarge(L: int)
    requires IsPrime(L)
    ensures L >= 2
  {}

  lemma {:induction false} SumOfWithout(bs: seq<int>, r: nat)
    requires r < |bs|
    ensures SumOf(bs) == SumOf(Without(bs, r)) + bs[r]
  {
    var n := |bs| - 1;
    if r == n {
      assert Without(bs, r) == bs[..n];
    } else {
      SumOfWithout(bs[..n], r);
      var w := Without(bs, r);
      assert w[..|w| - 1] == Without(bs[..n], r) && w[|w| - 1] == bs[n];
    }
  }

  lemma {:induction false} SumOfCong(bs: seq<int>, cs: seq<int>, k: int, L: int)
    requires |bs| == |cs| && forall i :: 0 <= i < |bs| ==> Cong(bs[i], k * cs[i], L)
    ensures Cong(SumOf(bs), k * SumOf(cs), L)
  {
    if |bs| == 0 {
      CongRefl(0, L);
    } else {
      var n := |bs| - 1;
      SumOfCong(bs[..n], cs[..n], k, L);
      CongAdd(SumOf(bs[..n]), k * SumOf(cs[..n]), bs[n], k * cs[n], L);
      assert k * (SumOf(cs[..n]) + cs[n]) == k * SumOf(cs[..n]) + k * cs[n];
    }
  }

  // --------------------------------------------------------- Lagrange coefficients

  ghost predicate DistinctPoints(xs: seq<int>, L: int) {
    forall i, j :: 0 <= i < |xs| && 0 <= j < |xs| && i != j ==> !Cong(xs[i], xs[j], L)
  }

  /** prod_{j != i} (-x_j) / (x_i - x_j) modulo L. */
  ghost function Coefficient(xs: seq<int>, i: nat, L: int): (r: int)
    requires i < |xs| && L >= 2
    ensures 0 <= r < L
  {
    var w := Without(xs, i);
    DivModId(NegProduct(w) * Inverse(DiffProduct(xs[i], w), L), L);
    NegProduct(w) * Inverse(DiffProduct(xs[i], w), L) % L
  }

  /** The coefficient times its denominator is its numerator. */
  lemma CoefficientIdentity(xs: seq<int>, i: nat, L: int)
    requires IsPrime(L) && i < |xs| && DistinctPoints(xs, L)
    ensures L >= 2 && !Divides(L, DiffProduct(xs[i], Without(xs, i)))
    ensures Cong(Coefficient(xs, i, L) * DiffProduct(xs[i], Without(xs, i)), NegProduct(Without(xs, i)), L)
  {
    var w := Without(xs, i);
    forall j | 0 <= j < |w| ensures !Cong(xs[i], w[j], L) {
      assert w[j] == if j < i then xs[j] else xs[j + 1];
    }
    hide IsPrime, Inverse;
    DiffProductInvertible(xs[i], w, L);
    PrimeIsLarge(L);
    var n, d := NegProduct(w), DiffProduct(xs[i], w);
    InverseCorrect(d, L);
    ModCong(n * Inverse(d, L), L);
    QuotientTimes(n, d, Inverse(d, L), Coefficient(xs, i, L), L);
  }

  lemma QuotientTimes(n: int, d: int, inv: int, c: int, L: int)
    requires Cong(c, n * inv, L) && Cong(d * inv, 1, L)
    ensures Cong(c * d, n, L)
  {
    CongRefl(d, L);
    CongMul(c, n * inv, d, d, L);
    CongRefl(n, L);
    CongMul(n, n, d * inv, 1, L);
    assert n * inv * d == n * (d * inv);
    CongTrans(c * d, n * (d * inv), n, L);
  }

  /** The index of point `i` once point `r` is removed. */
  function Shifted(i: nat, r: nat): (k: int) {
    if i < r then i else i - 1
  }

  lemma WithoutBoth(xs: seq<int>, i: nat, r: nat)
    requires i < |xs| && r < |xs| && i != r
    ensures 0 <= Shifted(i, r) < |Without(xs, r)| && 0 <= Shifted(r, i) < |Without(xs, i)|
    ensures Without(xs, i)[Shifted(r, i)] == xs[r] && Without(xs, r)[Shifted(i, r)] == xs[i]
    ensures Without(Without(xs, i), Shifted(r, i)) == Without(Without(xs, r), Shifted(i, r))
  {
    assert |Without(xs, i)| == |xs| - 1 && |Without(xs, r)| == |xs| - 1;
    var l, m := Without(Without(xs, i), Shifted(r, i)), Without(Without(xs, r), Shifted(i, r));
    assert |l| == |m|;
    forall k | 0 <= k < |l| ensures l[k] == m[k] {
      assert l[k] == Without(xs, i)[if k < Shifted(r, i) then k else k + 1];
      assert m[k] == Without(xs, r)[if k < Shifted(i, r) then k else k + 1];
    }
  }

  lemma WithoutDistinct(xs: seq<int>, r: nat, L: int)
    requires r < |xs| && DistinctPoints(xs, L)
    ensures |Without(xs, r)| == |xs| - 1 && DistinctPoints(Without(xs, r), L)
  {
    hide Cong;
    var w := Without(xs, r);
    forall i, j | 0 <= i < |w| && 0 <= j < |w| && i != j ensures !Cong(w[i], w[j], L) {
      var a, b := if i < r then i else i + 1, if j < r then j else j + 1;
      assert w[i] == xs[a] && w[j] == xs[b];
    }
  }

  /** Removing the point z: coefficient times (x_i - z) is -z times the smaller set's coefficient. */
  lemma CoefficientRemove(xs: seq<int>, i: nat, r: nat, L: int)
    requires IsPrime(L) && i < |xs| && r < |xs| && i != r && DistinctPoints(xs, L)
    ensures L >= 2 && 0 <= Shifted(i, r) < |Without(xs, r)|
    ensures Cong(Coefficient(xs, i, L) * (xs[i] - xs[r]), -xs[r] * Coefficient(Without(xs, r), Shifted(i, r), L), L)
  {
    hide IsPrime, Coefficient, Without, Cong;
    var ys, k := Without(xs, r), Shifted(i, r);
    WithoutBoth(xs, i, r);
    WithoutDistinct(xs, r, L);
    CoefficientIdentity(xs, i, L);
    CoefficientIdentity(ys, k, L);
    NegProductWithout(Without(xs, i), Shifted(r, i));
    DiffProductWithout(xs[i], Without(xs, i), Shifted(r, i));
    var w := Without(ys, k);
    RemoveArith(Coefficient(xs, i, L), Coefficient(ys, k, L), DiffProduct(xs[i], w), NegProduct(w), xs[i] - xs[r],
                -xs[r], L);
  }

  lemma RemoveArith(c: int, c': int, d: int, n: int, e: int, z: int, L: int)
    requires IsPrime(L) && !Divides(L, d)
    requires Cong(c * (d * e), n * z, L) && Cong(c' * d, n, L)
    ensures Cong(c * e, z * c', L)
  {
    hide IsPrime;
    CongRefl(z, L);
    CongMul(c' * d, n, z, z, L);
    CongSym(c' * d * z, n * z, L);
    CongTrans(c * (d * e), n * z, c' * d * z, L);
    assert c * (d * e) == d * (c * e) && c' * d * z == d * (z * c');
    CancelPrime(L, d, c * e, z * c');
  }

  // --------------------------------------------------------------- interpolation

  /** Coefficient times value, point by point. */
  ghost function Terms(xs: seq<int>, fs: seq<int>, L: int): (ts: seq<int>)
    requires |xs| == |fs| && L >= 2
    ensures |ts| == |xs|
  {
    seq(|xs|, i requires 0 <= i < |xs| => Coefficient(xs, i, L) * fs[i])
  }

  /** sum lambda_i f_i. */
  ghost function Weigh(xs: seq<int>, fs: seq<int>, L: int): int
    requires |xs| == |fs| && L >= 2
  {
    SumOf(Terms(xs, fs, L))
  }

  lemma RemovePoint(xs: seq<int>, fs: seq<int>, gs: seq<int>, r: nat, L: int)
    requires IsPrime(L) && L >= 2 && r < |xs| && |fs| == |xs| && |gs| == |xs| - 1 && DistinctPoints(xs, L)
    requires fs[r] == 0
    requires forall i: nat :: i < |xs| && i != r ==> fs[i] == (xs[i] - xs[r]) * gs[Shifted(i, r)]
    ensures |Without(xs, r)| == |gs|
    ensures Cong(Weigh(xs, fs, L), -xs[r] * Weigh(Without(xs, r), gs, L), L)
  {
    hide IsPrime, Coefficient, Cong;
    var ts, us := Terms(xs, fs, L), Terms(Without(xs, r), gs, L);
    SumOfWithout(ts, r);
    assert ts[r] == Coefficient(xs, r, L) * 0;
    var w := Without(ts, r);
    forall k | 0 <= k < |w| ensures Cong(w[k], -xs[r] * us[k], L) {
      var i := if k < r then k else k + 1;
      assert Shifted(i, r) == k && w[k] == ts[i];
      CoefficientRemove(xs, i, r, L);
      CongRefl(gs[k], L);
      CongMul(Coefficient(xs, i, L) * (xs[i] - xs[r]), -xs[r] * Coefficient(Without(xs, r), k, L), gs[k], gs[k], L);
      TermArith(Coefficient(xs, i, L), xs[i] - xs[r], gs[k], -xs[r], Coefficient(Without(xs, r), k, L));
    }
    SumOfCong(w, us, -xs[r], L);
  }

  lemma TermArith(c: int, d: int, g: int, z: int, c': int)
    ensures c * d * g == c * (d * g) && z * c' * g == z * (c' * g)
  {}

  /** fs + k gs, point by point. */
  ghost function Combine(fs: seq<int>, k: int, gs: seq<int>): (hs: seq<int>)
    requires |fs| == |gs|
    ensures |hs| == |fs|
  {
    seq(|fs|, i requires 0 <= i < |fs| => fs[i] + k * gs[i])
  }

  lemma {:induction false} SumOfCombine(fs: seq<int>, k: int, gs: seq<int>, hs: seq<int>)
    requires |fs| == |gs| == |hs| && forall i :: 0 <= i < |hs| ==> hs[i] == fs[i] + k * gs[i]
    ensures SumOf(hs) == SumOf(fs) + k * SumOf(gs)
  {
    if |fs| > 0 {
      var n := |fs| - 1;
      SumOfCombine(fs[..n], k, gs[..n], hs[..n]);
      assert k * (SumOf(gs[..n]) + gs[n]) == k * SumOf(gs[..n]) + k * gs[n];
    }
  }

  lemma TermsCombine(xs: seq<int>, fs: seq<int>, k: int, gs: seq<int>, L: int)
    requires |xs| == |fs| == |gs| && L >= 2
    ensures Weigh(xs, Combine(fs, k, gs), L) == Weigh(xs, fs, L) + k * Weigh(xs, gs, L)
  {
    hide Coefficient;
    var hs := Terms(xs, Combine(fs, k, gs), L);
    forall i | 0 <= i < |xs| ensures hs[i] == Terms(xs, fs, L)[i] + k * Terms(xs, gs, L)[i] {
      CombineArith(Coefficient(xs, i, L), fs[i], k, gs[i]);
    }
    SumOfCombine(Terms(xs, fs, L), k, Terms(xs, gs, L), hs);
  }

  lemma CombineArith(c: int, f: int, k: int, g: int)
    ensures c * (f + k * g) == c * f + k * (c * g)
  {
    assert c * (k * g) == k * (c * g);
  }

  ghost function Ones(n: nat): (r: seq<int>)
    ensures |r| == n && forall i :: 0 <= i < n ==> r[i] == 1
  {
    seq(n, _ => 1)
  }

  lemma SinglePoint(xs: seq<int>, fs: seq<int>, L: int)
    requires IsPrime(L) && L >= 2 && |xs| == 1 && |fs| == 1
    ensures Cong(Weigh(xs, fs, L), fs[0], L)
  {
    var w := Without(xs, 0);
    assert w == [];
    hide IsPrime;
    SmallNotDivisible(L, 1);
    InverseCorrect(1, L);
    var ts := Terms(xs, fs, L);
    assert ts[..0] == [];
    assert SumOf(ts) == SumOf(ts[..0]) + ts[0];
    var c := Coefficient(xs, 0, L);
    ModCong(1 * Inverse(1, L), L);
    CongTrans(c, 1 * Inverse(1, L), 1, L);
    CongRefl(fs[0], L);
    CongMul(c, 1, fs[0], fs[0], L);
  }

  /** The coefficients sum to 1. */
  lemma {:induction false} CoefficientsSumToOne(xs: seq<int>, L: int)
    requires IsPrime(L) && L >= 2 && |xs| > 0 && DistinctPoints(xs, L)
    ensures Cong(Weigh(xs, Ones(|xs|), L), 1, L)
    decreases |xs|
  {
    hide Weigh, IsPrime, Cong, DistinctPoints, Without;
    var m := |xs|;
    if m == 1 {
      SinglePoint(xs, Ones(1), L);
    } else {
      WithoutDistinct(xs, 0, L);
      CoefficientsSumToOne(Without(xs, 0), L);
      RemovedSum(xs, 0, L);
      WithoutDistinct(xs, m - 1, L);
      CoefficientsSumToOne(Without(xs, m - 1), L);
      RemovedSum(xs, m - 1, L);
      DistinctPair(xs, 0, m - 1, L);
      SolveForOne(Weigh(xs, xs, L), Weigh(xs, Ones(m), L), xs[0], xs[m - 1], L);
    }
  }

  lemma DistinctPair(xs: seq<int>, i: nat, j: nat, L: int)
    requires DistinctPoints(xs, L) && i < |xs| && j < |xs| && i != j
    ensures !Cong(xs[i], xs[j], L)
  {}

  /** sum lambda_i (x_i - z) is -z when the smaller set's coefficients sum to 1. */
  lemma RemovedSum(xs: seq<int>, r: nat, L: int)
    requires IsPrime(L) && L >= 2 && |xs| > 1 && r < |xs| && DistinctPoints(xs, L)
    requires Cong(Weigh(Without(xs, r), Ones(|Without(xs, r)|), L), 1, L)
    ensures Cong(Weigh(xs, xs, L) - xs[r] * Weigh(xs, Ones(|xs|), L), -xs[r], L)
  {
    hide Weigh, IsPrime, Cong, DistinctPoints, Combine;
    var fs, gs := Combine(xs, -xs[r], Ones(|xs|)), Ones(|xs| - 1);
    OneDeviation(xs, r);
    RemovePoint(xs, fs, gs, r, L);
    TermsCombine(xs, xs, -xs[r], Ones(|xs|), L);
    ScaledOne(Weigh(xs, fs, L), xs[r], Weigh(Without(xs, r), gs, L), L);
    NegTimes(xs[r], Weigh(xs, Ones(|xs|), L));
  }

  lemma OneDeviation(xs: seq<int>, r: nat)
    requires r < |xs|
    ensures Combine(xs, -xs[r], Ones(|xs|))[r] == 0
    ensures forall i: nat :: i < |xs| && i != r ==>
              Combine(xs, -xs[r], Ones(|xs|))[i] == (xs[i] - xs[r]) * Ones(|xs| - 1)[Shifted(i, r)]
  {}

  lemma ScaledOne(x: int, z: int, s: int, L: int)
    requires Cong(x, -z * s, L) && Cong(s, 1, L)
    ensures Cong(x, -z, L)
  {
    CongRefl(-z, L);
    CongMul(-z, -z, s, 1, L);
    CongTrans(x, -z * s, -z, L);
  }

  lemma NegTimes(z: int, s: int)
    ensures -z * s == -(z * s)
  {}

  lemma SolveForOne(t: int, s: int, y: int, z: int, L: int)
    requires IsPrime(L) && !Cong(y, z, L)
    requires Cong(t - y * s, -y, L) && Cong(t - z * s, -z, L)
    ensures Cong(s, 1, L)
  {
    hide IsPrime;
    CongSub(t - z * s, -z, t - y * s, -y, L);
    assert t - z * s - (t - y * s) == (y - z) * s;
    assert -z - -y == (y - z) * 1;
    CancelPrime(L, y - z, s, 1);
  }

  ghost function Values(c: seq<int>, xs: seq<int>): (fs: seq<int>)
    ensures |fs| == |xs| && forall i :: 0 <= i < |fs| ==> fs[i] == PolyAt(c, xs[i])
  {
    seq(|xs|, i requires 0 <= i < |xs| => PolyAt(c, xs[i]))
  }

  /** f(x_i) - f(z) for every point. */
  ghost function Deviations(c: seq<int>, xs: seq<int>, r: nat): (fs: seq<int>)
    requires r < |xs|
    ensures |fs| == |xs| && forall i :: 0 <= i < |fs| ==> fs[i] == PolyAt(c, xs[i]) - PolyAt(c, xs[r])
  {
    seq(|xs|, i requires 0 <= i < |xs| => PolyAt(c, xs[i]) - PolyAt(c, xs[r]))
  }

  /** From at least as many distinct points as coefficients, interpolation at zero gives the constant term. */
  lemma {:induction false} Interpolation(c: seq<int>, xs: seq<int>, L: int)
    requires IsPrime(L) && L >= 2 && 0 < |c| <= |xs| && DistinctPoints(xs, L)
    ensures Cong(Weigh(xs, Values(c, xs), L), c[0], L)
    decreases |xs|
  {
    hide Weigh, IsPrime, Cong, DistinctPoints, Without;
    var m := |xs|;
    var r := m - 1;
    var z := xs[r];
    AtZero(c);
    if m == 1 {
      ConstantValue(c, xs[0]);
      SinglePoint(xs, Values(c, xs), L);
    } else {
      var g := Deflate(c, z);
      DeviationSum(c, xs, r, L);
      CoefficientsSumToOne(xs, L);
      Reassemble(c, xs, r, L);
      DeflateCorrect(c, z, 0);
      var d, s := Weigh(xs, Deviations(c, xs, r), L), Weigh(xs, Ones(m), L);
      WithoutDistinct(xs, r, L);
      if |c| == 1 {
        NoTermsLeft(Without(xs, r), L);
        CongRefl(0, L);
        FinishInterpolation(c[0], PolyAt(c, z), z, 0, d, s, 0, L);
      } else {
        Interpolation(g, Without(xs, r), L);
        AtZero(g);
        FinishInterpolation(c[0], PolyAt(c, z), z, g[0], d, s, Weigh(Without(xs, r), Values(g, Without(xs, r)), L), L);
      }
    }
  }

  lemma ConstantValue(c: seq<int>, x: int)
    requires |c| == 1
    ensures PolyAt(c, x) == c[0]
  {
    assert c[1..] == [];
  }

  lemma AtZero(c: seq<int>)
    requires |c| > 0
    ensures PolyAt(c, 0) == c[0]
  {}

  lemma WeighZero(xs: seq<int>, fs: seq<int>, L: int)
    requires L >= 2 && |fs| == |xs| && forall i :: 0 <= i < |fs| ==> fs[i] == 0
    ensures Weigh(xs, fs, L) == 0
  {
    hide Coefficient;
    var ts := Terms(xs, fs, L);
    forall i | 0 <= i < |ts| ensures ts[i] == 0 {
      assert ts[i] == Coefficient(xs, i, L) * 0;
    }
    AllZero(ts);
  }

  lemma WeighCong(xs: seq<int>, fs: seq<int>, gs: seq<int>, L: int)
    requires L >= 2 && |xs| == |fs| == |gs| && forall i :: 0 <= i < |fs| ==> Cong(fs[i], gs[i], L)
    ensures Cong(Weigh(xs, fs, L), Weigh(xs, gs, L), L)
  {
    hide Coefficient, Cong;
    var ts, us := Terms(xs, fs, L), Terms(xs, gs, L);
    forall i | 0 <= i < |ts| ensures Cong(ts[i], 1 * us[i], L) {
      CongRefl(Coefficient(xs, i, L), L);
      CongMul(Coefficient(xs, i, L), Coefficient(xs, i, L), fs[i], gs[i], L);
    }
    SumOfCong(ts, us, 1, L);
  }

  lemma NoTermsLeft(xs: seq<int>, L: int)
    requires L >= 2
    ensures Weigh(xs, Values([], xs), L) == 0
  {
    WeighZero(xs, Values([], xs), L);
  }

  lemma {:induction false} AllZero(bs: seq<int>)
    requires forall i :: 0 <= i < |bs| ==> bs[i] == 0
    ensures SumOf(bs) == 0
  {
    if |bs| > 0 {
      AllZero(bs[..|bs| - 1]);
    }
  }

  /** sum lambda_i (f(x_i) - f(z)) is -z times the smaller interpolation of the quotient. */
  lemma DeviationSum(c: seq<int>, xs: seq<int>, r: nat, L: int)
    requires IsPrime(L) && L >= 2 && |c| > 0 && r < |xs| && |xs| > 1 && DistinctPoints(xs, L)
    ensures var ys, g := Without(xs, r), Deflate(c, xs[r]);
      Cong(Weigh(xs, Deviations(c, xs, r), L), -xs[r] * Weigh(ys, Values(g, ys), L), L)
  {
    hide Weigh, IsPrime, Cong, DistinctPoints, PolyAt, Deflate;
    var g := Deflate(c, xs[r]);
    var gs := Values(g, Without(xs, r));
    forall i: nat | i < |xs| && i != r
      ensures Deviations(c, xs, r)[i] == (xs[i] - xs[r]) * gs[Shifted(i, r)]
    {
      DeviationAt(c, xs, i, r);
    }
    RemovePoint(xs, Deviations(c, xs, r), gs, r, L);
  }

  lemma DeviationAt(c: seq<int>, xs: seq<int>, i: nat, r: nat)
    requires i < |xs| && r < |xs| && i != r
    ensures 0 <= Shifted(i, r) < |Without(xs, r)|
    ensures PolyAt(c, xs[i]) - PolyAt(c, xs[r])
        == (xs[i] - xs[r]) * Values(Deflate(c, xs[r]), Without(xs, r))[Shifted(i, r)]
  {
    hide PolyAt, Deflate;
    WithoutBoth(xs, i, r);
    DeflateCorrect(c, xs[r], xs[i]);
  }

  /** f(x_i) = (f(x_i) - f(z)) + f(z) under the sum. */
  lemma Reassemble(c: seq<int>, xs: seq<int>, r: nat, L: int)
    requires L >= 2 && r < |xs|
    ensures Weigh(xs, Values(c, xs), L)
         == Weigh(xs, Deviations(c, xs, r), L) + PolyAt(c, xs[r]) * Weigh(xs, Ones(|xs|), L)
  {
    hide Weigh, PolyAt;
    TermsCombine(xs, Deviations(c, xs, r), PolyAt(c, xs[r]), Ones(|xs|), L);
    SplitValues(c, xs, r);
  }

  lemma SplitValues(c: seq<int>, xs: seq<int>, r: nat)
    requires r < |xs|
    ensures Combine(Deviations(c, xs, r), PolyAt(c, xs[r]), Ones(|xs|)) == Values(c, xs)
  {
    hide PolyAt;
    var l, m := Combine(Deviations(c, xs, r), PolyAt(c, xs[r]), Ones(|xs|)), Values(c, xs);
    forall i | 0 <= i < |xs| ensures l[i] == m[i] {
      TimesOne(PolyAt(c, xs[r]));
    }
  }

  lemma TimesOne(x: int)
    ensures x * 1 == x
  {}

  lemma FinishInterpolation(c0: int, fz: int, z: int, g0: int, d: int, s: int, rest: int, L: int)
    requires c0 == fz + (0 - z) * g0
    requires Cong(d, -z * rest, L) && Cong(s, 1, L) && Cong(rest, g0, L)
    ensures Cong(d + fz * s, c0, L)
  {
    CongRefl(-z, L);
    CongMul(-z, -z, rest, g0, L);
    CongTrans(d, -z * rest, -z * g0, L);
    CongRefl(fz, L);
    CongMul(fz, fz, s, 1, L);
    CongAdd(d, -z * g0, fz * s, fz * 1, L);
    assert -z * g0 + fz * 1 == c0;
  }
}
