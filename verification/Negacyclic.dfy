/** The ring Z[X]/(X^N + 1): a polynomial is its N integer coefficients.

    Everything rests on one fact, `LinMul`: for any function phi of the exponent
    with phi(e + N) = -phi(e), applying phi monomial by monomial to a product is
    applying it to all pairs of monomials.  Coefficients, evaluations at roots of
    X^N + 1, and substitutions X -> X^k are all of this form. */
module Negacyclic {
  import opened Integers
  import opened Sums

  type Poly = seq<int>

  // --------------------------------------------- coefficients at any exponent

  /** Coefficient at exponent `i`, for any integer `i`: X^N = -1 extends it beyond [0, N). */
  ghost function Coef(a: Poly, i: int): int
    requires |a| > 0
  {
    DivModId(i, 2 * |a|);
    var r := i % (2 * |a|);
    if r < |a| then a[r] else -a[r - |a|]
  }

  lemma CoefAt(a: Poly, i: int)
    requires 0 <= i < |a|
    ensures Coef(a, i) == a[i]
  {
    SmallMod(i, 2 * |a|);
  }

  lemma CoefAnti(a: Poly, i: int)
    requires |a| > 0
    ensures Coef(a, i + |a|) == -Coef(a, i)
  {
    var n := |a|;
    DivModId(i, 2 * n);
    var q, r := i / (2 * n), i % (2 * n);
    if r < n {
      DivModUnique(i + n, 2 * n, q, r + n);
    } else {
      NextPeriod(i, n, q, r);
      DivModUnique(i + n, 2 * n, q + 1, r - n);
    }
  }

  lemma NextPeriod(i: int, n: int, q: int, r: int)
    requires i == q * (2 * n) + r
    ensures i + n == (q + 1) * (2 * n) + (r - n)
  {}

  ghost predicate AntiAt(phi: int -> int, n: int, m: int, i: int) {
    Cong(phi(i + n), -phi(i), m)
  }

  /** phi(e + n) = -phi(e) modulo `m`; exactly, when `m` is 0. */
  ghost predicate Anti(phi: int -> int, n: int, m: int) {
    forall i: int :: AntiAt(phi, n, m, i)
  }

  lemma AntiExact(phi: int -> int, n: int, i: int)
    requires Anti(phi, n, 0)
    ensures phi(i + n) == -phi(i)
  {
    assert AntiAt(phi, n, 0, i);
    CongZero(phi(i + n), -phi(i));
  }

  lemma AntiBack(phi: int -> int, n: int, i: int)
    requires Anti(phi, n, 0)
    ensures phi(i) == -phi(i - n)
  {
    AntiExact(phi, n, i - n);
    assert i - n + n == i;
  }

  /** An antiperiodic function that starts like `a` is the extension of `a`. */
  lemma {:induction false} AntiUnique(a: Poly, f: int -> int, k: int)
    requires |a| > 0 && Anti(f, |a|, 0)
    requires forall i :: 0 <= i < |a| ==> f(i) == a[i]
    ensures Coef(a, k) == f(k)
    decreases if k < 0 then 2 * |a| - k else k
  {
    hide Coef;
    var n := |a|;
    if k >= n {
      AntiUnique(a, f, k - n);
      CoefAnti(a, k - n);
      AntiBack(f, n, k);
    } else if k < 0 {
      AntiUnique(a, f, k + n);
      CoefAnti(a, k);
      AntiExact(f, n, k);
    } else {
      CoefAt(a, k);
    }
  }

  // ---------------------------------------------------------- linear functionals

  ghost function LinTerm(a: Poly, phi: int -> int): int -> int
    requires |a| > 0
  {
    i => Coef(a, i) * phi(i)
  }

  /** a_0 phi(0) + ... + a_{N-1} phi(N-1). */
  ghost function Lin(a: Poly, phi: int -> int): int
    requires |a| > 0
  {
    Sum(|a|, LinTerm(a, phi))
  }

  lemma LinExt(a: Poly, phi: int -> int, psi: int -> int)
    requires |a| > 0 && forall i :: 0 <= i < |a| ==> phi(i) == psi(i)
    ensures Lin(a, phi) == Lin(a, psi)
  {
    hide Coef;
    SumExt(|a|, LinTerm(a, phi), LinTerm(a, psi));
  }

  lemma LinCong(a: Poly, phi: int -> int, psi: int -> int, m: int)
    requires |a| > 0 && forall i :: 0 <= i < |a| ==> Cong(phi(i), psi(i), m)
    ensures Cong(Lin(a, phi), Lin(a, psi), m)
  {
    hide Coef;
    forall i | 0 <= i < |a|
      ensures Cong(LinTerm(a, phi)(i), LinTerm(a, psi)(i), m)
    {
      CongRefl(Coef(a, i), m);
      CongMul(Coef(a, i), Coef(a, i), phi(i), psi(i), m);
    }
    SumCong(|a|, LinTerm(a, phi), LinTerm(a, psi), m);
  }

  lemma LinScale(a: Poly, c: int, phi: int -> int, psi: int -> int)
    requires |a| > 0 && forall i :: 0 <= i < |a| ==> psi(i) == c * phi(i)
    ensures Lin(a, psi) == c * Lin(a, phi)
  {
    hide Coef;
    forall i | 0 <= i < |a|
      ensures LinTerm(a, psi)(i) == c * LinTerm(a, phi)(i)
    {
      assert Coef(a, i) * (c * phi(i)) == c * (Coef(a, i) * phi(i));
    }
    SumScale(|a|, c, LinTerm(a, phi), LinTerm(a, psi));
  }

  // ---------------------------------------------------------------- operations

  function PZero(n: nat): (r: Poly)
    ensures |r| == n
  {
    seq(n, _ => 0)
  }

  function PAdd(a: Poly, b: Poly): (r: Poly)
    requires |a| == |b|
    ensures |r| == |a|
    ensures forall i :: 0 <= i < |r| ==> r[i] == a[i] + b[i]
  {
    seq(|a|, i requires 0 <= i < |a| => a[i] + b[i])
  }

  function PNeg(a: Poly): (r: Poly)
    ensures |r| == |a|
    ensures forall i :: 0 <= i < |r| ==> r[i] == -a[i]
  {
    seq(|a|, i requires 0 <= i < |a| => -a[i])
  }

  function PSub(a: Poly, b: Poly): (r: Poly)
    requires |a| == |b|
    ensures |r| == |a|
    ensures forall i :: 0 <= i < |r| ==> r[i] == a[i] - b[i]
  {
    seq(|a|, i requires 0 <= i < |a| => a[i] - b[i])
  }

  function PScale(c: int, a: Poly): (r: Poly)
    ensures |r| == |a|
    ensures forall i :: 0 <= i < |r| ==> r[i] == c * a[i]
  {
    seq(|a|, i requires 0 <= i < |a| => c * a[i])
  }

  /** i => coefficient of `b` at exponent `k - i`. */
  ghost function Rev(b: Poly, k: int): int -> int
    requires |b| > 0
  {
    i => Coef(b, k - i)
  }

  /** The negacyclic product. */
  ghost function PMul(a: Poly, b: Poly): (r: Poly)
    requires |a| == |b|
    ensures |r| == |a|
    ensures forall k :: 0 <= k < |r| ==> r[k] == Lin(a, Rev(b, k))
  {
    seq(|a|, k requires 0 <= k < |a| => Lin(a, Rev(b, k)))
  }

  // -------------------------------------------------- the product of functionals

  ghost function Conv(b: Poly, phi: int -> int): int -> int
    requires |b| > 0
  {
    i => Lin(b, Shift(phi, i))
  }

  /** (k, i) => a_i b_{k-i} phi(k). */
  ghost function PairTerm(a: Poly, b: Poly, phi: int -> int): (int, int) -> int
    requires |a| > 0 && |b| > 0
  {
    (k, i) => Coef(a, i) * (Coef(b, k - i) * phi(k))
  }

  /** k => b_{k-i} phi(k). */
  ghost function Window(b: Poly, phi: int -> int, i: int): int -> int
    requires |b| > 0
  {
    k => Coef(b, k - i) * phi(k)
  }

  lemma WindowPeriodic(b: Poly, phi: int -> int, i: int, m: int)
    requires |b| > 0 && Anti(phi, |b|, m)
    ensures Periodic(Window(b, phi, i), |b|, m)
  {
    hide Coef;
    var n, f := |b|, Window(b, phi, i);
    forall k: int
      ensures PeriodAt(f, n, m, k)
    {
      CoefAnti(b, k - i);
      assert k + n - i == k - i + n;
      assert AntiAt(phi, n, m, k);
      CongRefl(-Coef(b, k - i), m);
      CongMul(-Coef(b, k - i), -Coef(b, k - i), phi(k + n), -phi(k), m);
      assert -Coef(b, k - i) * -phi(k) == Coef(b, k - i) * phi(k);
    }
  }

  lemma WindowSum(b: Poly, phi: int -> int, i: int, m: int)
    requires |b| > 0 && Anti(phi, |b|, m)
    ensures Cong(Sum(|b|, Window(b, phi, i)), Lin(b, Shift(phi, i)), m)
  {
    hide Coef;
    var n, f := |b|, Window(b, phi, i);
    WindowPeriodic(b, phi, i, m);
    SumPeriodic(n, f, i, m);
    forall k | 0 <= k < n
      ensures Shift(f, i)(k) == LinTerm(b, Shift(phi, i))(k)
    {
      assert k + i - i == k;
    }
    SumExt(n, Shift(f, i), LinTerm(b, Shift(phi, i)));
    CongSym(Sum(n, Shift(f, i)), Sum(n, f), m);
  }

  lemma LinMul(a: Poly, b: Poly, phi: int -> int, m: int)
    requires |a| == |b| > 0 && Anti(phi, |a|, m)
    ensures Cong(Lin(PMul(a, b), phi), Lin(a, Conv(b, phi)), m)
  {
    hide Coef, Lin, Sum, PMul, PairTerm, Anti;
    var c := ColumnSums(a, b, phi);
    LinMulSwap(a, b, phi, c);
    forall i | 0 <= i < |a|
      ensures Cong(c(i), LinTerm(a, Conv(b, phi))(i), m)
    {
      ColumnSum(a, b, phi, m, i);
    }
    SumCong(|a|, c, LinTerm(a, Conv(b, phi)), m);
    LinIsSum(a, Conv(b, phi));
  }

  /** i => sum over k of a_i b_{k-i} phi(k). */
  ghost function ColumnSums(a: Poly, b: Poly, phi: int -> int): int -> int
    requires |a| > 0 && |b| > 0
  {
    i => Sum(|a|, Col(PairTerm(a, b, phi), i))
  }

  lemma ColumnSum(a: Poly, b: Poly, phi: int -> int, m: int, i: int)
    requires |a| == |b| > 0 && Anti(phi, |a|, m)
    ensures Cong(ColumnSums(a, b, phi)(i), LinTerm(a, Conv(b, phi))(i), m)
  {
    hide Coef, Lin, Anti;
    var n := |a|;
    SumScale(n, Coef(a, i), Window(b, phi, i), Col(PairTerm(a, b, phi), i));
    WindowSum(b, phi, i, m);
    CongRefl(Coef(a, i), m);
    CongMul(Coef(a, i), Coef(a, i), Sum(n, Window(b, phi, i)), Conv(b, phi)(i), m);
  }

  lemma PairEntry(a: Poly, b: Poly, phi: int -> int, k: int, i: int)
    requires |a| > 0 && |b| > 0
    ensures Row(PairTerm(a, b, phi), k)(i) == phi(k) * LinTerm(a, Rev(b, k))(i)
  {
    hide Coef;
    ProductOrder(Coef(a, i), Coef(b, k - i), phi(k));
  }

  lemma LinIsSum(a: Poly, phi: int -> int)
    requires |a| > 0
    ensures Lin(a, phi) == Sum(|a|, LinTerm(a, phi))
  {}

  lemma PairRowSum(a: Poly, b: Poly, phi: int -> int, k: int)
    requires |a| > 0 && |b| > 0
    ensures Sum(|a|, Row(PairTerm(a, b, phi), k)) == phi(k) * Lin(a, Rev(b, k))
  {
    hide *;
    forall i | 0 <= i < |a|
      ensures Row(PairTerm(a, b, phi), k)(i) == phi(k) * LinTerm(a, Rev(b, k))(i)
    {
      PairEntry(a, b, phi, k, i);
    }
    SumScale(|a|, phi(k), LinTerm(a, Rev(b, k)), Row(PairTerm(a, b, phi), k));
    LinIsSum(a, Rev(b, k));
  }

  lemma PairRow(a: Poly, b: Poly, phi: int -> int, k: int)
    requires |a| == |b| && 0 <= k < |a|
    ensures LinTerm(PMul(a, b), phi)(k) == Sum(|a|, Row(PairTerm(a, b, phi), k))
  {
    hide Coef, Lin, Sum;
    PairRowSum(a, b, phi, k);
    CoefAt(PMul(a, b), k);
    IntMulComm(phi(k), Lin(a, Rev(b, k)));
  }

  lemma IntMulComm(x: int, y: int)
    ensures x * y == y * x
  {}

  lemma LinMulSwap(a: Poly, b: Poly, phi: int -> int, c: int -> int)
    requires |a| == |b| > 0
    requires forall i :: 0 <= i < |a| ==> c(i) == Sum(|a|, Col(PairTerm(a, b, phi), i))
    ensures Lin(PMul(a, b), phi) == Sum(|a|, c)
  {
    hide Coef;
    forall k | 0 <= k < |a|
      ensures LinTerm(PMul(a, b), phi)(k) == Sum(|a|, Row(PairTerm(a, b, phi), k))
    {
      PairRow(a, b, phi, k);
    }
    SumSwap(|a|, |a|, PairTerm(a, b, phi), LinTerm(PMul(a, b), phi), c);
  }

  lemma ProductOrder(x: int, y: int, z: int)
    ensures x * (y * z) == z * (x * y)
  {}

  // ------------------------------------------------------------------ ring laws

  lemma RevAnti(b: Poly, k: int)
    requires |b| > 0
    ensures Anti(Rev(b, k), |b|, 0)
  {
    hide Coef;
    var n, f := |b|, Rev(b, k);
    forall i: int
      ensures AntiAt(f, n, 0, i)
    {
      CoefAnti(b, k - (i + n));
      assert k - (i + n) + n == k - i;
      CongRefl(f(i + n), 0);
    }
  }

  ghost function ProductAt(a: Poly, b: Poly): int -> int
    requires |a| > 0 && |b| > 0
  {
    k => Lin(a, Rev(b, k))
  }

  /** The product formula holds at every exponent, not only in [0, N). */
  lemma CoefMul(a: Poly, b: Poly, k: int)
    requires |a| == |b| > 0
    ensures Coef(PMul(a, b), k) == Lin(a, Rev(b, k))
  {
    hide Coef;
    var n, f := |a|, ProductAt(a, b);
    forall j: int
      ensures AntiAt(f, n, 0, j)
    {
      forall i | 0 <= i < n
        ensures Rev(b, j + n)(i) == -1 * Rev(b, j)(i)
      {
        CoefAnti(b, j - i);
        assert j + n - i == j - i + n;
      }
      LinScale(a, -1, Rev(b, j), Rev(b, j + n));
      CongRefl(f(j + n), 0);
    }
    AntiUnique(PMul(a, b), f, k);
  }

  lemma ConvRev(b: Poly, c: Poly, k: int, i: int)
    requires |b| == |c| > 0
    ensures Conv(b, Rev(c, k))(i) == Rev(PMul(b, c), k)(i)
  {
    hide Coef;
    CoefMul(b, c, k - i);
    var f, g := Shift(Rev(c, k), i), Rev(c, k - i);
    forall e | 0 <= e < |b|
      ensures f(e) == g(e)
    {
      assert k - (e + i) == k - i - e;
    }
    LinExt(b, f, g);
  }

  lemma MulAssoc(a: Poly, b: Poly, c: Poly)
    requires |a| == |b| == |c|
    ensures PMul(PMul(a, b), c) == PMul(a, PMul(b, c))
  {
    hide Coef;
    var l, r := PMul(PMul(a, b), c), PMul(a, PMul(b, c));
    forall k | 0 <= k < |a|
      ensures l[k] == r[k]
    {
      MulAssocAt(a, b, c, k);
    }
  }

  lemma MulAssocAt(a: Poly, b: Poly, c: Poly, k: int)
    requires |a| == |b| == |c| > 0
    ensures Lin(PMul(a, b), Rev(c, k)) == Lin(a, Rev(PMul(b, c), k))
  {
    hide Coef;
    var phi := Rev(c, k);
    RevAnti(c, k);
    LinMul(a, b, phi, 0);
    CongZero(Lin(PMul(a, b), phi), Lin(a, Conv(b, phi)));
    forall i | 0 <= i < |a|
      ensures Conv(b, phi)(i) == Rev(PMul(b, c), k)(i)
    {
      ConvRev(b, c, k, i);
    }
    LinExt(a, Conv(b, phi), Rev(PMul(b, c), k));
  }

  lemma MulComm(a: Poly, b: Poly)
    requires |a| == |b|
    ensures PMul(a, b) == PMul(b, a)
  {
    hide Coef;
    var l, r := PMul(a, b), PMul(b, a);
    forall k | 0 <= k < |a|
      ensures l[k] == r[k]
    {
      MulCommAt(a, b, k);
    }
  }

  lemma MulCommAt(a: Poly, b: Poly, k: int)
    requires |a| == |b| > 0
    ensures Lin(a, Rev(b, k)) == Lin(b, Rev(a, k))
  {
    hide Coef;
    var n := |a|;
    var g := Window(b, Rev(a, k), 0);
    RevAnti(a, k);
    WindowPeriodic(b, Rev(a, k), 0, 0);
    SumPeriodic(n, g, k - n + 1, 0);
    CongZero(Sum(n, Shift(g, k - n + 1)), Sum(n, g));
    forall i | 0 <= i < n
      ensures LinTerm(a, Rev(b, k))(i) == Shift(g, k - n + 1)(n - 1 - i)
    {
      assert n - 1 - i + (k - n + 1) == k - i;
      assert k - (k - i) == i && k - i - 0 == k - i;
    }
    SumReverse(n, Shift(g, k - n + 1), LinTerm(a, Rev(b, k)));
    forall i | 0 <= i < n
      ensures g(i) == LinTerm(b, Rev(a, k))(i)
    {
      assert i - 0 == i;
    }
    SumExt(n, g, LinTerm(b, Rev(a, k)));
  }

  lemma MulAddLeft(a: Poly, b: Poly, c: Poly)
    requires |a| == |b| == |c|
    ensures PMul(PAdd(a, b), c) == PAdd(PMul(a, c), PMul(b, c))
  {
    hide Coef;
    var s := PAdd(a, b);
    var l, r := PMul(s, c), PAdd(PMul(a, c), PMul(b, c));
    forall k | 0 <= k < |a|
      ensures l[k] == r[k]
    {
      var phi := Rev(c, k);
      forall i | 0 <= i < |a|
        ensures LinTerm(s, phi)(i) == LinTerm(a, phi)(i) + LinTerm(b, phi)(i)
      {
        CoefAt(a, i);
        CoefAt(b, i);
        CoefAt(s, i);
        assert (a[i] + b[i]) * phi(i) == a[i] * phi(i) + b[i] * phi(i);
      }
      SumAdd(|a|, LinTerm(a, phi), LinTerm(b, phi), LinTerm(s, phi));
    }
  }

  lemma MulScaleLeft(c: int, a: Poly, b: Poly)
    requires |a| == |b|
    ensures PMul(PScale(c, a), b) == PScale(c, PMul(a, b))
  {
    hide Coef;
    var s := PScale(c, a);
    var l, r := PMul(s, b), PScale(c, PMul(a, b));
    forall k | 0 <= k < |a|
      ensures l[k] == r[k]
    {
      var phi := Rev(b, k);
      forall i | 0 <= i < |a|
        ensures LinTerm(s, phi)(i) == c * LinTerm(a, phi)(i)
      {
        CoefAt(a, i);
        CoefAt(s, i);
        assert c * a[i] * phi(i) == c * (a[i] * phi(i));
      }
      SumScale(|a|, c, LinTerm(a, phi), LinTerm(s, phi));
    }
  }

  lemma MulAddRight(a: Poly, b: Poly, c: Poly)
    requires |a| == |b| == |c|
    ensures PMul(a, PAdd(b, c)) == PAdd(PMul(a, b), PMul(a, c))
  {
    MulComm(a, PAdd(b, c));
    MulAddLeft(b, c, a);
    MulComm(a, b);
    MulComm(a, c);
  }

  lemma MulScaleRight(c: int, a: Poly, b: Poly)
    requires |a| == |b|
    ensures PMul(a, PScale(c, b)) == PScale(c, PMul(a, b))
  {
    MulComm(a, PScale(c, b));
    MulScaleLeft(c, b, a);
    MulComm(a, b);
  }

  lemma MulZeroLeft(n: nat, a: Poly)
    requires |a| == n
    ensures PMul(PZero(n), a) == PZero(n)
  {
    assert PZero(n) == PScale(0, a);
    MulScaleLeft(0, a, a);
    assert PScale(0, PMul(a, a)) == PZero(n);
  }

  // ------------------------------------------------------ congruence and bounds

  ghost predicate PCong(a: Poly, b: Poly, m: int) {
    |a| == |b| && forall i :: 0 <= i < |a| ==> Cong(a[i], b[i], m)
  }

  lemma PCongRefl(a: Poly, m: int)
    ensures PCong(a, a, m)
  {
    forall i | 0 <= i < |a| ensures Cong(a[i], a[i], m) {
      CongRefl(a[i], m);
    }
  }

  lemma PCongSym(a: Poly, b: Poly, m: int)
    requires PCong(a, b, m)
    ensures PCong(b, a, m)
  {
    forall i | 0 <= i < |a| ensures Cong(b[i], a[i], m) {
      CongSym(a[i], b[i], m);
    }
  }

  lemma PCongTrans(a: Poly, b: Poly, c: Poly, m: int)
    requires PCong(a, b, m) && PCong(b, c, m)
    ensures PCong(a, c, m)
  {
    forall i | 0 <= i < |a| ensures Cong(a[i], c[i], m) {
      CongTrans(a[i], b[i], c[i], m);
    }
  }

  lemma PCongAdd(a: Poly, b: Poly, c: Poly, d: Poly, m: int)
    requires |a| == |c| && PCong(a, b, m) && PCong(c, d, m)
    ensures PCong(PAdd(a, c), PAdd(b, d), m)
  {
    forall i | 0 <= i < |a| ensures Cong(PAdd(a, c)[i], PAdd(b, d)[i], m) {
      CongAdd(a[i], b[i], c[i], d[i], m);
    }
  }

  lemma PCongMul(a: Poly, b: Poly, c: Poly, m: int)
    requires |a| == |c| && PCong(a, b, m)
    ensures PCong(PMul(a, c), PMul(b, c), m)
  {
    hide Coef;
    forall k | 0 <= k < |a|
      ensures Cong(PMul(a, c)[k], PMul(b, c)[k], m)
    {
      var phi := Rev(c, k);
      forall i | 0 <= i < |a|
        ensures Cong(LinTerm(a, phi)(i), LinTerm(b, phi)(i), m)
      {
        CoefAt(a, i);
        CoefAt(b, i);
        CongRefl(phi(i), m);
        CongMul(a[i], b[i], phi(i), phi(i), m);
      }
      SumCong(|a|, LinTerm(a, phi), LinTerm(b, phi), m);
    }
  }

  lemma PCongMulBoth(a: Poly, b: Poly, c: Poly, d: Poly, m: int)
    requires |a| == |c| && PCong(a, b, m) && PCong(c, d, m)
    ensures PCong(PMul(a, c), PMul(b, d), m)
  {
    PCongMul(a, b, c, m);
    PCongMul(c, d, b, m);
    MulComm(b, c);
    MulComm(b, d);
    PCongTrans(PMul(a, c), PMul(b, c), PMul(b, d), m);
  }

  /** A multiple of `m`, split off coefficient by coefficient. */
  ghost function PQuot(a: Poly, b: Poly, m: int): (k: Poly)
    requires PCong(a, b, m)
    ensures |k| == |a| && a == PAdd(b, PScale(m, k))
  {
    var k := seq(|a|, i requires 0 <= i < |a| => Quot(a[i], b[i], m));
    assert a == PAdd(b, PScale(m, k));
    k
  }

  ghost function Quot(a: int, b: int, m: int): (k: int)
    requires Cong(a, b, m)
    ensures a == b + m * k
  {
    var k: int :| Times(k, m) == a - b;
    k
  }

  lemma PCongBy(a: Poly, b: Poly, m: int, k: Poly)
    requires |a| == |b| == |k| && a == PAdd(b, PScale(m, k))
    ensures PCong(a, b, m)
  {
    forall i | 0 <= i < |a| ensures Cong(a[i], b[i], m) {
      assert a[i] == b[i] + m * k[i];
      CongBy(a[i], b[i], m, k[i]);
    }
  }

  /** Every coefficient is at most `B` in absolute value. */
  ghost predicate PBound(a: Poly, B: int) {
    forall i :: 0 <= i < |a| ==> -B <= a[i] <= B
  }

  lemma MulBoundPoly(a: Poly, b: Poly, A: int, B: int)
    requires |a| == |b| && A >= 0 && B >= 0
    requires PBound(a, A) && PBound(b, B)
    ensures PBound(PMul(a, b), |a| * (A * B))
  {
    hide Coef;
    forall k | 0 <= k < |a|
      ensures -(|a| * (A * B)) <= PMul(a, b)[k] <= |a| * (A * B)
    {
      var f := LinTerm(a, Rev(b, k));
      forall i | 0 <= i < |a|
        ensures -(A * B) <= f(i) <= A * B
      {
        CoefAt(a, i);
        CoefBound(b, k - i, B);
        SignedProductBound(a[i], Coef(b, k - i), A, B);
      }
      SumBound(|a|, f, A * B);
    }
  }

  lemma CoefBound(b: Poly, k: int, B: int)
    requires |b| > 0 && PBound(b, B)
    ensures -B <= Coef(b, k) <= B
  {
    DivModId(k, 2 * |b|);
  }

  lemma SignedProductBound(x: int, y: int, A: int, B: int)
    requires -A <= x <= A && -B <= y <= B
    ensures -(A * B) <= x * y <= A * B
  {
    AbsMul(x, y);
    MulBound(Abs(x), A, Abs(y), B);
  }

  lemma AddBound(a: Poly, b: Poly, A: int, B: int)
    requires |a| == |b| && PBound(a, A) && PBound(b, B)
    ensures PBound(PAdd(a, b), A + B)
  {}
}
