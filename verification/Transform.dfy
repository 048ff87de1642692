/** The negacyclic transform and its inverse as mathematical maps modulo a prime. */
module Transform {
  import opened Integers
  import opened Sums
  import opened NumberTheory
  import opened Negacyclic
  import opened Evaluation

  /** psi is a primitive 2N-th root of unity modulo the prime q, with the inverses the transform uses. */
  ghost predicate NttRoot(psi: int, invPsi: int, invN: int, n: nat, q: int) {
    && IsPrime(q) && q > 2
    && (exists l: nat :: n == TwoTo(l))
    && RootOfMinusOne(psi, n, q)
    && Cong(psi * invPsi, 1, q)
    && Cong(n * invN, 1, q)
  }

  // ---------------------------------------------------------------- root orders

  /** A 2^l-th power equal to -1 rules out every smaller order. */
  lemma {:induction false} RootOrder(x: int, l: nat, d: nat, q: int)
    requires q > 2 && Cong(Pow(x, TwoTo(l)), -1, q) && 0 < d < TwoTo(l + 1)
    ensures !Cong(Pow(x, d), 1, q)
    decreases l
  {
    if Cong(Pow(x, d), 1, q) {
      if d % 2 == 1 {
        OddOrder(x, TwoTo(l), d, q);
      } else {
        TwoToStep(l);
        assert l > 0;
        TwoToStep(l - 1);
        SquarePower(x, TwoTo(l - 1));
        SquarePower(x, d / 2);
        RootOrder(x * x, l - 1, d / 2, q);
      }
    }
  }

  lemma SquarePower(x: int, e: nat)
    ensures Pow(x * x, e) == Pow(x, 2 * e)
  {
    PowBase(x, x, e);
    PowAdd(x, e, e);
  }

  lemma OddOrder(x: int, n: nat, d: nat, q: int)
    requires q > 2 && d % 2 == 1 && Cong(Pow(x, n), -1, q)
    ensures !Cong(Pow(x, d), 1, q)
  {
    if Cong(Pow(x, d), 1, q) {
      CongPow(Pow(x, d), 1, n, q);
      PowOne(n);
      PowMul(x, d, n);
      CongPow(Pow(x, n), -1, d, q);
      PowMinusOne(d);
      PowMul(x, n, d);
      IntMulComm(n, d);
      CongSym(Pow(x, n * d), -1, q);
      CongTrans(-1, Pow(x, n * d), 1, q);
      CongAdd(-1, 1, 1, 1, q) by {
        CongRefl(1, q);
      }
      CongSym(0, 2, q);
      SmallMultiple(2, q);
    }
  }

  lemma InversePower(x: int, y: int, e: nat, q: int)
    requires Cong(x * y, 1, q)
    ensures Cong(Pow(x, e) * Pow(y, e), 1, q)
  {
    PowBase(x, y, e);
    CongPow(x * y, 1, e, q);
    PowOne(e);
  }

  lemma InverseRoot(psi: int, invPsi: int, n: nat, q: int)
    requires RootOfMinusOne(psi, n, q) && Cong(psi * invPsi, 1, q)
    ensures RootOfMinusOne(invPsi, n, q)
  {
    var x, y := Pow(psi, n), Pow(invPsi, n);
    InversePower(psi, invPsi, n, q);
    CongRefl(y, q);
    CongMul(x, -1, y, y, q);
    CongSym(x * y, 1, q);
    CongTrans(1, x * y, -y, q);
    CongNeg(1, -y, q);
    CongSym(-1, y, q);
  }

  // -------------------------------------------------------------- orthogonality

  /** psi^(2i) * invPsi^(2j). */
  ghost function Twiddle(psi: int, invPsi: int, i: nat, j: nat): int {
    Pow(psi, 2 * i) * Pow(invPsi, 2 * j)
  }

  lemma TwiddleAbove(psi: int, invPsi: int, i: nat, j: nat, q: int)
    requires i >= j && Cong(psi * invPsi, 1, q)
    ensures Cong(Twiddle(psi, invPsi, i, j), Pow(psi, 2 * (i - j)), q)
  {
    var x, y := Pow(psi, 2 * j), Pow(invPsi, 2 * j);
    PowAdd(psi, 2 * (i - j), 2 * j);
    var z := Pow(psi, 2 * (i - j));
    InversePower(psi, invPsi, 2 * j, q);
    CongRefl(z, q);
    CongMul(z, z, x * y, 1, q);
    assert z * x * y == z * (x * y);
  }

  lemma TwiddleSwap(psi: int, invPsi: int, i: nat, j: nat)
    ensures Twiddle(psi, invPsi, i, j) == Twiddle(invPsi, psi, j, i)
  {
    IntMulComm(Pow(psi, 2 * i), Pow(invPsi, 2 * j));
  }

  lemma TwiddleDistinct(psi: int, invPsi: int, i: nat, j: nat, l: nat, q: int)
    requires q > 2 && j < i < TwoTo(l)
    requires RootOfMinusOne(psi, TwoTo(l), q) && Cong(psi * invPsi, 1, q)
    ensures !Cong(Twiddle(psi, invPsi, i, j), 1, q)
  {
    TwiddleAbove(psi, invPsi, i, j, q);
    TwoToStep(l);
    RootOrder(psi, l, 2 * (i - j), q);
    if Cong(Twiddle(psi, invPsi, i, j), 1, q) {
      CongSym(Twiddle(psi, invPsi, i, j), Pow(psi, 2 * (i - j)), q);
      CongTrans(Pow(psi, 2 * (i - j)), Twiddle(psi, invPsi, i, j), 1, q);
    }
  }

  lemma FullTurn(x: int, i: nat, n: nat, q: int)
    requires RootOfMinusOne(x, n, q)
    ensures Cong(Pow(Pow(x, 2 * i), n), 1, q)
  {
    RootFull(x, n, q);
    PowMul(x, 2 * i, n);
    PowMul(x, 2 * n, i);
    assert 2 * i * n == 2 * n * i;
    CongPow(Pow(x, 2 * n), 1, i, q);
    PowOne(i);
  }

  lemma TwiddlePower(psi: int, invPsi: int, i: nat, j: nat, n: nat, q: int)
    requires RootOfMinusOne(psi, n, q) && RootOfMinusOne(invPsi, n, q)
    ensures Cong(Pow(Twiddle(psi, invPsi, i, j), n), 1, q)
  {
    FullTurn(psi, i, n, q);
    FullTurn(invPsi, j, n, q);
    PowBase(Pow(psi, 2 * i), Pow(invPsi, 2 * j), n);
    CongMul(Pow(Pow(psi, 2 * i), n), 1, Pow(Pow(invPsi, 2 * j), n), 1, q);
  }

  /** The powers of a twiddle other than 1 sum to zero. */
  lemma PowersCancel(z: int, n: nat, q: int)
    requires IsPrime(q) && Cong(Pow(z, n), 1, q) && !Cong(z, 1, q)
    ensures Cong(Sum(n, Powers(z)), 0, q)
  {
    Geometric(n, z);
    CongSub(Pow(z, n), 1, 1, 1, q) by {
      CongRefl(1, q);
    }
    assert (z - 1) * 0 == 0;
    CancelPrime(q, z - 1, Sum(n, Powers(z)), 0);
  }

  lemma PowersOfOne(z: int, n: nat, q: int)
    requires Cong(z, 1, q)
    ensures Cong(Sum(n, Powers(z)), n, q)
  {
    var one: int -> int := _ => 1;
    forall i | 0 <= i < n ensures Cong(Powers(z)(i), one(i), q) {
      CongPow(z, 1, i, q);
      PowOne(i);
    }
    SumCong(n, Powers(z), one, q);
    SumOnes(n, one);
  }

  lemma {:induction false} SumOnes(n: nat, one: int -> int)
    requires forall i :: 0 <= i < n ==> one(i) == 1
    ensures Sum(n, one) == n
  {
    if n > 0 {
      SumOnes(n - 1, one);
    }
  }

  lemma Orthogonal(psi: int, invPsi: int, invN: int, n: nat, q: int, i: nat, j: nat)
    requires NttRoot(psi, invPsi, invN, n, q) && i < n && j < n
    ensures Cong(Sum(n, Powers(Twiddle(psi, invPsi, i, j))), if i == j then n else 0, q)
  {
    var l: nat :| n == TwoTo(l);
    var z := Twiddle(psi, invPsi, i, j);
    InverseRoot(psi, invPsi, n, q);
    if i == j {
      TwiddleAbove(psi, invPsi, i, j, q);
      assert Pow(psi, 2 * (i - j)) == 1;
      PowersOfOne(z, n, q);
    } else {
      if i > j {
        TwiddleDistinct(psi, invPsi, i, j, l, q);
      } else {
        TwiddleSwap(psi, invPsi, i, j);
        IntMulComm(psi, invPsi);
        TwiddleDistinct(invPsi, psi, j, i, l, q);
      }
      TwiddlePower(psi, invPsi, i, j, n, q);
      PowersCancel(z, n, q);
    }
  }

  // ----------------------------------------------------------- summing it all up

  /** (s, t) => c(t) * z(t)^s. */
  ghost function Kernel(c: int -> int, z: int -> int): (int, int) -> int {
    (s, t) => c(t) * Powers(z(t))(s)
  }

  lemma KernelAt(c: int -> int, z: int -> int, s: nat, t: int)
    ensures Row(Kernel(c, z), s)(t) == c(t) * Pow(z(t), s)
  {
    assert Kernel(c, z)(s, t) == c(t) * Powers(z(t))(s);
  }

  /** If the powers of z(t) sum to n at t0 and to 0 elsewhere, summing all terms leaves n * c(t0). */
  lemma Collapse(n: nat, c: int -> int, z: int -> int, t0: int, r: int -> int, q: int)
    requires 0 <= t0 < n
    requires forall t :: 0 <= t < n ==> Cong(Sum(n, Powers(z(t))), if t == t0 then n else 0, q)
    requires forall s :: 0 <= s < n ==> Cong(r(s), Sum(n, Row(Kernel(c, z), s)), q)
    ensures Cong(Sum(n, r), c(t0) * n, q)
  {
    var F := Kernel(c, z);
    var rows := s => Sum(n, Row(F, s));
    var cols := t => Sum(n, Col(F, t));
    SumCong(n, r, rows, q);
    SumSwap(n, n, F, rows, cols);
    forall t | 0 <= t < n
      ensures Cong(cols(t), if t == t0 then c(t0) * n else 0, q)
    {
      CollapseCol(n, c, z, t, if t == t0 then n else 0, q);
    }
    SumSingleCong(n, cols, t0, q);
    CongTrans(Sum(n, cols), cols(t0), c(t0) * n, q);
    CongTrans(Sum(n, r), Sum(n, rows), c(t0) * n, q);
  }

  lemma CollapseCol(n: nat, c: int -> int, z: int -> int, t: int, v: int, q: int)
    requires Cong(Sum(n, Powers(z(t))), v, q)
    ensures Cong(Sum(n, Col(Kernel(c, z), t)), c(t) * v, q)
  {
    hide Powers;
    SumScale(n, c(t), Powers(z(t)), Col(Kernel(c, z), t));
    CongRefl(c(t), q);
    CongMul(c(t), c(t), Sum(n, Powers(z(t))), v, q);
  }

  // ------------------------------------------------------ inverse after forward

  ghost function TwistedCoef(a: Poly, psi: int): int -> int
    requires |a| > 0
  {
    i => Coef(a, i) * Powers(psi)(i)
  }

  ghost function TwiddlesByFirst(psi: int, invPsi: int, j: nat): int -> int {
    i => if i < 0 then 0 else Twiddle(psi, invPsi, i, j)
  }

  lemma SplitPower(x: int, k: nat, i: nat)
    ensures Pow(Pow(x, 2 * k + 1), i) == Pow(x, i) * Pow(Pow(x, 2 * i), k)
  {
    PowMul(x, 2 * k + 1, i);
    PowMul(x, 2 * i, k);
    assert (2 * k + 1) * i == i + 2 * i * k;
    PowAdd(x, i, 2 * i * k);
  }

  lemma ExchangePower(x: int, k: nat, i: nat)
    ensures Pow(Pow(x, 2 * k), i) == Pow(Pow(x, 2 * i), k)
  {
    hide Pow;
    PowMul(x, 2 * k, i);
    PowMul(x, 2 * i, k);
    ExchangeFactors(k, i);
  }

  lemma ExchangeFactors(k: int, i: int)
    ensures 2 * k * i == 2 * i * k
  {}

  /** a_i psi^((2k+1)i) invPsi^(2jk), split by the exponent k. */
  lemma KernelEntry(a: Poly, psi: int, invPsi: int, j: nat, k: nat, i: nat)
    requires i < |a|
    ensures LinTerm(a, Powers(Pow(psi, 2 * k + 1)))(i) * Pow(Pow(invPsi, 2 * j), k)
         == Row(Kernel(TwistedCoef(a, psi), TwiddlesByFirst(psi, invPsi, j)), k)(i)
  {
    hide Coef, Pow, TwistedCoef;
    var x, y := Pow(psi, 2 * i), Pow(invPsi, 2 * j);
    CoefAt(a, i);
    TwistedCoefAt(a, psi, i);
    SplitPower(psi, k, i);
    PowBase(x, y, k);
    RegroupKernel(a[i], Pow(psi, i), Pow(x, k), Pow(y, k));
    KernelAt(TwistedCoef(a, psi), TwiddlesByFirst(psi, invPsi, j), k, i);
    assert TwiddlesByFirst(psi, invPsi, j)(i) == x * y;
    assert LinTerm(a, Powers(Pow(psi, 2 * k + 1)))(i) == a[i] * Pow(Pow(psi, 2 * k + 1), i);
  }

  lemma RegroupKernel(c: int, p: int, x: int, y: int)
    ensures c * (p * x) * y == c * p * (x * y)
  {}

  ghost function ScaledTerm(f: int -> int, c: int): int -> int {
    i => c * f(i)
  }

  lemma KernelRow(a: Poly, psi: int, invPsi: int, j: nat, k: nat)
    requires |a| > 0
    ensures Pow(Pow(invPsi, 2 * j), k) * Eval(a, Pow(psi, 2 * k + 1))
         == Sum(|a|, Row(Kernel(TwistedCoef(a, psi), TwiddlesByFirst(psi, invPsi, j)), k))
  {
    hide Kernel, LinTerm, Powers, Pow, TwistedCoef, TwiddlesByFirst, Row;
    var w := Pow(Pow(invPsi, 2 * j), k);
    var f := LinTerm(a, Powers(Pow(psi, 2 * k + 1)));
    var row := Row(Kernel(TwistedCoef(a, psi), TwiddlesByFirst(psi, invPsi, j)), k);
    forall i | 0 <= i < |a|
      ensures row(i) == w * f(i)
    {
      KernelEntry(a, psi, invPsi, j, k, i);
      IntMulComm(f(i), w);
    }
    SumScale(|a|, w, f, row);
  }

  /** Evaluating the values at the powers of the inverse root gives n * psi^j * a_j. */
  lemma SumOfValues(a: Poly, v: Poly, psi: int, invPsi: int, invN: int, n: nat, q: int, j: nat)
    requires |a| == |v| == n && j < n && NttRoot(psi, invPsi, invN, n, q)
    requires forall k :: 0 <= k < n ==> Cong(v[k], Eval(a, Pow(psi, 2 * k + 1)), q)
    ensures Cong(Eval(v, Pow(invPsi, 2 * j)), a[j] * Pow(psi, j) * n, q)
  {
    hide *;
    var c, z := TwistedCoef(a, psi), TwiddlesByFirst(psi, invPsi, j);
    var r := LinTerm(v, Powers(Pow(invPsi, 2 * j)));
    forall t | 0 <= t < n
      ensures Cong(Sum(n, Powers(z(t))), if t == j then n else 0, q)
    {
      FirstTwiddles(psi, invPsi, invN, n, q, t, j);
    }
    forall k | 0 <= k < n
      ensures Cong(r(k), Sum(n, Row(Kernel(c, z), k)), q)
    {
      ValueTerm(a, v, psi, invPsi, q, j, k);
    }
    Collapse(n, c, z, j, r, q);
    TwistedCoefAt(a, psi, j);
    EvalIsSum(v, Pow(invPsi, 2 * j));
  }

  lemma TwistedCoefAt(a: Poly, psi: int, j: nat)
    requires j < |a|
    ensures TwistedCoef(a, psi)(j) == a[j] * Pow(psi, j)
  {
    CoefAt(a, j);
    assert Powers(psi)(j) == Pow(psi, j);
  }

  lemma FirstTwiddles(psi: int, invPsi: int, invN: int, n: nat, q: int, t: nat, j: nat)
    requires NttRoot(psi, invPsi, invN, n, q) && t < n && j < n
    ensures Cong(Sum(n, Powers(TwiddlesByFirst(psi, invPsi, j)(t))), if t == j then n else 0, q)
  {
    hide Twiddle, Powers, Sum, NttRoot;
    Orthogonal(psi, invPsi, invN, n, q, t, j);
  }

  lemma ValueTerm(a: Poly, v: Poly, psi: int, invPsi: int, q: int, j: nat, k: nat)
    requires |a| == |v| && k < |v| && Cong(v[k], Eval(a, Pow(psi, 2 * k + 1)), q)
    ensures Cong(LinTerm(v, Powers(Pow(invPsi, 2 * j)))(k),
                 Sum(|a|, Row(Kernel(TwistedCoef(a, psi), TwiddlesByFirst(psi, invPsi, j)), k)), q)
  {
    hide Coef, Eval, Pow, Kernel, Row, Sum, TwistedCoef, TwiddlesByFirst;
    CoefAt(v, k);
    var w := Pow(Pow(invPsi, 2 * j), k);
    CongRefl(w, q);
    CongMul(w, w, v[k], Eval(a, Pow(psi, 2 * k + 1)), q);
    IntMulComm(v[k], w);
    KernelRow(a, psi, invPsi, j, k);
  }

  lemma EvalIsSum(a: Poly, x: int)
    requires |a| > 0
    ensures Eval(a, x) == Sum(|a|, LinTerm(a, Powers(x)))
  {}

  /** Scaling by 1/n and untwisting recovers the coefficient. */
  lemma InverseOfForward(a: Poly, v: Poly, psi: int, invPsi: int, invN: int, n: nat, q: int, j: nat)
    requires |a| == |v| == n && j < n && NttRoot(psi, invPsi, invN, n, q)
    requires forall k :: 0 <= k < n ==> Cong(v[k], Eval(a, Pow(psi, 2 * k + 1)), q)
    ensures Cong(Eval(v, Pow(invPsi, 2 * j)) * invN * Pow(invPsi, j), a[j], q)
  {
    SumOfValues(a, v, psi, invPsi, invN, n, q, j);
    InversePower(psi, invPsi, j, q);
    Unscale(Eval(v, Pow(invPsi, 2 * j)), a[j], Pow(psi, j), Pow(invPsi, j), n, invN, q);
  }

  lemma Unscale(e: int, a: int, p: int, p': int, n: int, n': int, q: int)
    requires Cong(e, a * p * n, q) && Cong(p * p', 1, q) && Cong(n * n', 1, q)
    ensures Cong(e * n' * p', a, q)
  {
    CongRefl(n' * p', q);
    CongMul(e, a * p * n, n' * p', n' * p', q);
    CongMul(p * p', 1, n * n', 1, q);
    CongRefl(a, q);
    CongMul(a, a, p * p' * (n * n'), 1, q);
    RegroupUnscale(e, a, p, p', n, n');
    CongTrans(e * n' * p', a * (p * p' * (n * n')), a, q);
  }

  lemma RegroupUnscale(e: int, a: int, p: int, p': int, n: int, n': int)
    ensures e * n' * p' == e * (n' * p')
    ensures a * p * n * (n' * p') == a * (p * p' * (n * n'))
  {
    assert p * n * (n' * p') == p * p' * (n * n');
    assert a * p * n * (n' * p') == a * (p * n * (n' * p'));
  }

  // ------------------------------------------------------ forward after inverse

  ghost function TwiddlesBySecond(psi: int, invPsi: int, k: nat): int -> int {
    l => if l < 0 then 0 else Twiddle(psi, invPsi, k, l)
  }

  ghost function Coefs(v: Poly): int -> int
    requires |v| > 0
  {
    l => Coef(v, l)
  }

  lemma CoefsAt(v: Poly, l: nat)
    requires l < |v|
    ensures Coefs(v)(l) == v[l]
  {
    CoefAt(v, l);
  }

  lemma KernelEntry2(v: Poly, psi: int, invPsi: int, k: nat, j: nat, l: nat)
    requires l < |v|
    ensures Pow(Pow(psi, 2 * k), j) * LinTerm(v, Powers(Pow(invPsi, 2 * j)))(l)
         == Row(Kernel(Coefs(v), TwiddlesBySecond(psi, invPsi, k)), j)(l)
  {
    hide Coef, Pow, Coefs;
    CoefAt(v, l);
    CoefsAt(v, l);
    ExchangePower(invPsi, j, l);
    PowBase(Pow(psi, 2 * k), Pow(invPsi, 2 * l), j);
    OddTerm(Pow(Pow(psi, 2 * k), j), v[l], Pow(Pow(invPsi, 2 * l), j));
    KernelAt(Coefs(v), TwiddlesBySecond(psi, invPsi, k), j, l);
    assert TwiddlesBySecond(psi, invPsi, k)(l) == Pow(psi, 2 * k) * Pow(invPsi, 2 * l);
    assert LinTerm(v, Powers(Pow(invPsi, 2 * j)))(l) == v[l] * Pow(Pow(invPsi, 2 * j), l);
  }

  lemma KernelRow2(v: Poly, psi: int, invPsi: int, k: nat, j: nat)
    requires |v| > 0
    ensures Pow(Pow(psi, 2 * k), j) * Eval(v, Pow(invPsi, 2 * j))
         == Sum(|v|, Row(Kernel(Coefs(v), TwiddlesBySecond(psi, invPsi, k)), j))
  {
    hide Kernel, LinTerm, Powers, Pow, Coefs, TwiddlesBySecond, Row;
    var w := Pow(Pow(psi, 2 * k), j);
    var f := LinTerm(v, Powers(Pow(invPsi, 2 * j)));
    var row := Row(Kernel(Coefs(v), TwiddlesBySecond(psi, invPsi, k)), j);
    forall l | 0 <= l < |v|
      ensures row(l) == w * f(l)
    {
      KernelEntry2(v, psi, invPsi, k, j, l);
    }
    SumScale(|v|, w, f, row);
  }

  ghost function ValueRow(v: Poly, psi: int, invPsi: int, k: nat): int -> int
    requires |v| > 0
  {
    j => if j < 0 then 0 else Pow(Pow(psi, 2 * k), j) * Eval(v, Pow(invPsi, 2 * j))
  }

  lemma SumOfCoefficients(v: Poly, psi: int, invPsi: int, invN: int, n: nat, q: int, k: nat)
    requires |v| == n && k < n && NttRoot(psi, invPsi, invN, n, q)
    ensures Cong(Sum(n, ValueRow(v, psi, invPsi, k)), v[k] * n, q)
  {
    hide Twiddle, Kernel, Eval, Row;
    var c, z := Coefs(v), TwiddlesBySecond(psi, invPsi, k);
    var r := ValueRow(v, psi, invPsi, k);
    forall t | 0 <= t < n
      ensures Cong(Sum(n, Powers(z(t))), if t == k then n else 0, q)
    {
      Orthogonal(psi, invPsi, invN, n, q, k, t);
    }
    forall j | 0 <= j < n
      ensures Cong(r(j), Sum(n, Row(Kernel(c, z), j)), q)
    {
      KernelRow2(v, psi, invPsi, k, j);
      CongRefl(r(j), q);
    }
    Collapse(n, c, z, k, r, q);
    CoefAt(v, k);
  }

  /** The terms of a(psi^(2k+1)), for a recovered from the values v. */
  lemma RecoveredTerm(a: Poly, v: Poly, psi: int, invPsi: int, invN: int, q: int, k: nat, j: nat)
    requires |a| == |v| && j < |a| && Cong(psi * invPsi, 1, q)
    requires Cong(a[j], Eval(v, Pow(invPsi, 2 * j)) * invN * Pow(invPsi, j), q)
    ensures Cong(LinTerm(a, Powers(Pow(psi, 2 * k + 1)))(j), invN * ValueRow(v, psi, invPsi, k)(j), q)
  {
    hide Coef, Eval, Pow;
    CoefAt(a, j);
    var e, x, p, p' := Eval(v, Pow(invPsi, 2 * j)), Pow(Pow(psi, 2 * k), j), Pow(psi, j), Pow(invPsi, j);
    SplitPower(psi, k, j);
    ExchangePower(psi, k, j);
    InversePower(psi, invPsi, j, q);
    Retwist(a[j], e, x, p, p', invN, q);
  }

  lemma Retwist(a: int, e: int, x: int, p: int, p': int, n': int, q: int)
    requires Cong(a, e * n' * p', q) && Cong(p * p', 1, q)
    ensures Cong(a * (p * x), n' * (x * e), q)
  {
    CongRefl(p * x, q);
    CongMul(a, e * n' * p', p * x, p * x, q);
    CongRefl(n' * (x * e), q);
    CongMul(n' * (x * e), n' * (x * e), p * p', 1, q);
    RegroupRetwist(e, x, p, p', n');
    CongTrans(a * (p * x), n' * (x * e) * (p * p'), n' * (x * e), q);
  }

  lemma RegroupRetwist(e: int, x: int, p: int, p': int, n': int)
    ensures e * n' * p' * (p * x) == n' * (x * e) * (p * p')
  {
    assert e * n' * p' * (p * x) == e * n' * (p' * p * x);
    assert n' * (x * e) * (p * p') == e * n' * (x * (p * p'));
    assert p' * p * x == x * (p * p');
  }

  lemma ForwardOfInverse(a: Poly, v: Poly, psi: int, invPsi: int, invN: int, n: nat, q: int, k: nat)
    requires |a| == |v| == n && k < n && NttRoot(psi, invPsi, invN, n, q)
    requires forall j :: 0 <= j < n ==> Cong(a[j], Eval(v, Pow(invPsi, 2 * j)) * invN * Pow(invPsi, j), q)
    ensures Cong(Eval(a, Pow(psi, 2 * k + 1)), v[k], q)
  {
    hide Eval, LinTerm, ValueRow, Powers, Pow, Sum;
    var f := LinTerm(a, Powers(Pow(psi, 2 * k + 1)));
    var g := ScaledTerm(ValueRow(v, psi, invPsi, k), invN);
    forall j | 0 <= j < n ensures Cong(f(j), g(j), q) {
      RecoveredTerm(a, v, psi, invPsi, invN, q, k, j);
    }
    SumCong(n, f, g, q);
    SumScale(n, invN, ValueRow(v, psi, invPsi, k), g);
    SumOfCoefficients(v, psi, invPsi, invN, n, q, k);
    EvalIsSum(a, Pow(psi, 2 * k + 1));
    var s := Sum(n, ValueRow(v, psi, invPsi, k));
    CancelScale(s, v[k], n, invN, q);
    CongTrans(Eval(a, Pow(psi, 2 * k + 1)), invN * s, v[k], q);
  }

  lemma CancelScale(s: int, v: int, n: int, n': int, q: int)
    requires Cong(s, v * n, q) && Cong(n * n', 1, q)
    ensures Cong(n' * s, v, q)
  {
    CongRefl(n', q);
    CongMul(n', n', s, v * n, q);
    CongRefl(v, q);
    CongMul(v, v, n * n', 1, q);
    assert n' * (v * n) == v * (n * n');
    CongTrans(n' * s, v * (n * n'), v, q);
  }
}
