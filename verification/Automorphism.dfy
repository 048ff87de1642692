/** X -> X^k permutes the N monomials up to sign when k is prime to 2N. */
module Automorphisms {
  import opened Integers
  import opened Sums
  import opened Negacyclic
  import opened Substitution

  function Gcd(a: nat, b: nat): (g: nat)
    decreases b
  {
    if b == 0 then a else
      DivModId(a, b);
      Gcd(b, a % b)
  }

  lemma {:induction false} Bezout(a: nat, b: nat) returns (u: int, v: int)
    ensures u * a + v * b == Gcd(a, b)
    decreases b
  {
    if b == 0 {
      u, v := 1, 0;
    } else {
      DivModId(a, b);
      var u', v' := Bezout(b, a % b);
      u, v := v', u' - v' * (a / b);
      BezoutArith(a, b, a / b, a % b, u', v');
    }
  }

  lemma BezoutArith(a: int, b: int, q: int, r: int, u: int, v: int)
    requires a == q * b + r
    ensures v * a + (u - v * q) * b == u * b + v * r
  {
    assert v * (q * b + r) == v * q * b + v * r;
  }

  lemma {:induction false} GcdDivides(a: nat, b: nat)
    ensures Divides(Gcd(a, b), a) && Divides(Gcd(a, b), b)
    decreases b
  {
    if b == 0 {
      DividesBy(a, a, 1);
      DividesBy(a, 0, 0);
    } else {
      DivModId(a, b);
      GcdDivides(b, a % b);
      var g := Gcd(b, a % b);
      var k := DividesQuot(g, b);
      var l := DividesQuot(g, a % b);
      assert a / b * (k * g) + l * g == (a / b * k + l) * g;
      DividesBy(g, a, a / b * k + l);
    }
  }

  /** An odd number has no common factor with a power of two. */
  lemma {:induction false} OddDivisorOfPower(g: nat, l: nat)
    requires g % 2 == 1 && Divides(g, TwoTo(l))
    ensures g == 1
  {
    var c := DividesQuot(g, TwoTo(l));
    if l == 0 {
      if g > 1 {
        SmallMultiple(1, g);
      }
    } else {
      TwoToStep(l - 1);
      DivModId(c, 2);
      DivModId(g, 2);
      OddHalf(g, g / 2, c, c / 2, c % 2, TwoTo(l - 1));
      DividesBy(g, TwoTo(l - 1), c / 2);
      OddDivisorOfPower(g, l - 1);
    }
  }

  lemma OddHalf(g: int, h: int, c: int, d: int, r: int, p: int)
    requires g == h * 2 + 1 && c == d * 2 + r && 0 <= r < 2 && 2 * p == c * g
    ensures p == d * g
  {
    assert (d * 2 + r) * g == 2 * (d * g) + r * g;
  }

  lemma EvenPart(k: int, g: int, c: int)
    requires k == c * g && k % 2 == 1
    ensures g % 2 == 1
  {
    EvenFactor(g, c);
  }

  lemma EvenFactor(x: int, y: int)
    ensures x % 2 == 0 ==> y * x % 2 == 0
  {
    DivModId(x, 2);
    if x % 2 == 0 {
      assert y * (x / 2 * 2) == y * (x / 2) * 2;
      DivModUnique(y * x, 2, y * (x / 2), 0);
    }
  }

  /** For a power-of-two degree the coprimality test is the parity test. */
  lemma OddIsCoprime(k: nat, l: nat)
    ensures TwoTo(l + 1) == 2 * TwoTo(l)
    ensures k % 2 == 1 ==> (DivModId(k, 2 * TwoTo(l)); Gcd(k % (2 * TwoTo(l)), 2 * TwoTo(l)) == 1)
  {
    TwoToStep(l);
    if k % 2 == 1 {
      var m := TwoTo(l + 1);
      DivModId(k, m);
      OddRemainder(k, k / m, k % m, TwoTo(l));
      var g := Gcd(k % m, m);
      GcdDivides(k % m, m);
      var c := DividesQuot(g, k % m);
      EvenPart(k % m, g, c);
      OddDivisorOfPower(g, l + 1);
    }
  }

  lemma OddRemainder(k: int, q: int, r: int, p: int)
    requires k == q * (2 * p) + r && k % 2 == 1
    ensures r % 2 == 1
  {
    assert q * (2 * p) == 2 * (q * p);
  }

  // ------------------------------------------------------------------ inverses

  /** `k` has the inverse `u` modulo 2N. */
  ghost predicate Unit(k: int, u: int, n: nat) {
    Cong(k * u, 1, 2 * n)
  }

  lemma UnitOf(k: nat, n: nat) returns (u: int)
    requires n > 0 && (DivModId(k, 2 * n); Gcd(k % (2 * n), 2 * n) == 1)
    ensures Unit(k, u, n)
  {
    DivModId(k, 2 * n);
    var v;
    u, v := Bezout(k % (2 * n), 2 * n);
    UnitArith(k, k / (2 * n), k % (2 * n), u, v, 2 * n);
    CongBy(k * u, 1, 2 * n, k / (2 * n) * u - v);
  }

  lemma UnitArith(k: int, q: int, r: int, u: int, v: int, m: int)
    requires k == q * m + r && u * r + v * m == 1
    ensures k * u == 1 + (q * u - v) * m
  {
    assert (q * m + r) * u == q * u * m + u * r;
  }

  lemma UnitOdd(k: int, u: int, n: nat)
    requires n > 0 && Unit(k, u, n)
    ensures k % 2 == 1 && u % 2 == 1
  {
    var c := CongQuot(k * u, 1, 2 * n);
    assert c * (2 * n) == 2 * (c * n);
    EvenFactor(k, u);
    EvenFactor(u, k);
    IntMulComm(k, u);
  }

  /** Every automorphism is undone by the automorphism of the inverse element. */
  lemma SubstInverse(a: Poly, k: int, u: int)
    requires |a| > 0 && Unit(k, u, |a|)
    ensures PSubst(PSubst(a, k), u) == a && PSubst(PSubst(a, u), k) == a
  {
    UnitOdd(k, u, |a|);
    SubstCompose(a, u, k);
    SubstCompose(a, k, u);
    IntMulComm(k, u);
    SubstMod(a, k * u, 1);
    SubstOne(a);
  }

  // -------------------------------------------------------- the scattered position

  /** Distinct monomials go to distinct positions. */
  lemma PosInjective(n: nat, k: int, u: int, i: nat, i': nat)
    requires n > 0 && i < n && i' < n && Unit(k, u, n) && Pos(n, k * i) == Pos(n, k * i')
    ensures i == i'
  {
    var s := PosCong(n, k * i);
    var s' := PosCong(n, k * i');
    var m := Pos(n, k * i);
    var a, b := k * i, k * i';
    // a == m + s n, b == m + s' n modulo 2n
    CongSym(b, m + s' * n, 2 * n);
    CongRefl(s * n, 2 * n);
    CongRefl(s' * n, 2 * n);
    CongSub(a, m + s * n, b, m + s' * n, 2 * n) by {
      CongSym(m + s' * n, b, 2 * n);
    }
    assert m + s * n - (m + s' * n) == (s - s') * n;
    CongRefl(u, 2 * n);
    CongMul(u, u, a - b, (s - s') * n, 2 * n);
    CancelUnit(k, u, n, i, i', s, s');
    if i != i' {
      SmallMultiple(i - i', n);
    }
  }

  lemma CancelUnit(k: int, u: int, n: nat, i: int, i': int, s: int, s': int)
    requires n > 0 && Unit(k, u, n) && Cong(u * (k * i - k * i'), u * ((s - s') * n), 2 * n)
    ensures Divides(n, i - i')
  {
    var c := CongQuot(u * (k * i - k * i'), u * ((s - s') * n), 2 * n);
    var d := CongQuot(k * u, 1, 2 * n);
    CancelArith(k, u, n, i - i', s - s', c, d);
    assert k * i - k * i' == k * (i - i');
    DividesBy(n, i - i', u * (s - s') + c * 2 - d * 2 * (i - i'));
  }

  lemma CancelArith(k: int, u: int, n: int, x: int, s: int, c: int, d: int)
    requires k * u == 1 + d * (2 * n) && u * (k * x) == u * (s * n) + c * (2 * n)
    ensures x == (u * s + c * 2 - d * 2 * x) * n
  {
    calc {
      u * (k * x);
      k * u * x;
      (1 + d * (2 * n)) * x;
      x + d * 2 * x * n;
    }
    assert u * (s * n) + c * (2 * n) == (u * s + c * 2) * n;
    assert (u * s + c * 2 - d * 2 * x) * n == (u * s + c * 2) * n - d * 2 * x * n;
  }

  lemma PosCong(n: nat, e: int) returns (s: int)
    requires n > 0
    ensures Cong(e, Pos(n, e) + s * n, 2 * n)
    ensures s == 0 || s == 1
  {
    DivModId(e, 2 * n);
    s := if e % (2 * n) < n then 0 else 1;
    CongBy(e, Pos(n, e) + s * n, 2 * n, e / (2 * n));
  }

  /** The monomial that goes to position `m`. */
  function Source(n: nat, u: int, m: nat): (i: nat)
    requires n > 0
    ensures i < n
  {
    Pos(n, u * m)
  }

  lemma SourceCorrect(n: nat, k: int, u: int, m: nat)
    requires n > 0 && m < n && Unit(k, u, n)
    ensures Pos(n, k * Source(n, u, m)) == m
  {
    hide Pos, Cong;
    var i := Source(n, u, m);
    var s := PosCong(n, u * m);
    CongRefl(k, 2 * n);
    CongMul(k, k, u * m, i + s * n, 2 * n);
    CongRefl(m, 2 * n);
    CongMul(k * u, 1, m, m, 2 * n);
    assert k * u * m == k * (u * m) && 1 * m == m;
    CongSym(k * (u * m), m, 2 * n);
    CongTrans(m, k * (u * m), k * (i + s * n), 2 * n);
    // k i == m - k s n
    assert k * (i + s * n) == k * i + k * s * n;
    var c := CongQuot(m, k * i + k * s * n, 2 * n);
    FoldMultiple(n, m, -(k * s) + -(c * 2), k * i) by {
      FoldArith(m, k * i, k * s, c, n);
    }
  }

  lemma FoldArith(m: int, e: int, s: int, c: int, n: int)
    requires m == e + s * n + c * (2 * n)
    ensures e == m + (-s + -(c * 2)) * n
  {
    assert (-s + -(c * 2)) * n == -(s * n) - c * 2 * n;
  }

  /** Folding ignores multiples of N. */
  lemma FoldMultiple(n: nat, m: nat, c: int, e: int)
    requires n > 0 && m < n && e == m + c * n
    ensures Pos(n, e) == m
  {
    DivModId(c, 2);
    var h, r := c / 2, c % 2;
    assert c * n == h * (2 * n) + r * n;
    DivModUnique(e, 2 * n, h, m + r * n);
  }

  /** `apply_automorphism` writes every output position exactly once. */
  lemma WritesEachPositionOnce(n: nat, k: int, u: int, m: nat)
    requires n > 0 && m < n && Unit(k, u, n)
    ensures exists i: nat :: i < n && Pos(n, k * i) == m
    ensures forall i: nat, i': nat :: i < n && i' < n && Pos(n, k * i) == m && Pos(n, k * i') == m ==> i == i'
  {
    SourceCorrect(n, k, u, m);
    forall i: nat, i': nat | i < n && i' < n && Pos(n, k * i) == m && Pos(n, k * i') == m
      ensures i == i'
    {
      PosInjective(n, k, u, i, i');
    }
  }

  /** What the substitution puts at the position monomial `i` goes to. */
  lemma SubstScatter(a: Poly, k: int, u: int, i: nat)
    requires i < |a| && Unit(k, u, |a|)
    ensures PSubst(a, k)[Pos(|a|, k * i)] == Sgn(|a|, k * i) * a[i]
  {
    hide Coef, Pos, Sgn, Delta;
    var n := |a|;
    var m := Pos(n, k * i);
    var phi := SubstFn(n, k, m);
    var f := LinTerm(a, phi);
    forall i' | 0 <= i' < n && i' != i
      ensures f(i') == 0
    {
      DeltaAtFold(n, k * i', m);
      if m == Pos(n, k * i') {
        PosInjective(n, k, u, i, i');
      }
    }
    SumSingle(n, f, i);
    DeltaAtFold(n, k * i, m);
    CoefAt(a, i);
    IntMulComm(a[i], Sgn(n, k * i));
  }
}
