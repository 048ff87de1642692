/** Primes, Fermat's little theorem, and products of distinct primes. */
module NumberTheory {
  import opened Integers
  import opened Sums

  ghost predicate IsPrime(p: int) {
    p >= 2 && forall d: int :: 2 <= d < p ==> !Divides(d, p)
  }

  lemma {:induction false} EuclidStep(p: int, a: int, b: int)
    requires IsPrime(p) && 0 < a < p && Divides(p, a * b)
    ensures Divides(p, b)
    decreases a
  {
    if a > 1 {
      var q, r := p / a, p % a;
      DivModId(p, a);
      if r == 0 {
        DividesBy(a, p, q);
      }
      var k := DividesQuot(p, a * b);
      EuclidIdentity(p, q, a, r, b, k);
      DividesBy(p, r * b, b - q * k);
      EuclidStep(p, r, b);
    }
  }

  lemma EuclidIdentity(p: int, q: int, a: int, r: int, b: int, k: int)
    requires p == q * a + r && a * b == k * p
    ensures r * b == (b - q * k) * p
  {
    calc {
      r * b;
      (p - q * a) * b;
      p * b - q * (a * b);
      p * b - q * (k * p);
      (b - q * k) * p;
    }
  }

  /** Euclid's lemma. */
  lemma PrimeDivides(p: int, a: int, b: int)
    requires IsPrime(p) && Divides(p, a * b) && !Divides(p, a)
    ensures Divides(p, b)
  {
    var r := a % p;
    ModCong(a, p);
    CongRefl(b, p);
    CongMul(r, a, b, b, p);
    var k := CongQuot(r * b, a * b, p);
    var l := DividesQuot(p, a * b);
    assert k * p + l * p == (k + l) * p;
    DividesBy(p, r * b, k + l);
    if r == 0 {
      DivModId(a, p);
      DividesBy(p, a, a / p);
    }
    EuclidStep(p, r, b);
  }

  /** A factor prime to `p` can be cancelled from a congruence modulo `p`. */
  lemma CancelPrime(p: int, a: int, x: int, y: int)
    requires IsPrime(p) && !Divides(p, a) && Cong(a * x, a * y, p)
    ensures Cong(x, y, p)
  {
    assert a * x - a * y == a * (x - y);
    PrimeDivides(p, a, x - y);
  }

  lemma SmallNotDivisible(p: int, a: int)
    requires 0 < a < p
    ensures !Divides(p, a)
  {
    if Divides(p, a) {
      SmallMultiple(a, p);
    }
  }

  lemma {:induction false} PowNotDivisible(p: int, a: int, e: nat)
    requires IsPrime(p) && !Divides(p, a)
    ensures !Divides(p, Pow(a, e))
  {
    if e == 0 {
      SmallNotDivisible(p, 1);
    } else {
      PowNotDivisible(p, a, e - 1);
      if Divides(p, Pow(a, e)) {
        PrimeDivides(p, a, Pow(a, e - 1));
      }
    }
  }

  // -------------------------------------------------- binomials and Fermat

  ghost function Choose(n: nat, k: nat): int {
    if k == 0 then 1 else if n == 0 then 0 else Choose(n - 1, k) + Choose(n - 1, k - 1)
  }

  lemma {:induction false} ChooseAbove(n: nat, k: nat)
    requires k > n
    ensures Choose(n, k) == 0
  {
    if n > 0 {
      ChooseAbove(n - 1, k);
      ChooseAbove(n - 1, k - 1);
    }
  }

  lemma {:induction false} ChooseAll(n: nat)
    ensures Choose(n, n) == 1
  {
    if n > 0 {
      ChooseAll(n - 1);
      ChooseAbove(n - 1, n);
    }
  }

  lemma {:induction false} ChooseAbsorb(n: nat, k: nat)
    requires n >= 1 && k >= 1
    ensures k * Choose(n, k) == n * Choose(n - 1, k - 1)
  {
    if n == 1 {
      if k > 1 {
        ChooseAbove(1, k);
        ChooseAbove(0, k - 1);
      } else {
        assert Choose(1, 1) == Choose(0, 1) + Choose(0, 0);
      }
    } else {
      ChooseAbsorb(n - 1, k);
      if k > 1 {
        ChooseAbsorb(n - 1, k - 1);
      }
      AbsorbArith(n, k, Choose(n - 1, k), Choose(n - 1, k - 1), Choose(n - 2, k - 1),
                  if k > 1 then Choose(n - 2, k - 2) else 0);
    }
  }

  lemma AbsorbArith(n: int, k: int, x: int, y: int, u: int, v: int)
    requires k * x == (n - 1) * u && (k - 1) * y == (n - 1) * v && y == u + v
    ensures k * (x + y) == n * y
  {
    calc {
      k * (x + y);
      k * x + (k - 1) * y + y;
      (n - 1) * u + (n - 1) * v + y;
      (n - 1) * (u + v) + y;
      n * y;
    }
  }

  lemma PrimeChoose(p: int, k: nat)
    requires IsPrime(p) && 0 < k < p
    ensures Divides(p, Choose(p, k))
  {
    ChooseAbsorb(p, k);
    DividesBy(p, k * Choose(p, k), Choose(p - 1, k - 1));
    SmallNotDivisible(p, k);
    PrimeDivides(p, k, Choose(p, k));
  }

  ghost function BinomialTerm(n: nat, a: int): int -> int {
    k => if k < 0 then 0 else Choose(n, k) * Pow(a, k)
  }

  /** The terms of `a * (a + 1)^(n-1)`, one position up. */
  ghost function RaisedTerm(n: nat, a: int): int -> int {
    k => if k <= 0 then 0 else a * BinomialTerm(n, a)(k - 1)
  }

  lemma PascalRow(n: nat, a: int, k: int)
    requires n >= 1 && k >= 0
    ensures BinomialTerm(n, a)(k) == BinomialTerm(n - 1, a)(k) + RaisedTerm(n - 1, a)(k)
  {
    if k > 0 {
      PascalTerm(Choose(n - 1, k), Choose(n - 1, k - 1), a, Pow(a, k - 1));
    }
  }

  lemma {:induction false} Binomial(n: nat, a: int)
    ensures Pow(a + 1, n) == Sum(n + 1, BinomialTerm(n, a))
  {
    if n == 0 {
      assert Sum(1, BinomialTerm(0, a)) == Sum(0, BinomialTerm(0, a)) + BinomialTerm(0, a)(0);
    } else {
      var t, up := BinomialTerm(n - 1, a), RaisedTerm(n - 1, a);
      Binomial(n - 1, a);
      ChooseAbove(n - 1, n);
      assert Sum(n + 1, t) == Sum(n, t) by {
        assert t(n) == 0 * Pow(a, n);
      }
      RaisedSum(n - 1, a);
      forall k | 0 <= k < n + 1
        ensures BinomialTerm(n, a)(k) == t(k) + up(k)
      {
        PascalRow(n, a, k);
      }
      SumAdd(n + 1, t, up, BinomialTerm(n, a));
      PlusOneTimes(a, Sum(n, t));
    }
  }

  lemma PlusOneTimes(a: int, s: int)
    ensures (a + 1) * s == s + a * s
  {}

  lemma RaisedSum(n: nat, a: int)
    ensures Sum(n + 2, RaisedTerm(n, a)) == a * Sum(n + 1, BinomialTerm(n, a))
  {
    SumFirst(n + 2, RaisedTerm(n, a));
    SumScale(n + 1, a, BinomialTerm(n, a), Shift(RaisedTerm(n, a), 1));
  }

  lemma PascalTerm(c: int, d: int, a: int, x: int)
    ensures (c + d) * (a * x) == c * (a * x) + a * (d * x)
  {}

  lemma FreshmansDream(p: int, a: int)
    requires IsPrime(p)
    ensures Cong(Pow(a + 1, p), Pow(a, p) + 1, p)
  {
    var t := BinomialTerm(p, a);
    Binomial(p, a);
    ChooseAll(p);
    assert Sum(p + 1, t) == Sum(p, t) + t(p);
    forall k | 0 <= k < p && k != 0
      ensures Cong(t(k), 0, p)
    {
      PrimeChoose(p, k);
      var c := DividesQuot(p, Choose(p, k));
      assert c * p * Pow(a, k) == c * Pow(a, k) * p;
      CongBy(t(k), 0, p, c * Pow(a, k));
    }
    SumSingleCong(p, t, 0, p);
    CongRefl(Pow(a, p), p);
    CongAdd(Sum(p, t), 1, Pow(a, p), Pow(a, p), p);
  }

  lemma {:induction false} FermatNat(p: int, a: nat)
    requires IsPrime(p)
    ensures Cong(Pow(a, p), a, p)
  {
    if a == 0 {
      CongRefl(0, p);
    } else {
      FermatNat(p, a - 1);
      FreshmansDream(p, a - 1);
      CongRefl(1, p);
      CongAdd(Pow(a - 1, p), a - 1, 1, 1, p);
      CongTrans(Pow(a, p), Pow(a - 1, p) + 1, a, p);
    }
  }

  /** Fermat's little theorem. */
  lemma Fermat(p: int, a: int)
    requires IsPrime(p) && !Divides(p, a)
    ensures Cong(Pow(a, p - 1), 1, p)
  {
    var r := a % p;
    ModCong(a, p);
    FermatNat(p, r);
    CongPow(r, a, p, p);
    CongSym(Pow(r, p), Pow(a, p), p);
    CongTrans(Pow(a, p), Pow(r, p), r, p);
    CongTrans(Pow(a, p), r, a, p);
    assert Pow(a, p) == a * Pow(a, p - 1) && a == a * 1;
    CancelPrime(p, a, Pow(a, p - 1), 1);
  }

  /** The value Fermat's theorem gives for the inverse of `v` modulo the prime `p`. */
  ghost function Inverse(v: int, p: int): (r: int)
    requires p >= 2
    ensures 0 <= r < p
  {
    Pow(v, p - 2) % p
  }

  lemma InverseCorrect(v: int, p: int)
    requires IsPrime(p) && !Divides(p, v)
    ensures Cong(v * Inverse(v, p), 1, p)
  {
    Fermat(p, v);
    ModCong(Pow(v, p - 2), p);
    CongRefl(v, p);
    CongMul(v, v, Inverse(v, p), Pow(v, p - 2), p);
    CongTrans(v * Inverse(v, p), Pow(v, p - 1), 1, p);
  }

  /** Dividing by `v` modulo `p` is multiplying by its inverse. */
  lemma DivideByInverse(p: int, v: int, x: int, y: int)
    requires IsPrime(p) && !Divides(p, v) && Cong(v * x, y, p)
    ensures Cong(x, y * Inverse(v, p), p)
  {
    hide Inverse;
    var w := Inverse(v, p);
    InverseCorrect(v, p);
    CongRefl(y, p);
    CongMul(v * w, 1, y, y, p);
    assert v * w * y == v * (y * w) && 1 * y == y;
    CongSym(v * (y * w), y, p);
    CongTrans(v * x, y, v * (y * w), p);
    CancelPrime(p, v, x, y * w);
  }

  // --------------------------------------------- products of distinct primes

  ghost function Product(qs: seq<int>): int {
    if |qs| == 0 then 1 else Product(qs[..|qs| - 1]) * qs[|qs| - 1]
  }

  /** Distinct primes: what the residue number system needs of its moduli. */
  ghost predicate PrimeBasis(qs: seq<int>) {
    && |qs| > 0
    && (forall i :: 0 <= i < |qs| ==> IsPrime(qs[i]))
    && (forall i, j :: 0 <= i < j < |qs| ==> qs[i] != qs[j])
  }

  ghost function Without(qs: seq<int>, i: int): seq<int>
    requires 0 <= i < |qs|
  {
    qs[..i] + qs[i + 1..]
  }

  /** The product of all the moduli but the `i`-th. */
  ghost function Cofactor(qs: seq<int>, i: int): int
    requires 0 <= i < |qs|
  {
    Product(Without(qs, i))
  }

  lemma {:induction false} ProductCofactor(qs: seq<int>, i: int)
    requires 0 <= i < |qs|
    ensures Product(qs) == Cofactor(qs, i) * qs[i]
  {
    var n := |qs| - 1;
    if i == n {
      assert Without(qs, i) == qs[..n];
    } else {
      var init := qs[..n];
      ProductCofactor(init, i);
      var w := Without(qs, i);
      assert w[..|w| - 1] == Without(init, i);
      assert w[|w| - 1] == qs[n];
      assert Product(w) == Cofactor(init, i) * qs[n];
      MulSwapLast(Cofactor(init, i), qs[i], qs[n]);
    }
  }

  lemma MulSwapLast(a: int, b: int, c: int)
    ensures a * b * c == a * c * b
  {}

  lemma {:induction false} ProductPos(qs: seq<int>)
    requires forall i :: 0 <= i < |qs| ==> qs[i] >= 1
    ensures Product(qs) >= 1
  {
    if |qs| > 0 {
      var n := |qs| - 1;
      ProductPos(qs[..n]);
      MulMono(1, qs[n], Product(qs[..n]));
    }
  }

  lemma {:induction false} ProductConcat(ps: seq<int>, qs: seq<int>)
    ensures Product(ps + qs) == Product(ps) * Product(qs)
  {
    if |qs| == 0 {
      assert ps + qs == ps;
    } else {
      var n := |qs| - 1;
      assert (ps + qs)[..|ps + qs| - 1] == ps + qs[..n];
      ProductConcat(ps, qs[..n]);
      assert Product(ps) * Product(qs[..n]) * qs[n] == Product(ps) * (Product(qs[..n]) * qs[n]);
    }
  }

  lemma {:induction false} PrimeNotDividesProduct(p: int, qs: seq<int>)
    requires IsPrime(p)
    requires forall i :: 0 <= i < |qs| ==> IsPrime(qs[i]) && qs[i] != p
    ensures !Divides(p, Product(qs))
  {
    if |qs| == 0 {
      SmallNotDivisible(p, 1);
    } else {
      var n := |qs| - 1;
      PrimeNotDividesProduct(p, qs[..n]);
      if Divides(p, Product(qs)) {
        PrimeDivides(p, Product(qs[..n]), qs[n]);
        var k := DividesQuot(p, qs[n]);
        PrimeFactors(qs[n], k, p);
      }
    }
  }

  /** A prime has no prime divisor but itself. */
  lemma PrimeFactors(q: int, k: int, p: int)
    requires IsPrime(q) && IsPrime(p) && q == k * p
    ensures p == q
  {
    if p < q {
      DividesBy(p, q, k);
    } else if q < p {
      DividesBy(p, q, k);
      SmallMultiple(q, p);
    }
  }

  lemma CofactorCoprime(qs: seq<int>, i: int)
    requires PrimeBasis(qs) && 0 <= i < |qs|
    ensures !Divides(qs[i], Cofactor(qs, i))
  {
    var w := Without(qs, i);
    forall j | 0 <= j < |w|
      ensures IsPrime(w[j]) && w[j] != qs[i]
    {
      assert w[j] == if j < i then qs[j] else qs[j + 1];
    }
    PrimeNotDividesProduct(qs[i], w);
  }

  lemma PrimeBasisPrefix(qs: seq<int>, n: nat)
    requires PrimeBasis(qs) && 0 < n <= |qs|
    ensures PrimeBasis(qs[..n])
  {
    var ps := qs[..n];
    forall i | 0 <= i < |ps| ensures IsPrime(ps[i]) {
      assert ps[i] == qs[i];
    }
    forall i, j | 0 <= i < j < |ps| ensures ps[i] != ps[j] {
      assert ps[i] == qs[i] && ps[j] == qs[j];
    }
  }

  /** Uniqueness half of the Chinese remainder theorem. */
  lemma {:induction false} CrtUnique(qs: seq<int>, x: int, y: int)
    requires PrimeBasis(qs)
    requires forall i :: 0 <= i < |qs| ==> Cong(x, y, qs[i])
    ensures Cong(x, y, Product(qs))
  {
    var n := |qs| - 1;
    var q := qs[n];
    if n == 0 {
      assert Product(qs[..0]) == 1;
      assert Product(qs) == 1 * q;
    } else {
      PrimeBasisPrefix(qs, n);
      CrtUnique(qs[..n], x, y);
      var P := Product(qs[..n]);
      var k := CongQuot(x, y, P);
      forall j | 0 <= j < n ensures IsPrime(qs[..n][j]) && qs[..n][j] != q {
        assert qs[..n][j] == qs[j];
      }
      PrimeNotDividesProduct(q, qs[..n]);
      assert x - y == P * k;
      PrimeDivides(q, P, k);
      var l := DividesQuot(q, k);
      assert l * q * P == l * (P * q);
      CongBy(x, y, Product(qs), l);
    }
  }

  lemma {:induction false} CongProduct(qs: seq<int>, x: int, y: int, i: int)
    requires 0 <= i < |qs| && Cong(x, y, Product(qs))
    ensures Cong(x, y, qs[i])
  {
    ProductCofactor(qs, i);
    CongFactor(x, y, qs[i], Cofactor(qs, i));
  }
}
