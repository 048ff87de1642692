/** Machine words, powers, and congruences over the integers.

    Machine integers are subset types of `int`, so that every assignment to a
    `u64` or `u128` carries the proof that the value fits.  Congruence is stated
    through an explicit quotient; modulus 0 therefore means equality, which lets
    one lemma serve both the exact and the modular reading of an identity. */
module Integers {

  const TWO_64: int := 0x1_0000_0000_0000_0000
  const TWO_128: int := 0x1_0000_0000_0000_0000_0000_0000_0000_0000

  type u64 = x: int | 0 <= x < 0x1_0000_0000_0000_0000
  type u128 = x: int | 0 <= x < 0x1_0000_0000_0000_0000_0000_0000_0000_0000

  function Abs(x: int): (r: int)
    ensures r >= 0
  {
    if x < 0 then -x else x
  }

  // ---------------------------------------------------------------- products

  lemma MulMono(a: int, b: int, c: int)
    requires a <= b && 0 <= c
    ensures a * c <= b * c
  {}

  lemma MulInterchange(a: int, b: int, c: int, d: int)
    ensures a * b * (c * d) == a * c * (b * d)
  {
    assert a * b * (c * d) == a * (b * c) * d;
  }

  lemma MulBound(a: int, A: int, b: int, B: int)
    requires 0 <= a <= A && 0 <= b <= B
    ensures 0 <= a * b <= A * B
  {
    MulMono(a, A, b);
    MulMono(b, B, A);
  }

  lemma AbsMul(a: int, b: int)
    ensures Abs(a * b) == Abs(a) * Abs(b)
  {
    if a < 0 && b < 0 {
      assert a * b == (-a) * (-b);
    } else if a < 0 {
      assert a * b == -((-a) * b);
    } else if b < 0 {
      assert a * b == -(a * (-b));
    }
  }

  // -------------------------------------------------- division with remainder

  lemma DivModId(x: int, m: int)
    requires m > 0
    ensures x == x / m * m + x % m && 0 <= x % m < m
  {}

  lemma QuotientUnique(m: int, q: int, r: int, q': int, r': int)
    requires q * m + r == q' * m + r'
    requires 0 <= r < m && 0 <= r' < m
    ensures q == q' && r == r'
  {
    if q < q' {
      MulMono(q + 1, q', m);
    } else if q' < q {
      MulMono(q' + 1, q, m);
    }
  }

  /** The quotient and the remainder are determined by the division identity. */
  lemma DivModUnique(x: int, m: int, q: int, r: int)
    requires x == q * m + r && 0 <= r < m
    ensures x / m == q && x % m == r
  {
    DivModId(x, m);
    QuotientUnique(m, q, r, x / m, x % m);
  }

  lemma SmallMod(x: int, m: int)
    requires 0 <= x < m
    ensures x % m == x && x / m == 0
  {
    DivModUnique(x, m, 0, x);
  }

  // -------------------------------------------------------------- congruence

  ghost function Times(k: int, m: int): int {
    k * m
  }

  ghost predicate Divides(m: int, x: int) {
    exists k: int :: Times(k, m) == x
  }

  /** `a` and `b` differ by a multiple of `m`. */
  ghost predicate Cong(a: int, b: int, m: int) {
    Divides(m, a - b)
  }

  lemma DividesBy(m: int, x: int, k: int)
    requires x == k * m
    ensures Divides(m, x)
  {
    assert Times(k, m) == x;
  }

  lemma DividesQuot(m: int, x: int) returns (k: int)
    requires Divides(m, x)
    ensures x == k * m
  {
    k :| Times(k, m) == x;
  }

  lemma CongBy(a: int, b: int, m: int, k: int)
    requires a == b + k * m
    ensures Cong(a, b, m)
  {
    DividesBy(m, a - b, k);
  }

  lemma CongQuot(a: int, b: int, m: int) returns (k: int)
    requires Cong(a, b, m)
    ensures a == b + k * m
  {
    k := DividesQuot(m, a - b);
  }

  lemma CongRefl(a: int, m: int)
    ensures Cong(a, a, m)
  {
    CongBy(a, a, m, 0);
  }

  lemma CongSym(a: int, b: int, m: int)
    requires Cong(a, b, m)
    ensures Cong(b, a, m)
  {
    var k := CongQuot(a, b, m);
    CongBy(b, a, m, -k);
  }

  lemma CongTrans(a: int, b: int, c: int, m: int)
    requires Cong(a, b, m) && Cong(b, c, m)
    ensures Cong(a, c, m)
  {
    var k := CongQuot(a, b, m);
    var l := CongQuot(b, c, m);
    assert (k + l) * m == k * m + l * m;
    CongBy(a, c, m, k + l);
  }

  lemma CongAdd(a: int, b: int, c: int, d: int, m: int)
    requires Cong(a, b, m) && Cong(c, d, m)
    ensures Cong(a + c, b + d, m)
  {
    var k := CongQuot(a, b, m);
    var l := CongQuot(c, d, m);
    assert (k + l) * m == k * m + l * m;
    CongBy(a + c, b + d, m, k + l);
  }

  lemma CongNeg(a: int, b: int, m: int)
    requires Cong(a, b, m)
    ensures Cong(-a, -b, m)
  {
    var k := CongQuot(a, b, m);
    assert (-k) * m == -(k * m);
    CongBy(-a, -b, m, -k);
  }

  lemma CongSub(a: int, b: int, c: int, d: int, m: int)
    requires Cong(a, b, m) && Cong(c, d, m)
    ensures Cong(a - c, b - d, m)
  {
    CongNeg(c, d, m);
    CongAdd(a, b, -c, -d, m);
  }

  lemma CongMul(a: int, b: int, c: int, d: int, m: int)
    requires Cong(a, b, m) && Cong(c, d, m)
    ensures Cong(a * c, b * d, m)
  {
    var k := CongQuot(a, b, m);
    var l := CongQuot(c, d, m);
    calc {
      a * c;
      (b + k * m) * (d + l * m);
      b * d + (b * l + k * d + k * l * m) * m;
    }
    CongBy(a * c, b * d, m, b * l + k * d + k * l * m);
  }

  lemma CongZero(a: int, b: int)
    requires Cong(a, b, 0)
    ensures a == b
  {
    var k := CongQuot(a, b, 0);
  }

  /** Congruence modulo a multiple of `m` gives congruence modulo `m`. */
  lemma CongFactor(a: int, b: int, m: int, c: int)
    requires Cong(a, b, c * m)
    ensures Cong(a, b, m)
  {
    var k := CongQuot(a, b, c * m);
    assert k * (c * m) == (k * c) * m;
    CongBy(a, b, m, k * c);
  }

  lemma MulCancel(c: int, a: int, b: int)
    requires c != 0 && c * a == c * b
    ensures a == b
  {}

  // ------------------------------------------------ congruence and remainders

  lemma ModCong(a: int, m: int)
    requires m > 0
    ensures Cong(a % m, a, m)
  {
    DivModId(a, m);
    CongBy(a % m, a, m, -(a / m));
  }

  /** Congruence modulo a positive number is equality of remainders. */
  lemma CongIffMod(a: int, b: int, m: int)
    requires m > 0
    ensures Cong(a, b, m) <==> a % m == b % m
  {
    if Cong(a, b, m) {
      var k := CongQuot(a, b, m);
      DivModId(b, m);
      assert a == (b / m + k) * m + b % m;
      DivModUnique(a, m, b / m + k, b % m);
    }
    if a % m == b % m {
      DivModId(a, m);
      DivModId(b, m);
      assert a == b + (a / m - b / m) * m;
      CongBy(a, b, m, a / m - b / m);
    }
  }

  /** The remainder is the only reduced number congruent to `a`. */
  lemma ModIs(a: int, r: int, m: int)
    requires 0 <= r < m && Cong(r, a, m)
    ensures a % m == r
  {
    CongIffMod(r, a, m);
    SmallMod(r, m);
  }

  lemma ModEq(a: int, b: int, m: int)
    requires m > 0 && Cong(a, b, m)
    ensures a % m == b % m
  {
    CongIffMod(a, b, m);
  }

  /** A multiple of `m` strictly between `-m` and `m` is zero. */
  lemma SmallMultiple(x: int, m: int)
    requires Divides(m, x) && -m < x < m
    ensures x == 0
  {
    var k := DividesQuot(m, x);
    if k >= 1 {
      MulMono(1, k, m);
    } else if k <= -1 {
      MulMono(k, -1, m);
    }
  }

  // ------------------------------------------------------------------ powers

  function Pow(b: int, e: nat): int {
    if e == 0 then 1 else b * Pow(b, e - 1)
  }

  lemma {:induction false} PowAdd(b: int, e: nat, f: nat)
    ensures Pow(b, e + f) == Pow(b, e) * Pow(b, f)
  {
    if e > 0 {
      PowAdd(b, e - 1, f);
      assert b * (Pow(b, e - 1) * Pow(b, f)) == b * Pow(b, e - 1) * Pow(b, f);
    }
  }

  lemma {:induction false} PowMul(b: int, e: nat, f: nat)
    ensures e * f >= 0
    ensures Pow(Pow(b, e), f) == Pow(b, e * f)
  {
    if f > 0 {
      PowMul(b, e, f - 1);
      assert e * f == e + e * (f - 1);
      PowAdd(b, e, e * (f - 1));
    }
  }

  lemma {:induction false} PowBase(a: int, b: int, e: nat)
    ensures Pow(a * b, e) == Pow(a, e) * Pow(b, e)
  {
    if e > 0 {
      PowBase(a, b, e - 1);
      MulInterchange(a, b, Pow(a, e - 1), Pow(b, e - 1));
    }
  }

  lemma {:induction false} PowOne(e: nat)
    ensures Pow(1, e) == 1
  {
    if e > 0 {
      PowOne(e - 1);
    }
  }

  lemma {:induction false} PowPos(b: int, e: nat)
    requires b >= 1
    ensures Pow(b, e) >= 1
  {
    if e > 0 {
      PowPos(b, e - 1);
      MulMono(1, b, Pow(b, e - 1));
    }
  }

  lemma {:induction false} CongPow(a: int, b: int, e: nat, m: int)
    requires Cong(a, b, m)
    ensures Cong(Pow(a, e), Pow(b, e), m)
  {
    if e == 0 {
      CongRefl(1, m);
    } else {
      CongPow(a, b, e - 1, m);
      CongMul(a, b, Pow(a, e - 1), Pow(b, e - 1), m);
    }
  }

  /** `2^k`. */
  function TwoTo(k: nat): (r: int)
    ensures r >= 1
  {
    PowPos(2, k);
    Pow(2, k)
  }

  lemma TwoToStep(k: nat)
    ensures TwoTo(k + 1) == 2 * TwoTo(k)
  {}

  lemma TwoToAdd(j: nat, k: nat)
    ensures TwoTo(j + k) == TwoTo(j) * TwoTo(k)
  {
    PowAdd(2, j, k);
  }

  lemma TwoTo64()
    ensures TwoTo(64) == TWO_64
  {
    assert Pow(2, 4) == 16;
    PowAdd(2, 4, 4);
    PowAdd(2, 8, 8);
    PowAdd(2, 16, 16);
    PowAdd(2, 32, 32);
  }

  /** `-1` raised to an odd power is `-1`, to an even power `1`. */
  lemma {:induction false} PowMinusOne(e: nat)
    ensures Pow(-1, e) == if e % 2 == 0 then 1 else -1
  {
    if e > 0 {
      PowMinusOne(e - 1);
    }
  }
}
