/** Montgomery reduction with R = 2^64, for odd moduli below 2^63. */
module Montgomery {
  import opened Integers
  import opened Results

  const MONTGOMERY_MAX_MODULUS: int := 0x8000_0000_0000_0000

  function WrappingMul(a: u64, b: u64): u64 {
    DivModId(a * b, TWO_64);
    a * b % TWO_64
  }

  function WrappingSub(a: u64, b: u64): u64 {
    DivModId(a - b, TWO_64);
    (a - b) % TWO_64
  }

  datatype MontgomeryReducer = MontgomeryReducer(modulus: u64, mPrime: u64, r2: u64) {
    ghost predicate Valid() {
      && 0 < modulus < MONTGOMERY_MAX_MODULUS
      && Cong(modulus * mPrime, -1, TWO_64)
      && r2 < modulus && Cong(r2, TWO_64 * TWO_64, modulus)
    }
  }

  /** The modulus to which the inverse is right after `i` Newton steps. */
  ghost function NewtonModulus(i: nat): (m: int) {
    if i == 0 then 2 else NewtonModulus(i - 1) * NewtonModulus(i - 1)
  }

  lemma NewtonStep(v: int, x: int, x': int, m: int)
    requires Cong(v * x, 1, m) && Cong(x', x * (2 - v * x), m * m)
    ensures Cong(v * x', 1, m * m)
  {
    var k := CongQuot(v * x, 1, m);
    CongRefl(v, m * m);
    CongMul(v, v, x', x * (2 - v * x), m * m);
    NewtonArith(v, x, k, m);
    CongBy(v * (x * (2 - v * x)), 1, m * m, -(k * k));
    CongTrans(v * x', v * (x * (2 - v * x)), 1, m * m);
  }

  lemma NewtonArith(v: int, x: int, k: int, m: int)
    requires v * x == 1 + k * m
    ensures v * (x * (2 - v * x)) == 1 + -(k * k) * (m * m)
  {
    var y := v * x;
    calc {
      v * (x * (2 - y));
      y * (2 - y);
      (1 + k * m) * (1 - k * m);
      1 - k * m * (k * m);
      1 - k * k * (m * m);
    }
  }

  /** What one loop step computes in wrapping arithmetic. */
  lemma WrappedNewton(v: u64, x: u64)
    ensures Cong(WrappingMul(x, WrappingSub(2, WrappingMul(v, x))), x * (2 - v * x), TWO_64)
  {
    var p: int := WrappingMul(v, x);
    var d: int := WrappingSub(2, p);
    ModCong(v * x, TWO_64);
    ModCong(2 - p, TWO_64);
    ModCong(x * d, TWO_64);
    CongRefl(2, TWO_64);
    CongSub(2, 2, p, v * x, TWO_64);
    CongTrans(d, 2 - p, 2 - v * x, TWO_64);
    CongRefl(x, TWO_64);
    CongMul(x, x, d, 2 - v * x, TWO_64);
    CongTrans(WrappingMul(x, d), x * d, x * (2 - v * x), TWO_64);
  }

  lemma NewtonModuli()
    ensures NewtonModulus(6) == TWO_64
    ensures forall i :: 0 <= i <= 6 ==> Divides(NewtonModulus(i), TWO_64)
  {
    assert NewtonModulus(1) == 4;
    assert NewtonModulus(2) == 16;
    assert NewtonModulus(3) == 256;
    assert NewtonModulus(4) == 65536;
    assert NewtonModulus(5) == 0x1_0000_0000;
    DividesBy(NewtonModulus(0), TWO_64, TWO_64 / 2);
    DividesBy(NewtonModulus(1), TWO_64, TWO_64 / 4);
    DividesBy(NewtonModulus(2), TWO_64, TWO_64 / 16);
    DividesBy(NewtonModulus(3), TWO_64, TWO_64 / 256);
    DividesBy(NewtonModulus(4), TWO_64, TWO_64 / 65536);
    DividesBy(NewtonModulus(5), TWO_64, 0x1_0000_0000);
    DividesBy(NewtonModulus(6), TWO_64, 1);
  }

  /** Six Newton steps give the inverse of every odd number modulo 2^64. */
  method NegInvModPow2_64(value: u64) returns (r: u64)
    requires value % 2 == 1
    ensures Cong(value * r, -1, TWO_64)
  {
    var x: u64 := value;
    OddSquare(value);
    NewtonModuli();
    for i := 0 to 6
      invariant Cong(value * x, 1, NewtonModulus(i))
    {
      WrappedNewton(value, x);
      var next := WrappingMul(x, WrappingSub(2, WrappingMul(value, x)));
      ghost var c := DividesQuot(NewtonModulus(i + 1), TWO_64);
      CongFactor(next, x * (2 - value * x), NewtonModulus(i + 1), c);
      NewtonStep(value, x, next, NewtonModulus(i));
      x := next;
    }
    r := WrappingSub(0, x);
    ModCong(0 - x, TWO_64);
    CongRefl(value, TWO_64);
    CongMul(value, value, r, 0 - x, TWO_64);
    CongNeg(value * x, 1, TWO_64);
    assert value * (0 - x) == -(value * x);
    CongTrans(value * r, -(value * x), -1, TWO_64);
  }

  lemma OddSquare(v: int)
    requires v % 2 == 1
    ensures Cong(v * v, 1, 2)
  {
    DivModId(v, 2);
    var h := v / 2;
    assert v * v == 1 + (2 * h * h + 2 * h) * 2;
    CongBy(v * v, 1, 2, 2 * h * h + 2 * h);
  }

  method New(modulus: u64) returns (r: Result<MontgomeryReducer>)
    ensures r.Ok? <==> modulus % 2 == 1 && modulus < 0x8000_0000_0000_0000
    ensures r.Ok? ==> r.value.Valid() && r.value.modulus == modulus
  {
    if modulus == 0 || modulus % 2 == 0 || modulus >= MONTGOMERY_MAX_MODULUS {
      return Err(ModulusTooLargeForReducer);
    }
    var mPrime := NegInvModPow2_64(modulus);
    DivModId(TWO_64, modulus);
    var r1: u64 := TWO_64 % modulus;
    MulBound(r1, TWO_64 - 1, r1, TWO_64 - 1);
    var square: u128 := r1 * r1;
    DivModId(square, modulus);
    var r2: u64 := square % modulus;
    ModCong(TWO_64, modulus);
    ModCong(square, modulus);
    CongMul(r1, TWO_64, r1, TWO_64, modulus);
    CongTrans(r2, r1 * r1, TWO_64 * TWO_64, modulus);
    return Ok(MontgomeryReducer(modulus, mPrime, r2));
  }

  /** `t + u * m` is divisible by R and its quotient is below `2 * m`. */
  lemma RedcDivisible(t: u128, m: u64, mPrime: u64, u: u64)
    requires 0 < m < MONTGOMERY_MAX_MODULUS && t < m * TWO_64
    requires Cong(m * mPrime, -1, TWO_64) && u == t % TWO_64 * mPrime % TWO_64
    ensures 0 <= t + u * m < 2 * m * TWO_64
    ensures (t + u * m) % TWO_64 == 0
  {
    RedcBound(t, m, u);
    ModCong(t, TWO_64);
    ModCong(t % TWO_64 * mPrime, TWO_64);
    RedcCong(t, t % TWO_64, m, mPrime, u);
    CongSym(t + u * m, 0, TWO_64);
    ModIs(t + u * m, 0, TWO_64);
  }

  lemma RedcBound(t: int, m: int, u: int)
    requires 0 < m && 0 <= t < m * TWO_64 && 0 <= u < TWO_64
    ensures 0 <= t + u * m < 2 * m * TWO_64
  {
    MulBound(u, TWO_64 - 1, m, m);
  }

  lemma RedcCong(t: int, lo: int, m: int, mPrime: int, u: int)
    requires Cong(lo, t, TWO_64) && Cong(u, lo * mPrime, TWO_64) && Cong(m * mPrime, -1, TWO_64)
    ensures Cong(t + u * m, 0, TWO_64)
  {
    var R: int := TWO_64;
    CongRefl(m, R);
    CongMul(u, lo * mPrime, m, m, R);
    CongRefl(lo, R);
    CongMul(lo, lo, m * mPrime, -1, R);
    assert lo * mPrime * m == lo * (m * mPrime);
    CongTrans(u * m, lo * (m * mPrime), lo * -1, R);
    CongSym(lo, t, R);
    CongAdd(t, lo, u * m, lo * -1, R);
  }

  /** `t * R^-1 mod modulus`: the reduced `r` with `r * R` congruent to `t`. */
  method Redc(self: MontgomeryReducer, t: u128) returns (r: u64)
    requires self.Valid() && t < self.modulus * TWO_64
    ensures r < self.modulus && Cong(r * TWO_64, t, self.modulus)
  {
    var m := self.modulus;
    DivModId(t, TWO_64);
    var tLo: u64 := t % TWO_64;
    var u := WrappingMul(tLo, self.mPrime);
    RedcDivisible(t, m, self.mPrime, u);
    var t2: u128 := t + u * m;
    DivModId(t2, TWO_64);
    var result: u64 := t2 / TWO_64;
    CongBy(t2, t, m, u);
    if result >= m {
      assert (result - m) * TWO_64 == t2 - m * TWO_64;
      CongBy((result - m) * TWO_64, t2, m, -TWO_64);
      CongTrans((result - m) * TWO_64, t2, t, m);
      r := result - m;
    } else {
      r := result;
    }
  }

  /** R can be cancelled modulo an odd modulus. */
  lemma CancelR(self: MontgomeryReducer, x: int, y: int)
    requires self.Valid() && Cong(x * TWO_64, y * TWO_64, self.modulus)
    ensures Cong(x, y, self.modulus)
  {
    var m := self.modulus;
    var k := CongQuot(m * self.mPrime, -1, TWO_64);
    // k * R == 1 + mPrime * m, so k inverts R.
    CongBy(TWO_64 * k, 1, m, self.mPrime);
    CongRefl(k, m);
    CongMul(x * TWO_64, y * TWO_64, k, k, m);
    CancelSide(x, k, m);
    CancelSide(y, k, m);
    CongSym(x * TWO_64 * k, x, m);
    CongTrans(x, x * TWO_64 * k, y * TWO_64 * k, m);
    CongTrans(x, y * TWO_64 * k, y, m);
  }

  lemma CancelSide(x: int, k: int, m: int)
    requires Cong(TWO_64 * k, 1, m)
    ensures Cong(x * TWO_64 * k, x, m)
  {
    CongRefl(x, m);
    CongMul(x, x, TWO_64 * k, 1, m);
    assert x * (TWO_64 * k) == x * TWO_64 * k;
  }

  method ToMontgomery(self: MontgomeryReducer, a: u64) returns (r: u64)
    requires self.Valid()
    ensures r < self.modulus && Cong(r, a * TWO_64, self.modulus)
  {
    MulMono(a + 1, TWO_64, self.r2);
    MulMono(self.r2 + 1, self.modulus, TWO_64);
    ProductBelow(a, self.r2, self.modulus);
    r := Redc(self, a * self.r2);
    CongRefl(a, self.modulus);
    CongMul(a, a, self.r2, TWO_64 * TWO_64, self.modulus);
    CongTrans(r * TWO_64, a * self.r2, a * (TWO_64 * TWO_64), self.modulus);
    assert a * (TWO_64 * TWO_64) == a * TWO_64 * TWO_64;
    CancelR(self, r, a * TWO_64);
  }

  lemma ProductBelow(a: int, b: int, m: int)
    requires 0 <= a < TWO_64 && 0 <= b < m && m < TWO_64
    ensures 0 <= a * b < m * TWO_64 < TWO_128
  {
    MulBound(a, TWO_64, b, m - 1);
  }

  method FromMontgomery(self: MontgomeryReducer, a: u64) returns (r: u64)
    requires self.Valid()
    ensures r < self.modulus && Cong(r * TWO_64, a, self.modulus)
  {
    MulMono(1, self.modulus, TWO_64);
    r := Redc(self, a);
  }

  method MulMontgomery(self: MontgomeryReducer, lhs: u64, rhs: u64) returns (r: u64)
    requires self.Valid() && lhs < self.modulus && rhs < self.modulus
    ensures r < self.modulus && Cong(r * TWO_64, lhs * rhs, self.modulus)
  {
    ProductBelow(lhs, rhs, self.modulus);
    r := Redc(self, lhs * rhs);
  }

  /** The plain product of any two words modulo the modulus. */
  method Mul(self: MontgomeryReducer, lhs: u64, rhs: u64) returns (r: u64)
    requires self.Valid()
    ensures r == lhs * rhs % self.modulus
  {
    var m := self.modulus;
    var x := ToMontgomery(self, lhs);
    var y := ToMontgomery(self, rhs);
    var z := MulMontgomery(self, x, y);
    r := FromMontgomery(self, z);
    MulThroughMontgomery(self, lhs, rhs, x, y, z, r);
    ModIs(lhs * rhs, r, m);
  }

  /** `r * R * R == z * R == x * y == (lhs * R) * (rhs * R)` modulo m. */
  lemma MulThroughMontgomery(self: MontgomeryReducer, lhs: int, rhs: int, x: int, y: int, z: int, r: int)
    requires self.Valid()
    requires Cong(x, lhs * TWO_64, self.modulus) && Cong(y, rhs * TWO_64, self.modulus)
    requires Cong(z * TWO_64, x * y, self.modulus) && Cong(r * TWO_64, z, self.modulus)
    ensures Cong(r, lhs * rhs, self.modulus)
  {
    var m, R: int := self.modulus, TWO_64;
    CongRefl(R, m);
    CongMul(r * R, z, R, R, m);
    CongTrans(r * R * R, z * R, x * y, m);
    CongMul(x, lhs * R, y, rhs * R, m);
    DoubleR(lhs, rhs, R);
    CongTrans(r * R * R, x * y, lhs * rhs * R * R, m);
    CancelR(self, r * R, lhs * rhs * R);
    CancelR(self, r, lhs * rhs);
  }

  lemma DoubleR(a: int, b: int, R: int)
    ensures a * R * (b * R) == a * b * R * R
  {
    MulInterchange(a, R, b, R);
  }
}
