/** Arithmetic on 64-bit residues. */
module Reduce {
  import opened Integers
  import opened NumberTheory

  function AddMod(lhs: u64, rhs: u64, modulus: u64): (r: u64)
    requires modulus > 0
    ensures r < modulus && Cong(r, lhs + rhs, modulus)
  {
    var sum: u128 := lhs + rhs;
    ModCong(sum, modulus);
    DivModId(sum, modulus);
    sum % modulus
  }

  /** Any minuend is accepted; the subtrahend may not exceed the modulus. */
  function SubMod(lhs: u64, rhs: u64, modulus: u64): (r: u64)
    requires rhs <= lhs + modulus
    ensures Cong(r, lhs - rhs, modulus)
    ensures lhs < modulus ==> r < modulus
  {
    CongBy(lhs - rhs, lhs - rhs, modulus, 0);
    CongBy(modulus - (rhs - lhs), lhs - rhs, modulus, 1);
    if lhs >= rhs then lhs - rhs else modulus - (rhs - lhs)
  }

  function NegMod(value: u64, modulus: u64): (r: u64)
    requires value <= modulus && modulus > 0
    ensures r < modulus && Cong(r, 0 - value, modulus)
  {
    CongBy(0, 0, modulus, 0);
    CongBy(modulus - value, 0 - value, modulus, 1);
    if value == 0 then 0 else modulus - value
  }

  lemma WideProduct(a: u64, b: u64)
    ensures 0 <= a * b <= 0xFFFF_FFFF_FFFF_FFFF * 0xFFFF_FFFF_FFFF_FFFF
  {
    MulBound(a, 0xFFFF_FFFF_FFFF_FFFF, b, 0xFFFF_FFFF_FFFF_FFFF);
  }

  function MulMod(lhs: u64, rhs: u64, modulus: u64): (r: u64)
    requires modulus > 0
    ensures r < modulus && Cong(r, lhs * rhs, modulus)
    ensures r == (lhs * rhs) % modulus
  {
    WideProduct(lhs, rhs);
    var product: u128 := lhs * rhs;
    ModCong(product, modulus);
    DivModId(product, modulus);
    product % modulus
  }

  /** Square-and-multiply. */
  method PowMod(base: u64, exp: u64, modulus: u64) returns (acc: u64)
    requires modulus > 0
    ensures Cong(acc, Pow(base, exp), modulus)
    ensures modulus >= 2 ==> acc == Pow(base, exp) % modulus
  {
    acc := 1;
    DivModId(base, modulus);
    var b: u64 := base % modulus;
    var e: u64 := exp;
    ModCong(base, modulus);
    CongPow(b, base, exp, modulus);
    while e != 0
      invariant Cong(acc * Pow(b, e), Pow(base, exp), modulus)
      invariant modulus >= 2 ==> acc < modulus
      decreases e
    {
      ghost var acc0, b0 := acc, b;
      DivModId(e, 2);
      if e % 2 == 1 {
        acc := MulMod(acc, b, modulus);
      }
      b := MulMod(b, b, modulus);
      SquareStep(acc0, b0, e, acc, b, modulus);
      CongTrans(acc * Pow(b, e / 2), acc0 * Pow(b0, e), Pow(base, exp), modulus);
      e := e / 2;
    }
    assert acc * Pow(b, 0) == acc;
    if modulus >= 2 {
      CongSym(acc, Pow(base, exp), modulus);
      ModIs(Pow(base, exp), acc, modulus);
    }
  }

  lemma SquareStep(acc: int, b: int, e: nat, acc': int, b': int, m: int)
    requires e > 0 && Cong(b', b * b, m)
    requires if e % 2 == 1 then Cong(acc', acc * b, m) else acc' == acc
    ensures Cong(acc' * Pow(b', e / 2), acc * Pow(b, e), m)
  {
    var h := e / 2;
    CongPow(b', b * b, h, m);
    PowBase(b, b, h);
    PowAdd(b, h, h);
    if e % 2 == 1 {
      assert Pow(b, e) == b * Pow(b, h + h);
      CongMul(acc', acc * b, Pow(b', h), Pow(b * b, h), m);
      assert acc * b * Pow(b, h + h) == acc * (b * Pow(b, h + h));
    } else {
      CongRefl(acc, m);
      CongMul(acc, acc, Pow(b', h), Pow(b * b, h), m);
    }
  }

  /** Modular inverse modulo a prime, by Fermat's little theorem. */
  method InvMod(value: u64, modulus: u64) returns (r: u64)
    requires modulus >= 2
    ensures r == Inverse(value, modulus)
    ensures IsPrime(modulus) && !Divides(modulus, value) ==> Cong(value * r, 1, modulus)
  {
    r := PowMod(value, modulus - 2, modulus);
    if IsPrime(modulus) && !Divides(modulus, value) {
      InverseCorrect(value, modulus);
    }
  }

  ghost predicate InvertsAll(m: int)
    requires m >= 2
  {
    forall v :: 0 < v < m ==> Cong(v * Inverse(v, m), 1, m)
  }

  /** `inv_mod` inverts every non-zero residue exactly when the modulus is prime. */
  lemma InvertsAllIffPrime(m: int)
    requires m >= 2
    ensures InvertsAll(m) <==> IsPrime(m)
  {
    if IsPrime(m) {
      forall v | 0 < v < m ensures Cong(v * Inverse(v, m), 1, m) {
        SmallNotDivisible(m, v);
        InverseCorrect(v, m);
      }
    } else {
      var d: int :| 2 <= d < m && Divides(d, m);
      FactorNotInverted(d, m);
    }
  }

  /** A proper factor of the modulus has no inverse. */
  lemma FactorNotInverted(d: int, m: int)
    requires 2 <= d < m && Divides(d, m)
    ensures !Cong(d * Inverse(d, m), 1, m)
  {
    if Cong(d * Inverse(d, m), 1, m) {
      var c := CongQuot(d * Inverse(d, m), 1, m);
      var k := DividesQuot(d, m);
      FactorOfOne(d, Inverse(d, m), c, k);
      DividesBy(d, 1, Inverse(d, m) - c * k);
      SmallMultiple(1, d);
    }
  }

  lemma FactorOfOne(d: int, x: int, c: int, k: int)
    requires d * x == 1 + c * (k * d)
    ensures 1 == (x - c * k) * d
  {
    assert (x - c * k) * d == x * d - c * k * d;
    assert c * (k * d) == c * k * d;
  }

  /** A concrete modulus the library accepts: modulo 9 the value computed for 2 is not its inverse. */
  lemma InvModNeedsPrime()
    ensures !IsPrime(9) && !Divides(9, 2)
    ensures !Cong(2 * Inverse(2, 9), 1, 9)
  {
    DividesBy(3, 9, 3);
    SmallNotDivisible(9, 2);
    assert Pow(2, 7) == 128 by {
      assert Pow(2, 4) == 16;
      assert Pow(2, 3) == 8;
      PowAdd(2, 4, 3);
    }
    CongIffMod(4, 1, 9);
  }
}
