/** Barrett reduction over the full 64-bit modulus range. */
module Barrett {
  import opened Integers
  import opened BigUints
  import opened Results

  datatype BarrettReducer = BarrettReducer(modulus: u64, mu: u128) {
    ghost predicate Valid() {
      modulus >= 2 && mu == TWO_128 / modulus
    }
  }

  method New(modulus: u64) returns (r: Result<BarrettReducer>)
    ensures r.Ok? <==> modulus >= 2
    ensures r.Ok? ==> r.value.Valid() && r.value.modulus == modulus
  {
    if modulus < 2 {
      return Err(ModulusTooSmall);
    }
    var power := ShlLimbs(FromU64(1), 2);
    var q, rem := DivmodU64(power, modulus);
    assert W(2) == TWO_64 * W(1) && W(1) == TWO_64 * W(0);
    DivModUnique(TWO_128, modulus, Val(q), rem);
    MuFits(Val(q), modulus);
    var mu := CheckedToU128(q);
    return Ok(BarrettReducer(modulus, mu.value));
  }

  lemma MuFits(q: int, m: int)
    requires m >= 2 && q * m <= TWO_128 && q >= 0
    ensures q < TWO_128
  {
    MulMono(2, m, q);
  }

  // --------------------------------------------------- the 256-bit product

  /** Adds `x * y` at position `i + j` of the accumulator; the carry moves to the next position. */
  lemma WideStep(result: seq<u64>, x: u64, b: seq<u64>, i: nat, j: nat, carry: int, carry': int, digit: u64, start: int)
    requires |result| == 4 && i + j < 4 && j < |b|
    requires Low(result, 4) + carry * W(i + j) == start + x * Low(b, j) * W(i)
    requires x * b[j] + result[i + j] + carry == carry' * TWO_64 + digit
    ensures Low(result[i + j := digit], 4) + carry' * W(i + j + 1) == start + x * Low(b, j + 1) * W(i)
  {
    LowUpdate(result, i + j, digit, 4);
    PowAdd(TWO_64, i, j);
    WideArith(x, b[j], result[i + j], carry, carry', digit, W(i), W(j), Low(b, j));
  }

  lemma WideArith(x: int, y: int, was: int, c: int, c': int, d: int, v: int, w: int, low: int)
    requires x * y + was + c == c' * TWO_64 + d
    ensures (d - was) * (v * w) + c' * (TWO_64 * (v * w)) - c * (v * w) == x * (low + y * w) * v - x * low * v
  {
    var p := v * w;
    calc {
      (d - was) * p + c' * (TWO_64 * p) - c * p;
      (d + c' * TWO_64 - was - c) * p;
      x * y * p;
      x * (y * w) * v;
      x * (low + y * w) * v - x * low * v;
    }
  }

  lemma FlushStep(result: seq<u64>, k: nat, carry: u64)
    requires |result| == 4 && k < 4 && result[k] == 0
    ensures Low(result[k := carry], 4) == Low(result, 4) + carry * W(k)
  {
    LowUpdate(result, k, carry, 4);
  }

  /** One multiplier limb against both limbs of `b`, added in at position `i`. */
  method MulWideRow(result: array<u64>, x: u64, b: seq<u64>, i: nat)
    requires result.Length == 4 && |b| == 2 && i < 2
    requires forall k :: i + 2 <= k < 4 ==> result[k] == 0
    modifies result
    ensures Low(result[..], 4) == old(Low(result[..], 4)) + x * Low(b, 2) * W(i)
    ensures forall k :: i + 3 <= k < 4 ==> result[k] == 0
  {
    ghost var start := Low(result[..], 4);
    var carry: u128 := 0;
    var j := 0;
    while j < 2
      invariant 0 <= j <= 2 && carry < TWO_64
      invariant Low(result[..], 4) + carry * W(i + j) == start + x * Low(b, j) * W(i)
      invariant forall k :: i + 2 <= k < 4 ==> result[k] == 0
    {
      var idx := i + j;
      MulBound(x, TWO_64 - 1, b[j], TWO_64 - 1);
      var sum: u128 := x * b[j] + result[idx] + carry;
      DivModId(sum, TWO_64);
      TopHalf(sum);
      WideStep(result[..], x, b, i, j, carry, sum / TWO_64, sum % TWO_64, start);
      ghost var before := result[..];
      var digit: u64 := sum % TWO_64;
      result[idx] := digit;
      assert result[..] == before[idx := digit];
      carry := sum / TWO_64;
      j := j + 1;
    }
    var k := i + 2;
    while carry > 0
      invariant i + 2 <= k <= i + 3 && carry < TWO_64
      invariant carry > 0 ==> k == i + 2 && result[k] == 0
      invariant Low(result[..], 4) + carry * W(k) == start + x * Low(b, 2) * W(i)
      invariant forall l :: i + 3 <= l < 4 ==> result[l] == 0
      decreases carry
    {
      var sum: u128 := result[k] + carry;
      SmallMod(sum, TWO_64);
      FlushStep(result[..], k, carry);
      ghost var before := result[..];
      var digit: u64 := sum % TWO_64;
      result[k] := digit;
      assert result[..] == before[k := digit];
      carry := sum / TWO_64;
      k := k + 1;
    }
  }

  function Limbs(a: u128): (s: seq<u64>)
    ensures |s| == 2 && Low(s, 2) == a
  {
    DivModId(a, TWO_64);
    TopHalf(a);
    var s: seq<u64> := [a % TWO_64, a / TWO_64];
    assert Low(s, 1) == Low(s, 0) + Get(s, 0) * W(0) && Low(s, 2) == Low(s, 1) + Get(s, 1) * W(1);
    assert W(1) == TWO_64 * W(0);
    s
  }

  /** The exact product of two 128-bit numbers; no step overflows and no limb past the fourth is touched. */
  method MulWide128(a: u128, b: u128) returns (high: u128, low: u128)
    ensures high * TWO_128 + low == a * b
  {
    var aLimbs, bLimbs := Limbs(a), Limbs(b);
    var result := new u64[4](_ => 0);
    LowZeros(result[..], 4);
    var i := 0;
    while i < 2
      invariant 0 <= i <= 2
      invariant Low(result[..], 4) == Low(aLimbs, i) * b
      invariant forall k :: i + 2 <= k < 4 ==> result[k] == 0
    {
      MulWideRow(result, aLimbs[i], bLimbs, i);
      ScaleStep(Low(aLimbs, i), aLimbs[i], W(i), b);
      i := i + 1;
    }
    low := result[0] + result[1] * TWO_64;
    high := result[2] + result[3] * TWO_64;
    FourLimbs(result[..]);
  }

  lemma FourLimbs(s: seq<u64>)
    requires |s| == 4
    ensures Low(s, 4) == (s[2] + s[3] * TWO_64) * TWO_128 + (s[0] + s[1] * TWO_64)
  {
    assert W(3) == TWO_64 * W(2) && W(2) == TWO_64 * W(1) && W(1) == TWO_64 * W(0) && W(0) == 1;
    assert Low(s, 4) == Low(s, 3) + s[3] * W(3);
    assert Low(s, 3) == Low(s, 2) + s[2] * W(2);
    assert Low(s, 2) == Low(s, 1) + s[1] * W(1);
    assert Low(s, 1) == Low(s, 0) + s[0] * W(0);
  }

  // --------------------------------------------------------------- reduction

  /** The estimated quotient is the true one or one less. */
  lemma QuotientEstimate(value: int, m: int)
    requires m >= 2 && 0 <= value < TWO_128 && m < TWO_64
    ensures value / m - 1 <= value * (TWO_128 / m) / TWO_128 <= value / m
  {
    var mu, rho := TWO_128 / m, TWO_128 % m;
    var t, r := value / m, value % m;
    DivModId(TWO_128, m);
    DivModId(value, m);
    EstimateArith(value, m, mu, rho, t, r);
    DivModId(value * mu, TWO_128);
    var q := value * mu / TWO_128;
    if q > t {
      MulMono(t + 1, q, TWO_128);
    }
    if q < t - 1 {
      MulMono(q + 1, t - 1, TWO_128);
    }
  }

  lemma EstimateArith(v: int, m: int, mu: int, rho: int, t: int, r: int)
    requires TWO_128 == mu * m + rho && 0 <= rho < m && m >= 2 && m < TWO_64
    requires v == t * m + r && 0 <= r < m && 0 <= v < TWO_128
    ensures (t - 1) * TWO_128 <= v * mu < (t + 1) * TWO_128
  {
    if mu <= 0 {
      MulMono(mu, 0, m);
    }
    if t < 0 {
      MulMono(t, -1, m);
    }
    MulMono(t * m, v, mu);
    MulMono(v + 1, (t + 1) * m, mu);
    MulMono(rho, m, t);
    var T := TWO_128;
    calc {
      t * m * mu;
      t * (mu * m);
      t * (T - rho);
      t * T - rho * t;
    }
    assert (t + 1) * m * mu == (t + 1) * (T - rho);
    MulBound(rho, rho, t + 1, t + 1);
    assert (t + 1) * (T - rho) == (t + 1) * T - rho * (t + 1);
    assert (v + 1) * mu == v * mu + mu;
  }

  /** What the estimated quotient leaves of the value. */
  ghost function Remaining(self: BarrettReducer, value: u128): int {
    value - value * self.mu / TWO_128 * self.modulus
  }

  /** `value mod modulus`, for every value below `modulus * 2^64`, with at most one correction. */
  method Reduce(self: BarrettReducer, value: u128) returns (result: u64)
    requires self.Valid() && value < self.modulus * TWO_64
    ensures result == value % self.modulus
    ensures var left := Remaining(self, value);
      0 <= left < 2 * self.modulus && result == if left < self.modulus then left else left - self.modulus
  {
    var m := self.modulus;
    var productHi, productLo := MulWide128(value, self.mu);
    DivModUnique(value * self.mu, TWO_128, productHi, productLo);
    QuotientEstimate(value, m);
    QuotientFits(value, m, TWO_64);
    var q3: u64 := productHi;
    DivModId(value, m);
    RemainderArith(value, m, value / m, value % m, q3);
    var r: u128 := value - q3 * m;
    if r >= m {
      r := r - m;
    }
    if r >= m {
      assert false;  // the second correction never fires
    }
    result := r;
  }

  lemma RemainderArith(v: int, m: int, t: int, r: int, q: int)
    requires v == t * m + r && 0 <= r < m && t - 1 <= q <= t
    ensures v - q * m == if q == t then r else r + m
  {}
}
