/** Arbitrary-size unsigned integers in base 2^64. */
module BigUints {
  import opened Integers
  import opened Results

  predicate Normalized(limbs: seq<u64>) {
    |limbs| > 0 ==> limbs[|limbs| - 1] != 0
  }

  /** Little-endian limbs, never with a zero on top. */
  type BigUint = limbs: seq<u64> | Normalized(limbs) witness []

  datatype Ordering = Less | Equal | Greater

  // ------------------------------------------------------- what limbs denote

  /** Weight of limb `i`. */
  ghost function W(i: nat): (w: int)
    ensures w >= 1
  {
    PowPos(TWO_64, i);
    Pow(TWO_64, i)
  }

  /** Limb `i`, or 0 past the end. */
  function Get(a: seq<u64>, i: nat): u64 {
    if i < |a| then a[i] else 0
  }

  /** The number the low `i` limbs denote. */
  ghost function Low(a: seq<u64>, i: nat): int {
    if i == 0 then 0 else Low(a, i - 1) + Get(a, i - 1) * W(i - 1)
  }

  ghost function Val(a: seq<u64>): int {
    Low(a, |a|)
  }

  lemma WStep(i: nat)
    ensures W(i + 1) == TWO_64 * W(i)
  {}

  lemma {:induction false} LowBound(a: seq<u64>, i: nat)
    ensures 0 <= Low(a, i) < W(i)
  {
    if i > 0 {
      LowBound(a, i - 1);
      MulBound(Get(a, i - 1), TWO_64 - 1, W(i - 1), W(i - 1));
      assert (TWO_64 - 1) * W(i - 1) + W(i - 1) == W(i);
    }
  }

  lemma {:induction false} LowExt(a: seq<u64>, b: seq<u64>, i: nat)
    requires forall j :: 0 <= j < i ==> Get(a, j) == Get(b, j)
    ensures Low(a, i) == Low(b, i)
  {
    if i > 0 {
      LowExt(a, b, i - 1);
    }
  }

  lemma {:induction false} LowPast(a: seq<u64>, i: nat)
    requires i >= |a|
    ensures Low(a, i) == Val(a)
  {
    if i > |a| {
      LowPast(a, i - 1);
      assert 0 * W(i - 1) == 0;
    }
  }

  lemma ValPush(a: seq<u64>, x: u64)
    ensures Val(a + [x]) == Val(a) + x * W(|a|)
  {
    LowExt(a + [x], a, |a|);
    assert Get(a + [x], |a|) == x;
  }

  lemma {:induction false} LowUpdate(a: seq<u64>, k: nat, x: u64, i: nat)
    requires k < |a|
    ensures Low(a[k := x], i) == Low(a, i) + if k < i then (x - a[k]) * W(k) else 0
  {
    if i > 0 {
      LowUpdate(a, k, x, i - 1);
      SplitProduct(x, a[k], W(k));
    }
  }

  /** The number the limbs from `i` on denote. */
  ghost function High(a: seq<u64>, i: nat): int
    decreases |a| - i
  {
    if i >= |a| then 0 else a[i] + TWO_64 * High(a, i + 1)
  }

  lemma {:induction false} HighNonneg(a: seq<u64>, i: nat)
    ensures High(a, i) >= 0
    decreases |a| - i
  {
    if i < |a| {
      HighNonneg(a, i + 1);
    }
  }

  lemma {:induction false} Split(a: seq<u64>, i: nat)
    requires i <= |a|
    ensures Val(a) == Low(a, i) + High(a, i) * W(i)
    decreases |a| - i
  {
    if i < |a| {
      Split(a, i + 1);
      SplitStep(a[i], High(a, i + 1), W(i));
    }
  }

  lemma SplitStep(x: int, h: int, w: int)
    ensures x * w + h * (TWO_64 * w) == (x + TWO_64 * h) * w
  {}

  lemma ValHigh(a: seq<u64>)
    ensures Val(a) == High(a, 0) && Val(a) >= 0
  {
    Split(a, 0);
    HighNonneg(a, 0);
    assert W(0) == 1;
  }

  lemma {:induction false} WMono(i: nat, j: nat)
    requires i <= j
    ensures W(i) <= W(j)
  {
    if i < j {
      WMono(i, j - 1);
      WStep(j - 1);
    }
  }

  /** A normalized number reaches the weight of its top limb. */
  lemma ValTop(a: BigUint)
    requires |a| > 0
    ensures W(|a| - 1) <= Val(a)
  {
    LowBound(a, |a| - 1);
    MulMono(1, a[|a| - 1], W(|a| - 1));
  }

  lemma LongerIsLarger(a: BigUint, b: BigUint)
    requires |a| > |b|
    ensures Val(a) > Val(b)
  {
    ValTop(a);
    LowBound(b, |b|);
    WMono(|b|, |a| - 1);
  }

  lemma HigherDigitDecides(a: seq<u64>, b: seq<u64>, i: nat)
    requires i < |a| == |b| && a[i + 1..] == b[i + 1..] && a[i] < b[i]
    ensures Val(a) < Val(b)
  {
    HighExt(a, b, i + 1);
    Split(a, i + 1);
    Split(b, i + 1);
    LowBound(a, i);
    LowBound(b, i);
    MulMono(a[i] + 1, b[i], W(i));
    assert (a[i] + 1) * W(i) == a[i] * W(i) + W(i);
  }

  lemma {:induction false} HighExt(a: seq<u64>, b: seq<u64>, i: nat)
    requires i <= |a| == |b| && a[i..] == b[i..]
    ensures High(a, i) == High(b, i)
    decreases |a| - i
  {
    if i < |a| {
      assert a[i] == a[i..][0] && b[i] == b[i..][0];
      assert a[i + 1..] == a[i..][1..] && b[i + 1..] == b[i..][1..];
      HighExt(a, b, i + 1);
    }
  }

  // ------------------------------------------------------------- conversions

  function Zero(): (r: BigUint)
    ensures Val(r) == 0
  {
    []
  }

  function FromU64(value: u64): (r: BigUint)
    ensures Val(r) == value
  {
    if value == 0 then [] else
      var r := [value];
      assert Low(r, 1) == Low(r, 0) + Get(r, 0) * W(0);
      r
  }

  predicate IsZero(a: BigUint)
    ensures IsZero(a) <==> Val(a) == 0
  {
    if |a| > 0 then ValTop(a); false else true
  }

  /** `None` exactly when the number needs more than 128 bits. */
  function CheckedToU128(a: BigUint): (r: Option<u128>)
    ensures r.None? <==> Val(a) >= TWO_128
    ensures r.Some? ==> r.value == Val(a)
  {
    assert W(1) == TWO_64 * W(0) && W(2) == TWO_64 * W(1);
    if |a| > 2 then
      ValTop(a);
      WMono(2, |a| - 1);
      None
    else
      LowBound(a, 2);
      LowPast(a, 2);
      assert Low(a, 2) == Low(a, 1) + Get(a, 1) * W(1) && Low(a, 1) == Low(a, 0) + Get(a, 0) * W(0);
      Some(Get(a, 0) + Get(a, 1) * TWO_64)
  }

  method ShlLimbs(a: BigUint, n: nat) returns (r: BigUint)
    ensures Val(r) == Val(a) * W(n)
  {
    if |a| == 0 {
      return [];
    }
    var limbs: seq<u64> := seq(n, _ => 0) + a;
    ZeroPrefix(n, a);
    r := limbs;
  }

  lemma {:induction false} ZeroPrefix(n: nat, a: seq<u64>)
    ensures Val(seq(n, _ => 0) + a) == Val(a) * W(n)
  {
    var z: seq<u64> := seq(n, _ => 0);
    if |a| == 0 {
      LowZeros(z, n);
      assert z + a == z;
    } else {
      var k := |a| - 1;
      ZeroPrefix(n, a[..k]);
      assert z + a == (z + a[..k]) + [a[k]];
      ValPush(z + a[..k], a[k]);
      assert a == a[..k] + [a[k]];
      ValPush(a[..k], a[k]);
      PowAdd(TWO_64, k, n);
      assert (Val(a[..k]) + a[k] * W(k)) * W(n) == Val(a[..k]) * W(n) + a[k] * (W(k) * W(n));
    }
  }

  lemma {:induction false} LowZeros(a: seq<u64>, i: nat)
    requires forall j :: 0 <= j < i ==> Get(a, j) == 0
    ensures Low(a, i) == 0
  {
    if i > 0 {
      LowZeros(a, i - 1);
      assert 0 * W(i - 1) == 0;
    }
  }

  method Normalize(limbs: seq<u64>) returns (r: BigUint)
    ensures Val(r) == Val(limbs)
  {
    var s := limbs;
    while |s| > 0 && s[|s| - 1] == 0
      invariant Val(s) == Val(limbs)
    {
      assert s == s[..|s| - 1] + [0];
      ValPush(s[..|s| - 1], 0);
      s := s[..|s| - 1];
    }
    r := s;
  }

  // -------------------------------------------------------------- comparison

  method Cmp(a: BigUint, b: BigUint) returns (o: Ordering)
    ensures o == if Val(a) < Val(b) then Less else if Val(a) == Val(b) then Equal else Greater
  {
    if |a| < |b| {
      LongerIsLarger(b, a);
      return Less;
    } else if |a| > |b| {
      LongerIsLarger(a, b);
      return Greater;
    }
    var i := |a|;
    while i > 0
      invariant 0 <= i <= |a| && a[i..] == b[i..]
    {
      i := i - 1;
      if a[i] != b[i] {
        if a[i] < b[i] {
          HigherDigitDecides(a, b, i);
          return Less;
        } else {
          HigherDigitDecides(b, a, i);
          return Greater;
        }
      }
      assert a[i..] == [a[i]] + a[i + 1..] && b[i..] == [b[i]] + b[i + 1..];
    }
    assert a == a[0..] && b == b[0..];
    return Equal;
  }

  /** Limbs are a unique representation: equal numbers have equal limbs. */
  lemma {:induction false} ValInjective(a: BigUint, b: BigUint)
    requires Val(a) == Val(b)
    ensures a == b
  {
    if |a| > |b| {
      LongerIsLarger(a, b);
    } else if |b| > |a| {
      LongerIsLarger(b, a);
    } else {
      EqualDigits(a, b, 0);
    }
  }

  lemma {:induction false} EqualDigits(a: seq<u64>, b: seq<u64>, i: nat)
    requires i <= |a| == |b| && Val(a) == Val(b)
    ensures a[i..] == b[i..]
    decreases |a| - i
  {
    if i < |a| {
      EqualDigits(a, b, i + 1);
      if a[i] < b[i] {
        HigherDigitDecides(a, b, i);
      } else if b[i] < a[i] {
        HigherDigitDecides(b, a, i);
      }
      assert a[i..] == [a[i]] + a[i + 1..] && b[i..] == [b[i]] + b[i + 1..];
    }
  }

  // -------------------------------------------------------------- arithmetic

  method Add(a: BigUint, b: BigUint) returns (r: BigUint)
    ensures Val(r) == Val(a) + Val(b)
  {
    var len := if |a| >= |b| then |a| else |b|;
    var result: seq<u64> := [];
    var carry: u128 := 0;
    var i := 0;
    while i < len
      invariant 0 <= i <= len && |result| == i && carry <= 1
      invariant Val(result) + carry * W(i) == Low(a, i) + Low(b, i)
    {
      var sum: u128 := Get(a, i) + Get(b, i) + carry;
      DivModId(sum, TWO_64);
      AddStep(a, b, result, i, carry, sum / TWO_64, sum % TWO_64);
      result := result + [sum % TWO_64];
      carry := sum / TWO_64;
      i := i + 1;
    }
    LowPast(a, len);
    LowPast(b, len);
    if carry > 0 {
      ValPush(result, carry);
      result := result + [carry];
    }
    r := Normalize(result);
  }

  lemma CarryStep(x: int, c: int, c': int, d: int, w: int)
    requires x + c == c' * TWO_64 + d
    ensures d * w + c' * (TWO_64 * w) == c * w + x * w
  {
    assert (c' * TWO_64 + d) * w == (x + c) * w;
  }

  lemma AddStep(a: seq<u64>, b: seq<u64>, result: seq<u64>, i: nat, carry: int, carry': int, digit: u64)
    requires |result| == i && Val(result) + carry * W(i) == Low(a, i) + Low(b, i)
    requires Get(a, i) + Get(b, i) + carry == carry' * TWO_64 + digit
    ensures Val(result + [digit]) + carry' * W(i + 1) == Low(a, i + 1) + Low(b, i + 1)
  {
    ValPush(result, digit);
    WStep(i);
    CarryStep(Get(a, i) + Get(b, i), carry, carry', digit, W(i));
    SplitProduct(Get(a, i), Get(b, i), W(i));
  }

  lemma SplitProduct(x: int, y: int, w: int)
    ensures (x + y) * w == x * w + y * w
    ensures (x - y) * w == x * w - y * w
  {}

  lemma SubStep(a: seq<u64>, b: seq<u64>, result: seq<u64>, i: nat, borrow: int, borrow': int, digit: u64)
    requires |result| == i && Val(result) - borrow * W(i) == Low(a, i) - Low(b, i)
    requires Get(a, i) - Get(b, i) - borrow == digit - borrow' * TWO_64
    ensures Val(result + [digit]) - borrow' * W(i + 1) == Low(a, i + 1) - Low(b, i + 1)
  {
    ValPush(result, digit);
    WStep(i);
    CarryStep(Get(a, i) - Get(b, i), -borrow, -borrow', digit, W(i));
    SplitProduct(Get(a, i), Get(b, i), W(i));
    NegatedProducts(borrow, W(i), borrow', W(i + 1));
  }

  lemma NegatedProducts(b: int, v: int, b': int, w: int)
    ensures (-b) * v == -(b * v) && (-b') * w == -(b' * w)
  {}

  lemma MulStep(a: seq<u64>, s: u64, result: seq<u64>, i: nat, carry: int, carry': int, digit: u64)
    requires |result| == i && Val(result) + carry * W(i) == Low(a, i) * s
    requires Get(a, i) * s + carry == carry' * TWO_64 + digit
    ensures Val(result + [digit]) + carry' * W(i + 1) == Low(a, i + 1) * s
  {
    ValPush(result, digit);
    WStep(i);
    CarryStep(Get(a, i) * s, carry, carry', digit, W(i));
    ScaleStep(Low(a, i), Get(a, i), W(i), s);
  }

  method Sub(a: BigUint, b: BigUint) returns (r: BigUint)
    requires Val(a) >= Val(b)
    ensures Val(r) == Val(a) - Val(b)
  {
    if |b| > |a| {
      LongerIsLarger(b, a);
    }
    var result: seq<u64> := [];
    var borrow := 0;
    var i := 0;
    while i < |a|
      invariant 0 <= i <= |a| && |result| == i && 0 <= borrow <= 1
      invariant Val(result) - borrow * W(i) == Low(a, i) - Low(b, i)
    {
      var diff := a[i] - Get(b, i) - borrow;
      ghost var oldBorrow := borrow;
      if diff < 0 {
        diff := diff + TWO_64;
        borrow := 1;
      } else {
        borrow := 0;
      }
      SubStep(a, b, result, i, oldBorrow, borrow, diff);
      result := result + [diff];
      i := i + 1;
    }
    LowPast(b, |a|);
    LowBound(result, |a|);
    assert borrow == 0;
    r := Normalize(result);
  }

  method MulU64(a: BigUint, scalar: u64) returns (r: BigUint)
    ensures Val(r) == Val(a) * scalar
  {
    if scalar == 0 || |a| == 0 {
      assert Val(a) * scalar == 0;
      return [];
    }
    var result: seq<u64> := [];
    var carry: u128 := 0;
    var i := 0;
    while i < |a|
      invariant 0 <= i <= |a| && |result| == i && carry < TWO_64
      invariant Val(result) + carry * W(i) == Low(a, i) * scalar
    {
      MulBound(a[i], TWO_64 - 1, scalar, TWO_64 - 1);
      var product: u128 := a[i] * scalar + carry;
      DivModId(product, TWO_64);
      TopHalf(product);
      MulStep(a, scalar, result, i, carry, product / TWO_64, product % TWO_64);
      result := result + [product % TWO_64];
      carry := product / TWO_64;
      i := i + 1;
    }
    if carry > 0 {
      ValPush(result, carry);
      result := result + [carry];
    }
    r := Normalize(result);
  }

  lemma TopHalf(x: u128)
    ensures 0 <= x / TWO_64 < TWO_64
  {}

  lemma ScaleStep(l: int, x: int, w: int, s: int)
    ensures (l + x * w) * s == l * s + x * s * w
  {}

  /** Schoolbook long division by one limb, most significant limb first. */
  method DivmodU64(a: BigUint, divisor: u64) returns (q: BigUint, r: u64)
    requires divisor != 0
    ensures Val(a) == Val(q) * divisor + r && r < divisor
  {
    var quotient: seq<u64> := seq(|a|, _ => 0);
    var remainder: u128 := 0;
    var i := |a|;
    while i > 0
      invariant 0 <= i <= |a| && |quotient| == |a| && remainder < divisor
      invariant High(a, i) == High(quotient, i) * divisor + remainder
    {
      i := i - 1;
      var current: u128 := remainder * TWO_64 + a[i];
      DivModId(current, divisor);
      QuotientFits(current, divisor, TWO_64);
      ghost var before := quotient;
      quotient := quotient[i := current / divisor];
      HighExt(before, quotient, i + 1);
      LongDivisionStep(High(quotient, i + 1), divisor, remainder, a[i], current / divisor, current % divisor);
      remainder := current % divisor;
    }
    ValHigh(a);
    ValHigh(quotient);
    q := Normalize(quotient);
    r := remainder;
  }

  lemma QuotientFits(x: int, d: int, b: int)
    requires 0 <= x < d * b && d > 0
    ensures 0 <= x / d < b
  {
    DivModId(x, d);
    if x / d >= b {
      MulMono(b, x / d, d);
    } else if x / d < 0 {
      MulMono(x / d, -1, d);
    }
  }

  lemma LongDivisionStep(h: int, d: int, r: int, x: int, q: int, r': int)
    requires r * TWO_64 + x == q * d + r'
    ensures x + TWO_64 * (h * d + r) == (q + TWO_64 * h) * d + r'
  {}
}
