/** Bit access, shifts, and binary long division of big integers. */
module BigUintDivision {
  import opened Integers
  import opened BigUints

  lemma {:induction false} WeightIsPower(i: nat)
    ensures W(i) == TwoTo(64 * i)
  {
    TwoTo64();
    PowMul(2, 64, i);
  }

  // -------------------------------------------------------------------- bits

  /** Position just above the highest set bit. */
  function BitLen(x: u64): (r: nat)
    ensures x < TwoTo(r)
    ensures r > 0 ==> x >= TwoTo(r - 1)
  {
    if x == 0 then 0 else
      DivModId(x, 2);
      1 + BitLen(x / 2)
  }

  lemma {:induction false} BitLenFits(x: u64, k: nat)
    requires x < TwoTo(k)
    ensures BitLen(x) <= k
  {
    if x > 0 {
      DivModId(x, 2);
      TwoToStep(k - 1);
      BitLenFits(x / 2, k - 1);
    }
  }

  function BitLength(a: BigUint): (r: nat)
    ensures r <= 64 * |a| && Val(a) < TwoTo(r)
    ensures r > 0 ==> TwoTo(r - 1) <= Val(a)
  {
    if |a| == 0 then 0 else
      TwoTo64();
      BitLenFits(a[|a| - 1], 64);
      BitLengthBound(a);
      (|a| - 1) * 64 + BitLen(a[|a| - 1])
  }

  lemma BitLengthBound(a: BigUint)
    requires |a| > 0
    ensures Val(a) < TwoTo((|a| - 1) * 64 + BitLen(a[|a| - 1]))
    ensures BitLen(a[|a| - 1]) > 0 && TwoTo((|a| - 1) * 64 + BitLen(a[|a| - 1]) - 1) <= Val(a)
  {
    var k := |a| - 1;
    var top: int := a[k];
    LowBound(a, k);
    WeightIsPower(k);
    TwoToAdd(64 * k, BitLen(a[k]));
    TopLimbBound(Low(a, k), top, W(k), TwoTo(BitLen(a[k])));
    TwoToAdd(64 * k, BitLen(a[k]) - 1);
    MulMono(TwoTo(BitLen(a[k]) - 1), top, W(k));
    IntMulSwap(W(k), TwoTo(BitLen(a[k]) - 1));
  }

  lemma IntMulSwap(x: int, y: int)
    ensures x * y == y * x
  {}

  lemma TopLimbBound(low: int, x: int, w: int, p: int)
    requires low < w && x < p && w >= 0
    ensures low + x * w < w * p
  {
    MulMono(x + 1, p, w);
    assert (x + 1) * w == x * w + w;
  }

  predicate BitAt(a: seq<u64>, n: nat)
    ensures BitAt(a, n) <==> Val(a) / TwoTo(n) % 2 == 1
  {
    if n / 64 < |a| then
      BitOfVal(a, n);
      a[n / 64] / TwoTo(n % 64) % 2 == 1
    else
      BitPastEnd(a, n);
      false
  }

  lemma BitPastEnd(a: seq<u64>, n: nat)
    requires n / 64 >= |a|
    ensures Val(a) / TwoTo(n) == 0
  {
    var i, r := n / 64, n % 64;
    LowBound(a, |a|);
    WMono(|a|, i);
    WeightIsPower(i);
    TwoToAdd(64 * i, r);
    MulMono(1, TwoTo(r), W(i));
    SmallMod(Val(a), TwoTo(n));
  }

  lemma BitOfVal(a: seq<u64>, n: nat)
    requires n / 64 < |a|
    ensures a[n / 64] / TwoTo(n % 64) % 2 == Val(a) / TwoTo(n) % 2
  {
    var i, r := n / 64, n % 64;
    Split(a, i);
    LowBound(a, i);
    WeightIsPower(i);
    TwoToAdd(64 * i, r);
    NestedQuotient(Low(a, i), High(a, i), W(i), TwoTo(r));
    HalfSplit(r);
    EvenMultiple(a[i], TwoTo(r), TwoTo(63 - r), High(a, i + 1));
  }

  lemma HalfSplit(r: nat)
    requires r < 64
    ensures TwoTo(r) * (2 * TwoTo(63 - r)) == TWO_64
  {
    TwoTo64();
    TwoToAdd(r, 64 - r);
    TwoToStep(63 - r);
  }

  lemma NestedQuotient(low: int, x: int, w: int, p: int)
    requires 0 <= low < w && p > 0
    ensures w * p > 0 && (low + x * w) / (w * p) == x / p
  {
    DivModId(x, p);
    NestedRemainder(low, x / p, x % p, w, p);
    DivModUnique(low + x * w, w * p, x / p, x % p * w + low);
  }

  lemma NestedRemainder(low: int, h: int, l: int, w: int, p: int)
    requires 0 <= low < w && 0 <= l < p
    ensures low + (h * p + l) * w == h * (w * p) + (l * w + low)
    ensures 0 <= l * w + low < w * p
  {
    MulMono(l + 1, p, w);
    assert (l + 1) * w == l * w + w;
    MulBound(l, l, w, w);
  }

  lemma EvenMultiple(x: int, p: int, half: int, h: int)
    requires p > 0 && p * (2 * half) == TWO_64
    ensures (x + TWO_64 * h) / p % 2 == x / p % 2
  {
    DivModId(x, p);
    var q := x / p;
    EvenArith(q, p, half, h, x % p);
    DivModUnique(x + TWO_64 * h, p, q + half * h * 2, x % p);
    CongBy(q + half * h * 2, q, 2, half * h);
    CongIffMod(q + half * h * 2, q, 2);
  }

  lemma EvenArith(q: int, p: int, half: int, h: int, r: int)
    requires p * (2 * half) == TWO_64
    ensures q * p + r + TWO_64 * h == (q + half * h * 2) * p + r
  {
    calc {
      TWO_64 * h;
      p * (2 * half) * h;
      half * h * 2 * p;
    }
    assert (q + half * h * 2) * p == q * p + half * h * 2 * p;
  }

  /** `x | (1 << k)`. */
  function SetBit(x: u64, k: nat): (r: u64)
    requires k < 64
    ensures r == if x / TwoTo(k) % 2 == 1 then x else x + TwoTo(k)
  {
    if x / TwoTo(k) % 2 == 1 then x else
      ClearBitRoom(x, k);
      x + TwoTo(k)
  }

  lemma ClearBitRoom(x: u64, k: nat)
    requires k < 64 && x / TwoTo(k) % 2 != 1
    ensures x + TwoTo(k) < TWO_64
  {
    HalfSplit(k);
    DivModId(x, TwoTo(k));
    DivModId(x / TwoTo(k), 2);
    EvenQuotientRoom(x, x / TwoTo(k) / 2, x % TwoTo(k), TwoTo(k), TwoTo(63 - k));
  }

  lemma EvenQuotientRoom(x: int, h: int, r: int, p: int, half: int)
    requires x == h * 2 * p + r && 0 <= r < p && x < TWO_64 && p * (2 * half) == TWO_64
    ensures x + p < TWO_64
  {
    assert half * (2 * p) == TWO_64 && h * (2 * p) == h * 2 * p;
    assert (h + 1) * (2 * p) == h * (2 * p) + 2 * p;
    if h >= half {
      MulMono(half, h, 2 * p);
    } else {
      MulMono(h + 1, half, 2 * p);
    }
  }

  // ------------------------------------------------------------------ shifts

  /** A limb shifted left splits into the part that stays and the part that
      moves on.  The low `bits` positions of the part that stays are clear, so
      or-ing a carry below `2^bits` into it is adding it. */
  lemma ShiftedLimb(x: u64, bits: nat)
    requires 0 < bits < 64
    ensures var p, hi, lo := TwoTo(bits), x / TwoTo(64 - bits), x * TwoTo(bits) % TWO_64;
            && x * p == hi * TWO_64 + lo
            && 0 <= hi < p && 0 <= lo <= TWO_64 - p && lo % p == 0
  {
    var p, p' := TwoTo(bits), TwoTo(64 - bits);
    TwoToAdd(bits, 64 - bits);
    TwoTo64();
    DivModId(x, p');
    ShiftedLimbArith(x, x / p', x % p', p, p');
    DivModUnique(x * p, TWO_64, x / p', x % p' * p);
    DivModUnique(x % p' * p, p, x % p', 0);
  }

  lemma ShiftedLimbArith(x: int, h: int, l: int, p: int, p': int)
    requires p * p' == TWO_64 && p > 0 && p' > 0
    requires 0 <= x < TWO_64 && x == h * p' + l && 0 <= l < p'
    ensures x * p == h * TWO_64 + l * p
    ensures 0 <= l * p <= TWO_64 - p && 0 <= h < p
  {
    calc {
      x * p;
      h * p' * p + l * p;
      h * (p * p') + l * p;
    }
    MulMono(l, p' - 1, p);
    assert (p' - 1) * p == p * p' - p;
    MulBound(l, l, p, p);
    if h >= p {
      MulMono(p, h, p');
    }
    if h < 0 {
      MulMono(h, -1, p');
    }
  }

  method Shl(a: BigUint, bits: nat) returns (r: BigUint)
    ensures Val(r) == Val(a) * TwoTo(bits)
  {
    if |a| == 0 || bits == 0 {
      return a;
    }
    var limbShift, bitShift := bits / 64, bits % 64;
    var limbs: seq<u64>;
    WeightIsPower(limbShift);
    TwoToAdd(bitShift, 64 * limbShift);
    if bitShift == 0 {
      ZeroPrefix(limbShift, a);
      limbs := seq(limbShift, _ => 0) + a;
    } else {
      limbs := ShlBits(a, limbShift, bitShift);
    }
    r := Normalize(limbs);
  }

  method ShlBits(a: BigUint, limbShift: nat, bitShift: nat) returns (limbs: seq<u64>)
    requires 0 < bitShift < 64
    ensures Val(limbs) == Val(a) * (TwoTo(bitShift) * W(limbShift))
  {
    limbs := seq(limbShift, _ => 0);
    var carry: u64 := 0;
    LowZeros(limbs, limbShift);
    var i := 0;
    while i < |a|
      invariant 0 <= i <= |a| && |limbs| == limbShift + i && carry < TwoTo(bitShift)
      invariant Val(limbs) + carry * W(limbShift + i) == Low(a, i) * (TwoTo(bitShift) * W(limbShift))
    {
      ShiftedLimb(a[i], bitShift);
      var stays: u64 := a[i] * TwoTo(bitShift) % TWO_64;
      var next: u64 := stays + carry;
      ShlStep(a, limbs, limbShift, bitShift, i, carry, stays);
      limbs := limbs + [next];
      carry := a[i] / TwoTo(64 - bitShift);
      i := i + 1;
    }
    if carry != 0 {
      ValPush(limbs, carry);
      limbs := limbs + [carry];
    }
  }

  lemma ShlStep(a: seq<u64>, limbs: seq<u64>, limbShift: nat, bitShift: nat, i: nat, carry: u64, stays: u64)
    requires 0 < bitShift < 64 && i < |a| && |limbs| == limbShift + i
    requires stays == a[i] * TwoTo(bitShift) % TWO_64 && stays + carry < TWO_64
    requires Val(limbs) + carry * W(limbShift + i) == Low(a, i) * (TwoTo(bitShift) * W(limbShift))
    ensures Val(limbs + [stays + carry]) + a[i] / TwoTo(64 - bitShift) * W(limbShift + i + 1)
         == Low(a, i + 1) * (TwoTo(bitShift) * W(limbShift))
  {
    ShiftedLimb(a[i], bitShift);
    ValPush(limbs, stays + carry);
    PowAdd(TWO_64, limbShift, i);
    ShlArith(Low(a, i), a[i], carry, a[i] / TwoTo(64 - bitShift), stays, TwoTo(bitShift), W(limbShift), W(i),
             W(limbShift + i), W(limbShift + i + 1), Val(limbs));
  }

  lemma ShlArith(low: int, x: int, c: int, hi: int, lo: int, p: int, w: int, v: int, wv: int, next: int, val: int)
    requires x * p == hi * TWO_64 + lo && wv == w * v && next == TWO_64 * wv
    requires val + c * wv == low * (p * w)
    ensures val + (lo + c) * wv + hi * next == (low + x * v) * (p * w)
  {
    calc {
      val + (lo + c) * wv + hi * next;
      val + c * wv + (lo + hi * TWO_64) * wv;
      low * (p * w) + x * p * wv;
      { MulInterchange(x, p, v, w); }
      low * (p * w) + x * v * (p * w);
      (low + x * v) * (p * w);
    }
  }

  // ----------------------------------------------------------- long division

  lemma HalveQuotient(x: int, b: nat)
    requires x >= 0
    ensures x / TwoTo(b) == 2 * (x / TwoTo(b + 1)) + x / TwoTo(b) % 2
  {
    var p := TwoTo(b);
    DivModId(x, p);
    NestedQuotient(x % p, x / p, p, 2);
    DivModId(x / p, 2);
    TwoToStep(b);
  }

  lemma BringDown(a: int, b: nat, q: int, d: int, r: int, bit: int)
    requires a >= 0 && a / TwoTo(b + 1) == q * d + r && bit == a / TwoTo(b) % 2
    ensures a / TwoTo(b) == 2 * q * d + (2 * r + bit)
  {
    HalveQuotient(a, b);
    assert 2 * (q * d + r) == 2 * q * d + 2 * r;
  }

  lemma QuotientSet(quotient: seq<u64>, b: nat, q: int)
    requires b / 64 < |quotient| && Val(quotient) == q * TwoTo(b + 1)
    ensures Val(quotient[b / 64 := SetBit(quotient[b / 64], b % 64)]) == (2 * q + 1) * TwoTo(b)
  {
    var i, r := b / 64, b % 64;
    TwoToStep(b);
    DoubleArith(q, TwoTo(b));
    BitOfVal(quotient, b);
    DivModUnique(Val(quotient), TwoTo(b), 2 * q, 0);
    DivModUnique(2 * q, 2, q, 0);
    LowUpdate(quotient, i, SetBit(quotient[i], r), |quotient|);
    WeightIsPower(i);
    TwoToAdd(r, 64 * i);
    assert r + 64 * i == b;
  }

  lemma DoubleArith(q: int, p: int)
    ensures q * (2 * p) == 2 * q * p
    ensures (2 * q + 1) * p == 2 * q * p + p
  {}

  /** General division: quotient and remainder of the two numbers. */
  method Divmod(a: BigUint, d: BigUint) returns (q: BigUint, r: BigUint)
    requires Val(d) != 0
    ensures Val(a) == Val(q) * Val(d) + Val(r) && 0 <= Val(r) < Val(d)
  {
    ValHigh(a);
    ValHigh(d);
    var o := Cmp(a, d);
    if o == Less {
      return Zero(), a;
    }
    if |d| == 1 {
      assert Low(d, 1) == Low(d, 0) + Get(d, 0) * W(0);
      var q0, r0 := DivmodU64(a, d[0]);
      return q0, FromU64(r0);
    }
    q, r := DivmodBits(a, d);
  }

  /** Doubles the running remainder, takes in one bit, and subtracts the divisor if it fits. */
  method ShiftIn(remainder: BigUint, bit: bool, d: BigUint) returns (next: BigUint, fits: bool)
    requires 0 <= Val(remainder) < Val(d)
    ensures 2 * Val(remainder) + (if bit then 1 else 0) == Val(next) + (if fits then Val(d) else 0)
    ensures 0 <= Val(next) < Val(d)
  {
    next := Shl(remainder, 1);
    TwoToStep(0);
    if bit {
      next := Add(next, FromU64(1));
    }
    var o := Cmp(next, d);
    fits := o != Less;
    if fits {
      next := Sub(next, d);
    }
  }

  /** Binary long division, most significant bit first. */
  method DivmodBits(a: BigUint, d: BigUint) returns (q: BigUint, r: BigUint)
    requires Val(d) > 0
    ensures Val(a) == Val(q) * Val(d) + Val(r) && 0 <= Val(r) < Val(d)
  {
    ValHigh(a);
    var quotient: seq<u64> := seq(|a|, _ => 0);
    var remainder := Zero();
    var bit := BitLength(a);
    ghost var Q := 0;
    LowZeros(quotient, |a|);
    SmallMod(Val(a), TwoTo(bit));
    while bit > 0
      invariant 0 <= bit <= 64 * |a| && |quotient| == |a|
      invariant Val(quotient) == Q * TwoTo(bit)
      invariant Val(a) / TwoTo(bit) == Q * Val(d) + Val(remainder)
      invariant 0 <= Val(remainder) < Val(d)
    {
      bit := bit - 1;
      BringDown(Val(a), bit, Q, Val(d), Val(remainder), if BitAt(a, bit) then 1 else 0);
      TwoToStep(bit);
      DoubleArith(Q, TwoTo(bit));
      DoubleArith(Q, Val(d));
      var fits;
      remainder, fits := ShiftIn(remainder, BitAt(a, bit), d);
      if fits {
        QuotientSet(quotient, bit, Q);
        quotient := quotient[bit / 64 := SetBit(quotient[bit / 64], bit % 64)];
        Q := 2 * Q + 1;
      } else {
        Q := 2 * Q;
      }
    }
    DivModUnique(Val(a), 1, Val(a), 0);
    q := Normalize(quotient);
    r := remainder;
  }

  /** Both division routines return the same limbs for a one-limb divisor:
      quotient and remainder are determined by the division identity. */
  lemma DivisionUnique(a: BigUint, d: BigUint, q: BigUint, r: BigUint, q': BigUint, r': BigUint)
    requires Val(a) == Val(q) * Val(d) + Val(r) && 0 <= Val(r) < Val(d)
    requires Val(a) == Val(q') * Val(d) + Val(r') && 0 <= Val(r') < Val(d)
    ensures q == q' && r == r'
  {
    QuotientUnique(Val(d), Val(q), Val(r), Val(q'), Val(r'));
    ValInjective(q, q');
    ValInjective(r, r');
  }
}
