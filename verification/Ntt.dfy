/** The in-place negacyclic transform. */
module Ntt {
  import opened Integers
  import opened Reduce
  import opened Negacyclic
  import opened Evaluation
  import opened Dft
  import opened NttTables
  import Barrett

  ghost predicate AllBelow(a: seq<int>, q: int) {
    forall i :: 0 <= i < |a| ==> a[i] < q
  }

  /** The Barrett path when both operands are reduced, plain division otherwise. */
  method MulResidue(reducer: Barrett.BarrettReducer, a: u64, b: u64, modulus: u64) returns (r: u64)
    requires reducer.Valid() && reducer.modulus == modulus
    ensures r == a * b % modulus && r < modulus && Cong(r, a * b, modulus)
  {
    ModCong(a * b, modulus);
    DivModId(a * b, modulus);
    if a < modulus && b < modulus {
      ReducedProduct(a, b, modulus);
      r := Barrett.Reduce(reducer, a * b);
    } else {
      r := MulMod(a, b, modulus);
    }
  }

  lemma ReducedProduct(a: int, b: int, m: int)
    requires 0 <= a < m && 0 <= b < m < TWO_64
    ensures 0 <= a * b < m * TWO_64 && a * b < TWO_128
  {
    MulBound(a, m - 1, b, m - 1);
    MulMono(m - 1, TWO_64 - 1, m - 1);
    MulMono(m - 1, TWO_64 - 1, m);
  }

  // ---------------------------------------------------------------- permutation

  method ReverseBits(x: nat, bits: nat) returns (result: nat)
    ensures result == Rev2(bits, x)
  {
    result := 0;
    var y := x;
    for i := 0 to bits
      invariant Rev2(bits, x) == result * TwoTo(bits - i) + Rev2(bits - i, y)
    {
      ReverseStep(result, y, bits - i);
      result := 2 * result + y % 2;
      y := y / 2;
    }
  }

  lemma ReverseStep(r: nat, y: nat, k: nat)
    requires k > 0
    ensures r * TwoTo(k) + Rev2(k, y) == (2 * r + y % 2) * TwoTo(k - 1) + Rev2(k - 1, y / 2)
  {
    TwoToStep(k - 1);
    ReverseArith(r, y % 2, TwoTo(k - 1));
  }

  lemma ReverseArith(r: int, b: int, p: int)
    ensures r * (2 * p) + b * p == (2 * r + b) * p
  {}

  /** Position `p` after the swaps of all indices below `i`. */
  ghost predicate PermutedAt(before: seq<int>, after: seq<int>, bits: nat, i: nat, p: nat)
    requires |before| == |after| == TwoTo(bits) && p < |after|
  {
    after[p] == before[if p < i || Rev2(bits, p) < i then Rev2(bits, p) else p]
  }

  ghost predicate Permuted(before: seq<int>, after: seq<int>, bits: nat, i: nat)
    requires |before| == |after| == TwoTo(bits)
  {
    forall p :: 0 <= p < |after| ==> PermutedAt(before, after, bits, i, p)
  }

  lemma PermuteStep(before: seq<int>, mid: seq<int>, after: seq<int>, bits: nat, i: nat, j: nat)
    requires |before| == |mid| == |after| == TwoTo(bits) && i < |before| && j == Rev2(bits, i)
    requires Permuted(before, mid, bits, i)
    requires if j > i then after == mid[i := mid[j]][j := mid[i]] else after == mid
    ensures Permuted(before, after, bits, i + 1)
  {
    hide Rev2;
    Rev2Involution(bits, i);
    var next := i + 1;
    forall p | 0 <= p < |after|
      ensures PermutedAt(before, after, bits, next, p)
    {
      Rev2Involution(bits, p);
      assert PermutedAt(before, mid, bits, i, p);
      assert PermutedAt(before, mid, bits, i, i);
      assert PermutedAt(before, mid, bits, i, j);
    }
  }

  lemma PermutedBelow(before: seq<int>, after: seq<int>, bits: nat, q: int)
    requires |before| == |after| == TwoTo(bits) && Permuted(before, after, bits, |after|)
    requires AllBelow(before, q)
    ensures AllBelow(after, q)
  {
    forall p | 0 <= p < |after| ensures after[p] < q {
      assert PermutedAt(before, after, bits, |after|, p);
    }
  }

  method BitReversePermute(a: array<u64>, logN: nat)
    requires a.Length == TwoTo(logN)
    modifies a
    ensures Permuted(old(a[..]), a[..], logN, a.Length)
  {
    hide Rev2, Permuted;
    PermuteStart(a[..], logN);
    for i := 0 to a.Length
      invariant Permuted(old(a[..]), a[..], logN, i)
    {
      ghost var mid := a[..];
      var j := ReverseBits(i, logN);
      if j > i {
        a[i], a[j] := a[j], a[i];
      }
      PermuteStep(old(a[..]), mid, a[..], logN, i, j);
    }
  }

  lemma PermuteStart(a: seq<int>, bits: nat)
    requires |a| == TwoTo(bits)
    ensures Permuted(a, a, bits, 0)
  {}

  // ---------------------------------------------------------------- butterflies

  /** The state of one block after `j` of its butterflies. */
  ghost predicate BlockDone(before: seq<int>, after: seq<int>, k: nat, h: nat, w: int, q: int, j: nat)
    requires h > 0 && |before| == |after| && |before| % (2 * h) == 0 && k + 2 * h <= |after| && j <= h
  {
    && (forall p :: k <= p < k + j ==> ButterflyAt(before, after, h, w, q, p))
    && (forall p :: k + h <= p < k + h + j ==> ButterflyAt(before, after, h, w, q, p))
    && (forall p :: 0 <= p < |after| && !(k <= p < k + j) && !(k + h <= p < k + h + j) ==> after[p] == before[p])
  }

  lemma NewButterflies(before: seq<int>, mid: seq<int>, after: seq<int>, k: nat, h: nat, w: int, q: int, j: nat,
                       wj: int, t: int)
    requires h > 0 && |before| == |mid| == |after| && |before| % (2 * h) == 0
    requires k % (2 * h) == 0 && k + 2 * h <= |after| && j < h
    requires mid[k + j] == before[k + j] && mid[k + j + h] == before[k + j + h]
    requires Cong(wj, Pow(w, j), q) && Cong(t, wj * mid[k + j + h], q)
    requires Cong(after[k + j], mid[k + j] + t, q) && Cong(after[k + j + h], mid[k + j] - t, q)
    ensures ButterflyAt(before, after, h, w, q, k + j)
    ensures ButterflyAt(before, after, h, w, q, k + j + h)
  {
    hide Pow, Cong;
    DivModId(k, 2 * h);
    DivModUnique(k + j, 2 * h, k / (2 * h), j);
    DivModUnique(k + j + h, 2 * h, k / (2 * h), j + h);
    ButterflyValues(before[k + j], before[k + j + h], wj, Pow(w, j), t, after[k + j], after[k + j + h], q);
  }

  lemma ButterflyValues(u: int, v: int, wj: int, p: int, t: int, x: int, y: int, q: int)
    requires Cong(wj, p, q) && Cong(t, wj * v, q) && Cong(x, u + t, q) && Cong(y, u - t, q)
    ensures Cong(x, u + p * v, q) && Cong(y, u - p * v, q)
  {
    CongRefl(v, q);
    CongMul(wj, p, v, v, q);
    CongTrans(t, wj * v, p * v, q);
    CongRefl(u, q);
    CongAdd(u, u, t, p * v, q);
    CongSub(u, u, t, p * v, q);
    CongTrans(x, u + t, u + p * v, q);
    CongTrans(y, u - t, u - p * v, q);
  }

  lemma BlockStep(before: seq<int>, mid: seq<int>, after: seq<int>, k: nat, h: nat, w: int, q: int, j: nat,
                  wj: int, t: int)
    requires h > 0 && |before| == |mid| == |after| && |before| % (2 * h) == 0
    requires k % (2 * h) == 0 && k + 2 * h <= |after| && j < h
    requires BlockDone(before, mid, k, h, w, q, j)
    requires Cong(wj, Pow(w, j), q) && Cong(t, wj * mid[k + j + h], q)
    requires Cong(after[k + j], mid[k + j] + t, q) && Cong(after[k + j + h], mid[k + j] - t, q)
    requires forall p :: 0 <= p < |after| && p != k + j && p != k + j + h ==> after[p] == mid[p]
    ensures BlockDone(before, after, k, h, w, q, j + 1)
  {
    hide Pow, Cong;
    NewButterflies(before, mid, after, k, h, w, q, j, wj, t);
    forall p | k <= p < k + j + 1
      ensures ButterflyAt(before, after, h, w, q, p)
    {
      if p < k + j {
        assert ButterflyAt(before, mid, h, w, q, p);
      }
    }
    forall p | k + h <= p < k + h + j + 1
      ensures ButterflyAt(before, after, h, w, q, p)
    {
      if p < k + h + j {
        assert ButterflyAt(before, mid, h, w, q, p);
      }
    }
  }

  /** The inner loop: the butterflies of the block starting at `k`. */
  method ButterflyBlock(a: array<u64>, k: nat, h: nat, wm: u64, reducer: Barrett.BarrettReducer, q: u64)
    requires h > 0 && a.Length % (2 * h) == 0 && k % (2 * h) == 0 && k + 2 * h <= a.Length
    requires reducer.Valid() && reducer.modulus == q
    modifies a
    ensures BlockDone(old(a[..]), a[..], k, h, wm, q, h)
    ensures AllBelow(old(a[..]), q) ==> AllBelow(a[..], q)
  {
    var w: u64 := 1;
    CongRefl(1, q);
    for j := 0 to h
      invariant BlockDone(old(a[..]), a[..], k, h, wm, q, j)
      invariant Cong(w, Pow(wm, j), q)
      invariant AllBelow(old(a[..]), q) ==> AllBelow(a[..], q)
    {
      ghost var mid := a[..];
      var t := MulResidue(reducer, w, a[k + j + h], q);
      var u := a[k + j];
      a[k + j] := AddMod(u, t, q);
      a[k + j + h] := SubMod(u, t, q);
      BlockStep(old(a[..]), mid, a[..], k, h, wm, q, j, w, t);
      var next := MulResidue(reducer, w, wm, q);
      CongRefl(wm, q);
      CongMul(w, Pow(wm, j), wm, wm, q);
      IntMulComm(Pow(wm, j), wm);
      CongTrans(next, w * wm, Pow(wm, j + 1), q);
      w := next;
    }
  }

  /** Butterflies done below `k`, nothing touched from `k` on. */
  ghost predicate StageDone(before: seq<int>, after: seq<int>, h: nat, w: int, q: int, k: nat)
    requires h > 0 && |before| == |after| && |before| % (2 * h) == 0
  {
    && (forall p :: 0 <= p < k && p < |after| ==> ButterflyAt(before, after, h, w, q, p))
    && (forall p :: k <= p < |after| ==> after[p] == before[p])
  }

  lemma BlockExtends(before: seq<int>, mid: seq<int>, after: seq<int>, k: nat, h: nat, w: int, q: int)
    requires h > 0 && |before| == |mid| == |after| && |before| % (2 * h) == 0
    requires k % (2 * h) == 0 && k + 2 * h <= |after|
    requires StageDone(before, mid, h, w, q, k) && BlockDone(mid, after, k, h, w, q, h)
    ensures StageDone(before, after, h, w, q, k + 2 * h)
  {
    hide Pow;
    DivModId(k, 2 * h);
    forall p | 0 <= p < k + 2 * h
      ensures ButterflyAt(before, after, h, w, q, p)
    {
      if p < k {
        assert ButterflyAt(before, mid, h, w, q, p);
      } else {
        assert ButterflyAt(mid, after, h, w, q, p);
        DivModUnique(p, 2 * h, k / (2 * h), p - k);
      }
    }
  }

  lemma NextBlock(n: nat, k: nat, m: nat)
    requires m > 0 && n % m == 0 && k % m == 0 && k < n
    ensures k + m <= n && (k + m) % m == 0
  {
    DivModId(n, m);
    DivModId(k, m);
    if n / m <= k / m {
      MulMono(n / m, k / m, m);
    }
    MulMono(k / m + 1, n / m, m);
    assert (k / m + 1) * m == k / m * m + m;
    DivModUnique(k + m, m, k / m + 1, 0);
  }

  /** One butterfly stage with blocks of size `m = 2h`. */
  method ButterflyStage(a: array<u64>, h: nat, wm: u64, reducer: Barrett.BarrettReducer, q: u64)
    requires h > 0 && a.Length % (2 * h) == 0
    requires reducer.Valid() && reducer.modulus == q
    modifies a
    ensures forall p :: 0 <= p < a.Length ==> ButterflyAt(old(a[..]), a[..], h, wm, q, p)
    ensures AllBelow(old(a[..]), q) ==> AllBelow(a[..], q)
  {
    var m := 2 * h;
    var k := 0;
    SmallMod(0, m);
    while k < a.Length
      invariant 0 <= k <= a.Length && k % m == 0
      invariant StageDone(old(a[..]), a[..], h, wm, q, k)
      invariant AllBelow(old(a[..]), q) ==> AllBelow(a[..], q)
    {
      NextBlock(a.Length, k, m);
      ghost var mid := a[..];
      ButterflyBlock(a, k, h, wm, reducer, q);
      BlockExtends(old(a[..]), mid, a[..], k, h, wm, q);
      k := k + m;
    }
  }

  function TrailingZeros(n: nat): (r: nat)
    requires n > 0
  {
    if n % 2 == 1 then 0 else 1 + TrailingZeros(n / 2)
  }

  lemma {:induction false} TrailingZerosOfPower(l: nat)
    ensures TrailingZeros(TwoTo(l)) == l
  {
    if l > 0 {
      TwoToStep(l - 1);
      DivModUnique(TwoTo(l), 2, TwoTo(l - 1), 0);
      TrailingZerosOfPower(l - 1);
    }
  }

  /** Positions hold the values at the powers of the root. */
  ghost predicate IsDft(x: Poly, a: seq<int>, root: int, q: int)
    requires |x| == |a| > 0
  {
    forall k :: 0 <= k < |a| ==> Cong(a[k], Eval(x, Pow(root, k)), q)
  }

  lemma StageSize(n: nat, l: nat, b: nat, h: nat)
    requires n == TwoTo(l) && b > 0 && h > 0 && h * TwoTo(b) == n
    ensures 2 * h * TwoTo(b - 1) == n && n % (2 * h) == 0 && n / (2 * h) == TwoTo(b - 1)
    ensures h * TwoTo(b - 1) == n / 2
  {
    TwoToStep(b - 1);
    var t := TwoTo(b - 1);
    assert 2 * h * t == h * (2 * t);
    IntMulComm(2 * h, t);
    DivModUnique(n, 2 * h, t, 0);
    assert n == h * t * 2;
    DivModUnique(n, 2, h * t, 0);
  }

  /** The bit-reversed input is the state before the first stage. */
  lemma FirstStage(x: Poly, a: seq<int>, l: nat, root: int, q: int)
    requires |x| == |a| == TwoTo(l) && Permuted(x, a, l, |a|)
    ensures Stage(x, a, l, 1, root, q)
  {
    hide StageAt, Rev2;
    forall p | 0 <= p < |a|
      ensures StageAt(x, a, l, 1, root, q, p)
    {
      assert PermutedAt(x, a, l, |a|, p);
      StageStart(x, a, l, root, q, p);
    }
  }

  lemma Finished(x: Poly, a: seq<int>, n: nat, root: int, q: int)
    requires |x| == |a| == n > 0 && n == n * TwoTo(0) && Stage(x, a, 0, n, root, q)
    ensures IsDft(x, a, root, q)
  {
    hide StageAt, Eval, Pow;
    forall p | 0 <= p < n
      ensures Cong(a[p], Eval(x, Pow(root, p)), q)
    {
      StageEnd(x, a, n, root, q, p);
    }
  }

  lemma SingleValue(x: Poly, root: int, q: int)
    requires |x| == 1
    ensures IsDft(x, x, root, q)
  {
    EvalOne(x, Pow(root, 0));
    CongRefl(x[0], q);
  }

  /** The iterative decimation-in-time network: bit reversal, then log2(n) butterfly stages. */
  method Radix2NttInplace(a: array<u64>, root: u64, reducer: Barrett.BarrettReducer, q: u64, ghost l: nat)
    requires a.Length == TwoTo(l) < TWO_64
    requires reducer.Valid() && reducer.modulus == q
    requires a.Length > 1 ==> Cong(Pow(root, a.Length / 2), -1, q)
    modifies a
    ensures IsDft(old(a[..]), a[..], root, q)
    ensures AllBelow(old(a[..]), q) ==> AllBelow(a[..], q)
  {
    hide Stage, IsDft, AllBelow, Permuted, Rev2, Pow, Cong, ButterflyAt;
    var n := a.Length;
    ghost var x: Poly := a[..];
    if n <= 1 {
      SingleValue(x, root, q);
      return;
    }
    TrailingZerosOfPower(l);
    var logN := TrailingZeros(n);
    BitReversePermute(a, logN);
    if AllBelow(x, q) {
      PermutedBelow(x, a[..], l, q);
    }
    FirstStage(x, a[..], l, root, q);
    ghost var b, h := l, 1;
    var m := 2;
    SeveralStages(l);
    LastStage(n, l, 1);
    while m <= n
      invariant m == 2 * h && h > 0 && h * TwoTo(b) == n
      invariant b == 0 <==> h == n
      invariant Stage(x, a[..], b, h, root, q)
      invariant AllBelow(x, q) ==> AllBelow(a[..], q)
      decreases n - h
    {
      StageSize(n, l, b, h);
      var wm := PowMod(root, n / m, q);
      ghost var before := a[..];
      ButterflyStage(a, m / 2, wm, reducer, q);
      StageStep(x, before, a[..], b - 1, h, root, wm, q);
      LastStage(n, b, h);
      b, h := b - 1, 2 * h;
      m := 2 * m;
    }
    LastBlock(n, b, h);
    Finished(x, a[..], n, root, q);
  }

  lemma SeveralStages(l: nat)
    requires TwoTo(l) > 1
    ensures l > 0
  {}

  lemma LastStage(n: nat, b: nat, h: nat)
    requires b > 0 && h > 0 && h * TwoTo(b) == n
    ensures b - 1 == 0 <==> 2 * h == n
    ensures h < n
  {
    TwoToStep(b - 1);
    var t := TwoTo(b - 1);
    assert h * (2 * t) == 2 * h * t;
    if b - 1 > 0 {
      TwoToStep(b - 2);
      MulMono(2, t, 2 * h);
      IntMulComm(t, 2 * h);
    }
  }

  /** The loop ends with a single block. */
  lemma LastBlock(n: nat, b: nat, h: nat)
    requires h > 0 && h * TwoTo(b) == n && 2 * h > n && (b == 0 <==> h == n)
    ensures b == 0 && h == n
  {
    if b > 0 {
      TwoToStep(b - 1);
      MulMono(2, TwoTo(b), h);
      IntMulComm(h, TwoTo(b));
    }
  }
}
