/** The mathematics of the radix-2 transform: bit reversal, the stage invariant,
    and orthogonality of the powers of a root of unity. */
module Dft {
  import opened Integers
  import opened Negacyclic
  import opened Evaluation

  // ---------------------------------------------------------------- bit reversal

  function Rev2(bits: nat, x: nat): (r: nat)
    ensures r < TwoTo(bits)
  {
    if bits == 0 then 0 else
      TwoToStep(bits - 1);
      x % 2 * TwoTo(bits - 1) + Rev2(bits - 1, x / 2)
  }

  lemma {:induction false} Rev2Top(bits: nat, h: nat, y: nat)
    requires h < 2 && y < TwoTo(bits)
    ensures h * TwoTo(bits) + y >= 0
    ensures Rev2(bits + 1, h * TwoTo(bits) + y) == 2 * Rev2(bits, y) + h
  {
    if bits == 0 {
      assert Rev2(1, h) == h % 2 * TwoTo(0) + Rev2(0, h / 2);
    } else {
      TwoToStep(bits - 1);
      DivModId(y, 2);
      Rev2TopArith(h, y, TwoTo(bits - 1), Rev2(bits - 1, y / 2));
      Rev2Top(bits - 1, h, y / 2);
    }
  }

  lemma Rev2TopArith(h: nat, y: nat, p: nat, r: nat)
    ensures var x := h * (2 * p) + y;
            x % 2 == y % 2 && x / 2 == h * p + y / 2
    ensures y % 2 * (2 * p) + (2 * r + h) == 2 * (y % 2 * p + r) + h
  {
    DivModId(y, 2);
    assert h * (2 * p) == h * p * 2;
    DivModUnique(h * (2 * p) + y, 2, h * p + y / 2, y % 2);
  }

  /** Reversing twice is the identity. */
  lemma {:induction false} Rev2Involution(bits: nat, x: nat)
    requires x < TwoTo(bits)
    ensures Rev2(bits, Rev2(bits, x)) == x
  {
    if bits > 0 {
      TwoToStep(bits - 1);
      DivModId(x, 2);
      Rev2Involution(bits - 1, x / 2);
      Rev2Top(bits - 1, x % 2, Rev2(bits - 1, x / 2));
    }
  }

  /** Halving a block: its halves are the blocks of the even and of the odd terms. */
  lemma Rev2Children(bits: nat, b: nat)
    ensures Rev2(bits + 1, 2 * b) == Rev2(bits, b)
    ensures Rev2(bits + 1, 2 * b + 1) == Rev2(bits, b) + TwoTo(bits)
  {
    DivModUnique(2 * b, 2, b, 0);
    DivModUnique(2 * b + 1, 2, b, 1);
  }

  // ---------------------------------------------------------- the stage invariant

  /** `m` terms of `x` from offset `o` with stride `s`. */
  ghost function Strided(x: Poly, o: nat, s: nat, m: nat): (r: Poly)
    requires m > 0 ==> o + (m - 1) * s < |x|
    ensures |r| == m && forall j :: 0 <= j < m ==> o + j * s < |x| && r[j] == x[o + j * s]
  {
    StrideInside(o, s, m);
    seq(m, j requires 0 <= j < m => (StrideAt(o, s, m, j); x[o + j * s]))
  }

  lemma StrideAt(o: nat, s: nat, m: nat, j: nat)
    requires j < m
    ensures 0 <= o + j * s <= o + (m - 1) * s
  {
    MulMono(j, m - 1, s);
  }

  lemma StrideInside(o: nat, s: nat, m: nat)
    ensures forall j :: 0 <= j < m ==> 0 <= o + j * s <= o + (m - 1) * s
  {
    forall j | 0 <= j < m ensures 0 <= o + j * s <= o + (m - 1) * s {
      StrideAt(o, s, m, j);
    }
  }

  lemma StridedHalves(x: Poly, o: nat, s: nat, h: nat)
    requires h > 0 && o + (2 * h - 1) * s < |x|
    ensures o + (h - 1) * (2 * s) < |x| && o + s + (h - 1) * (2 * s) < |x|
    ensures Evens(Strided(x, o, s, 2 * h)) == Strided(x, o, 2 * s, h)
    ensures Odds(Strided(x, o, s, 2 * h)) == Strided(x, o + s, 2 * s, h)
  {
    StrideArith(o, s, h);
    hide Strided, Evens, Odds;
    var p := Strided(x, o, s, 2 * h);
    var e, d := Strided(x, o, 2 * s, h), Strided(x, o + s, 2 * s, h);
    forall j | 0 <= j < h
      ensures Evens(p)[j] == e[j] && Odds(p)[j] == d[j]
    {
      StridePositions(o, s, j);
    }
  }

  lemma StridePositions(o: nat, s: nat, j: nat)
    ensures o + 2 * j * s == o + j * (2 * s)
    ensures o + (2 * j + 1) * s == o + s + j * (2 * s)
  {}

  lemma StrideArith(o: nat, s: nat, h: nat)
    requires h > 0
    ensures o + s + (h - 1) * (2 * s) == o + (2 * h - 1) * s
  {}

  lemma BlockFits(bits: nat, m: nat, b: nat)
    requires m > 0 && b < TwoTo(bits)
    ensures Rev2(bits, b) + (m - 1) * TwoTo(bits) < m * TwoTo(bits)
  {
    assert (m - 1) * TwoTo(bits) == m * TwoTo(bits) - TwoTo(bits);
  }

  /** The terms that block `b` collects, in a stage of `TwoTo(bits)` blocks of size `m`. */
  ghost function Block(x: Poly, bits: nat, m: nat, b: nat): (r: Poly)
    requires m > 0 && b < TwoTo(bits) && |x| == m * TwoTo(bits)
    ensures |r| == m
  {
    BlockFits(bits, m, b);
    Strided(x, Rev2(bits, b), TwoTo(bits), m)
  }

  /** Position `p` holds the value, at its power of the root, of the terms its block collects. */
  ghost predicate StageAt(x: Poly, a: seq<int>, bits: nat, m: nat, root: int, q: int, p: nat)
    requires m > 0 && |x| == |a| == m * TwoTo(bits) && p < |a|
  {
    BlockIndex(p, m, TwoTo(bits));
    Cong(a[p], Eval(Block(x, bits, m, p / m), Pow(Pow(root, TwoTo(bits)), p % m)), q)
  }

  ghost predicate Stage(x: Poly, a: seq<int>, bits: nat, m: nat, root: int, q: int)
    requires m > 0 && |x| == |a| == m * TwoTo(bits)
  {
    forall p :: 0 <= p < |a| ==> StageAt(x, a, bits, m, root, q, p)
  }

  lemma BlockIndex(p: nat, m: nat, blocks: nat)
    requires m > 0 && p < m * blocks
    ensures 0 <= p / m < blocks && 0 <= p % m < m && p == p / m * m + p % m
  {
    DivModId(p, m);
    if p / m >= blocks {
      MulMono(blocks, p / m, m);
    }
  }

  /** Before the first stage every block has one element: the bit-reversed input. */
  lemma StageStart(x: Poly, a: seq<int>, bits: nat, root: int, q: int, p: nat)
    requires |x| == |a| == 1 * TwoTo(bits) && p < |a|
    requires a[p] == x[Rev2(bits, p)]
    ensures StageAt(x, a, bits, 1, root, q, p)
  {
    hide Eval;
    DivModUnique(p, 1, p, 0);
    var s := Block(x, bits, 1, p);
    EvalOne(s, Pow(Pow(root, TwoTo(bits)), 0));
    assert s[0] == x[Rev2(bits, p) + 0 * TwoTo(bits)];
    CongRefl(a[p], q);
  }

  /** After the last stage there is one block: the transform. */
  lemma StageEnd(x: Poly, a: seq<int>, m: nat, root: int, q: int, p: nat)
    requires m > 0 && |x| == |a| == m * TwoTo(0) && p < m
    requires StageAt(x, a, 0, m, root, q, p)
    ensures Cong(a[p], Eval(x, Pow(root, p)), q)
  {
    SmallMod(p, m);
    OnlyBlock(x, m);
    assert Pow(root, 1) == root by {
      assert Pow(root, 1) == root * Pow(root, 0);
    }
  }

  lemma OnlyBlock(x: Poly, m: nat)
    requires m > 0 && |x| == m * TwoTo(0)
    ensures Block(x, 0, m, 0) == x
  {
    var s := Block(x, 0, m, 0);
    forall j | 0 <= j < m ensures s[j] == x[j] {
      assert s[j] == x[0 + j * TwoTo(0)];
    }
  }

  /** One output of a butterfly stage with blocks of size `2h`, from the array before it. */
  ghost predicate ButterflyAt(before: seq<int>, after: seq<int>, h: nat, w: int, q: int, p: nat)
    requires h > 0 && |before| == |after| && p < |after|
    requires |before| % (2 * h) == 0
  {
    PartnerInside(|before|, h, p);
    var k := p % (2 * h);
    if k < h then Cong(after[p], before[p] + Pow(w, k) * before[p + h], q)
    else Cong(after[p], before[p - h] - Pow(w, k - h) * before[p], q)
  }

  lemma PartnerInside(n: nat, h: nat, p: nat)
    requires h > 0 && n % (2 * h) == 0 && p < n
    ensures 0 <= p % (2 * h) < 2 * h
    ensures p % (2 * h) < h ==> p + h < n
    ensures p % (2 * h) >= h ==> p - h >= 0
  {
    var m := 2 * h;
    DivModId(p, m);
    DivModId(n, m);
    if p / m >= n / m {
      MulMono(n / m, p / m, m);
    }
    MulMono(p / m + 1, n / m, m);
    if p / m < 0 {
      MulMono(p / m, -1, m);
    }
    MulMono(0, p / m, m);
    assert (p / m + 1) * m == p / m * m + m;
  }

  /** The indices of the two inputs of position `p` in the previous, half-size blocks. */
  lemma HalfBlocks(p: nat, h: nat)
    requires h > 0
    ensures var b, k := p / (2 * h), p % (2 * h);
            && b >= 0 && 0 <= k < 2 * h
            && (k < h ==> p / h == 2 * b && p % h == k && (p + h) / h == 2 * b + 1 && (p + h) % h == k)
            && (k >= h ==> p / h == 2 * b + 1 && p % h == k - h && (p - h) / h == 2 * b && (p - h) % h == k - h)
  {
    DivModId(p, 2 * h);
    var b, k := p / (2 * h), p % (2 * h);
    assert b * (2 * h) == 2 * b * h;
    assert (2 * b + 1) * h == 2 * b * h + h;
    if k < h {
      DivModUnique(p, h, 2 * b, k);
      DivModUnique(p + h, h, 2 * b + 1, k);
    } else {
      DivModUnique(p, h, 2 * b + 1, k - h);
      DivModUnique(p - h, h, 2 * b, k - h);
    }
    if b < 0 {
      MulMono(b, -1, 2 * h);
    }
  }

  /** The root of a stage, squared, is the root of the stage before. */
  lemma StageRoots(root: int, bits: nat, k: nat)
    ensures var y := Pow(Pow(root, TwoTo(bits)), k);
            y * y == Pow(Pow(root, TwoTo(bits + 1)), k)
  {
    TwoToStep(bits);
    var g := Pow(root, TwoTo(bits));
    PowAdd(root, TwoTo(bits), TwoTo(bits));
    PowBase(g, g, k);
  }

  /** Half way round, the root of a stage is -1. */
  lemma StageHalf(root: int, bits: nat, h: nat, k: nat, q: int)
    requires Cong(Pow(root, h * TwoTo(bits)), -1, q)
    ensures Cong(Pow(Pow(root, TwoTo(bits)), k + h), -Pow(Pow(root, TwoTo(bits)), k), q)
  {
    var g := Pow(root, TwoTo(bits));
    PowMul(root, TwoTo(bits), h);
    IntMulComm(h, TwoTo(bits));
    PowAdd(g, k, h);
    CongRefl(Pow(g, k), q);
    CongMul(Pow(g, k), Pow(g, k), Pow(g, h), -1, q);
    assert Pow(g, k) * -1 == -Pow(g, k);
  }

  /** A block of size `2h` interleaves two blocks of the stage before. */
  lemma BlockParts(x: Poly, bits: nat, h: nat, b: nat)
    requires h > 0 && |x| == 2 * h * TwoTo(bits) && b < TwoTo(bits)
    requires |x| == h * TwoTo(bits + 1) && 2 * b + 1 < TwoTo(bits + 1)
    ensures Evens(Block(x, bits, 2 * h, b)) == Block(x, bits + 1, h, 2 * b)
    ensures Odds(Block(x, bits, 2 * h, b)) == Block(x, bits + 1, h, 2 * b + 1)
  {
    hide Strided, Evens, Odds, Rev2;
    TwoToStep(bits);
    Rev2Children(bits, b);
    BlockFits(bits, 2 * h, b);
    StridedHalves(x, Rev2(bits, b), TwoTo(bits), h);
  }

  /** The two positions a butterfly reads, and what they hold. */
  lemma StageInputs(x: Poly, before: seq<int>, bits: nat, h: nat, root: int, q: int, p: nat)
    requires h > 0 && |x| == |before| == h * TwoTo(bits + 1) && p < |x|
    requires |x| == 2 * h * TwoTo(bits) && |x| % (2 * h) == 0
    requires Stage(x, before, bits + 1, h, root, q)
    requires p % (2 * h) < h
    ensures p + h < |x| && p / (2 * h) >= 0 && p / (2 * h) < TwoTo(bits)
    ensures var block := Block(x, bits, 2 * h, p / (2 * h));
            var y := Pow(Pow(root, TwoTo(bits)), p % (2 * h));
            && Cong(before[p], Eval(Evens(block), y * y), q)
            && Cong(before[p + h], Eval(Odds(block), y * y), q)
  {
    hide Block, Eval, Evens, Odds;
    BlockIndex(p, 2 * h, TwoTo(bits));
    PartnerInside(|before|, h, p);
    HalfBlocks(p, h);
    TwoToStep(bits);
    BlockParts(x, bits, h, p / (2 * h));
    assert StageAt(x, before, bits + 1, h, root, q, p);
    assert StageAt(x, before, bits + 1, h, root, q, p + h);
    StageRoots(root, bits, p % (2 * h));
  }

  /** A butterfly stage carries the invariant from blocks of size h to blocks of size 2h. */
  lemma StageStepLow(x: Poly, before: seq<int>, after: seq<int>, bits: nat, h: nat, root: int, w: int, q: int, p: nat)
    requires h > 0 && |x| == |before| == |after| == h * TwoTo(bits + 1) && p < |x|
    requires |x| == 2 * h * TwoTo(bits) && |x| % (2 * h) == 0
    requires Cong(w, Pow(root, TwoTo(bits)), q) && Cong(Pow(root, h * TwoTo(bits)), -1, q)
    requires Stage(x, before, bits + 1, h, root, q)
    requires p % (2 * h) < h && p + h < |x|
    requires ButterflyAt(before, after, h, w, q, p) && ButterflyAt(before, after, h, w, q, p + h)
    ensures StageAt(x, after, bits, 2 * h, root, q, p)
    ensures StageAt(x, after, bits, 2 * h, root, q, p + h)
  {
    hide Block, Eval, Evens, Odds, Stage, Pow;
    var m := 2 * h;
    var j := p % m;
    StageInputs(x, before, bits, h, root, q, p);
    DivModId(p, m);
    DivModUnique(p + h, m, p / m, j + h);
    var block := Block(x, bits, m, p / m);
    StageHalf(root, bits, h, j, q);
    CongPow(w, Pow(root, TwoTo(bits)), j, q);
    var y, y' := Pow(Pow(root, TwoTo(bits)), j), Pow(Pow(root, TwoTo(bits)), j + h);
    Butterfly(block, y, y', before[p], before[p + h], Pow(w, j), q);
    CongTrans(after[p], before[p] + Pow(w, j) * before[p + h], Eval(block, y), q);
    CongTrans(after[p + h], before[p] - Pow(w, j) * before[p + h], Eval(block, y'), q);
  }

  lemma StageStep(x: Poly, before: seq<int>, after: seq<int>, bits: nat, h: nat, root: int, w: int, q: int)
    requires h > 0 && |x| == |before| == |after| == h * TwoTo(bits + 1)
    requires |x| == 2 * h * TwoTo(bits) && |x| % (2 * h) == 0
    requires Cong(w, Pow(root, TwoTo(bits)), q) && Cong(Pow(root, h * TwoTo(bits)), -1, q)
    requires Stage(x, before, bits + 1, h, root, q)
    requires forall p :: 0 <= p < |x| ==> ButterflyAt(before, after, h, w, q, p)
    ensures Stage(x, after, bits, 2 * h, root, q)
  {
    hide ButterflyAt, StageAt;
    forall p | 0 <= p < |x|
      ensures StageAt(x, after, bits, 2 * h, root, q, p)
    {
      PartnerInside(|x|, h, p);
      if p % (2 * h) < h {
        StageStepLow(x, before, after, bits, h, root, w, q, p);
      } else {
        DivModId(p, 2 * h);
        DivModUnique(p - h, 2 * h, p / (2 * h), p % (2 * h) - h);
        StageStepLow(x, before, after, bits, h, root, w, q, p - h);
      }
    }
  }
}
