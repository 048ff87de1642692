/** The two-row slot layout: powers of 5 and their negatives modulo 2N. */
module Slots {
  import opened Integers
  import opened Negacyclic
  import opened Substitution
  import opened Evaluation
  import opened Counting

  // ------------------------------------------------------------ the order of five

  lemma {:induction false} OddPower(b: int, e: nat)
    requires b % 4 == 1
    ensures Pow(b, e) % 4 == 1
  {
    if e > 0 {
      OddPower(b, e - 1);
      DivModId(b, 4);
      DivModId(Pow(b, e - 1), 4);
      ProductMod4(b / 4, Pow(b, e - 1) / 4);
      DivModUnique(Pow(b, e), 4, 4 * (b / 4) * (Pow(b, e - 1) / 4) + b / 4 + Pow(b, e - 1) / 4, 1);
    }
  }

  lemma ProductMod4(x: int, y: int)
    ensures (x * 4 + 1) * (y * 4 + 1) == (4 * x * y + x + y) * 4 + 1
  {}

  /** A power of two that divides x times an odd number divides x. */
  lemma {:induction false} CancelOdd(k: nat, x: int, o: int)
    requires o % 2 == 1 && Divides(TwoTo(k), x * o)
    ensures Divides(TwoTo(k), x)
  {
    var c := DividesQuot(TwoTo(k), x * o);
    if k == 0 {
      DividesBy(1, x, x);
    } else {
      TwoToStep(k - 1);
      var p := TwoTo(k - 1);
      DivModId(o, 2);
      DivModId(x, 2);
      EvenTimesOdd(x, o, c, p);
      var y := x / 2;
      HalveProduct(y, o, c, p);
      DividesBy(p, y * o, c);
      CancelOdd(k - 1, y, o);
      var d := DividesQuot(p, y);
      assert d * (2 * p) == 2 * (d * p);
      DividesBy(TwoTo(k), x, d);
    }
  }

  lemma EvenTimesOdd(x: int, o: int, c: int, p: int)
    requires o % 2 == 1 && x * o == c * (2 * p)
    ensures x % 2 == 0
  {
    DivModId(x, 2);
    DivModId(o, 2);
    assert c * (2 * p) == 2 * (c * p);
    if x % 2 == 1 {
      OddTimesOdd(x / 2, o / 2, c * p);
    }
  }

  lemma OddTimesOdd(x: int, o: int, c: int)
    ensures (x * 2 + 1) * (o * 2 + 1) != 2 * c
  {
    assert (x * 2 + 1) * (o * 2 + 1) == 2 * (2 * x * o + x + o) + 1;
  }

  lemma HalveProduct(y: int, o: int, c: int, p: int)
    requires 2 * y * o == c * (2 * p)
    ensures y * o == c * p
  {
    assert 2 * y * o == 2 * (y * o) && c * (2 * p) == 2 * (c * p);
  }

  /** Below 2^k no power of 5 returns to 1 modulo 2^(k+2). */
  lemma {:induction false} FiveOrder(d: nat, k: nat)
    requires 0 < d < TwoTo(k)
    ensures !Cong(Pow(5, d), 1, TwoTo(k + 2))
    decreases k
  {
    if Cong(Pow(5, d), 1, TwoTo(k + 2)) {
      assert k > 0;
      TwoToStep(k - 1);
      TwoToStep(k + 1);
      var h := d / 2;
      OddPower(5, h);
      if d % 2 == 1 {
        OddExponent(h, k);
      } else {
        SquareMinusOne(h);
        CancelSquare(Pow(5, h), k);
        FiveOrder(h, k - 1);
      }
    }
  }

  lemma SquareMinusOne(h: nat)
    ensures Pow(5, 2 * h) - 1 == (Pow(5, h) - 1) * (Pow(5, h) + 1)
  {
    PowAdd(5, h, h);
  }

  /** 5^(2h+1) is 5 modulo 8. */
  lemma OddExponent(h: nat, k: nat)
    requires k > 0
    ensures !Cong(Pow(5, 2 * h + 1), 1, TwoTo(k + 2))
  {
    var x := Pow(5, h);
    OddPower(5, h);
    PowAdd(5, h, h);
    DivModId(x, 4);
    assert Pow(5, 2 * h + 1) == 5 * Pow(5, 2 * h);
    TwoToAdd(k - 1, 3);
    assert TwoTo(3) == 8;
    if Cong(Pow(5, 2 * h + 1), 1, TwoTo(k + 2)) {
      var c := CongQuot(Pow(5, 2 * h + 1), 1, TwoTo(k + 2));
      FiveModEight(x / 4, c, TwoTo(k - 1));
    }
  }

  lemma FiveModEight(y: int, c: int, p: int)
    ensures 5 * ((y * 4 + 1) * (y * 4 + 1)) != 1 + c * (p * 8)
  {
    assert (y * 4 + 1) * (y * 4 + 1) == 8 * (2 * y * y + y) + 1;
    assert c * (p * 8) == 8 * (c * p);
  }

  lemma CancelSquare(x: int, k: nat)
    requires k > 0 && x % 4 == 1 && Divides(TwoTo(k + 2), (x - 1) * (x + 1))
    ensures Cong(x, 1, TwoTo(k + 1))
  {
    TwoToStep(k + 1);
    DivModId(x, 4);
    var c := DividesQuot(TwoTo(k + 2), (x - 1) * (x + 1));
    var o, p := 2 * (x / 4) + 1, TwoTo(k + 1);
    assert x + 1 == 2 * o;
    assert (x - 1) * (2 * o) == 2 * (x - 1) * o;
    HalveProduct(x - 1, o, c, p);
    DividesBy(p, (x - 1) * o, c);
    CancelOdd(k + 1, x - 1, o);
  }

  /** 5^(2^k) is 1 modulo 2^(k+2): rows wrap around. */
  lemma {:induction false} FivePeriod(k: nat)
    ensures Cong(Pow(5, TwoTo(k)), 1, TwoTo(k + 2))
  {
    if k == 0 {
      assert Pow(5, 1) == 5 * Pow(5, 0) && TwoTo(2) == 4;
      CongBy(5, 1, 4, 1);
    } else {
      FivePeriod(k - 1);
      TwoToStep(k - 1);
      TwoToStep(k + 1);
      var h := TwoTo(k - 1);
      var x := Pow(5, h);
      OddPower(5, h);
      PowAdd(5, h, h);
      DivModId(x, 4);
      var c := CongQuot(x, 1, TwoTo(k + 1));
      var p, o := TwoTo(k + 1), 2 * (x / 4) + 1;
      assert x + 1 == 2 * o;
      assert (x - 1) * (x + 1) == c * p * (2 * o) by {
        assert x - 1 == c * p;
      }
      assert c * p * (2 * o) == c * o * (2 * p);
      assert x * x == 1 + (x - 1) * (x + 1);
      CongBy(x * x, 1, TwoTo(k + 2), c * o);
    }
  }

  // -------------------------------------------------------------- slot exponents

  /** 5^j mod 2N. */
  function RowExponent(n: nat, j: nat): (e: int)
    requires n > 0
    ensures 0 <= e < 2 * n
  {
    DivModId(Pow(5, j), 2 * n);
    Pow(5, j) % (2 * n)
  }

  /** Row 0 holds the powers of 5, row 1 their negatives. */
  function SlotExponent(n: nat, slot: nat): (e: int)
    requires n > 0 && slot < n
  {
    if slot < n / 2 then RowExponent(n, slot) else 2 * n - RowExponent(n, slot - n / 2)
  }

  /** Exponents of row 0 are 1 modulo 4, those of row 1 are 3 modulo 4. */
  lemma ExponentClass(n: nat, slot: nat, l: nat)
    requires l > 0 && n == TwoTo(l) && slot < n
    ensures 0 < SlotExponent(n, slot) < 2 * n
    ensures SlotExponent(n, slot) % 4 == if slot < n / 2 then 1 else 3
  {
    TwoToStep(l - 1);
    var p := TwoTo(l - 1);
    DivModUnique(n, 2, p, 0);
    var j := if slot < n / 2 then slot else slot - n / 2;
    RowClass(n, j, p);
    var e := RowExponent(n, j);
    DivModId(e, 4);
    DivModUnique(2 * n - e, 4, p - e / 4 - 1, 3);
  }

  lemma RowClass(n: nat, j: nat, p: nat)
    requires p > 0 && n == 2 * p
    ensures 0 < RowExponent(n, j) < 2 * n && RowExponent(n, j) % 4 == 1
  {
    OddPower(5, j);
    DivModId(Pow(5, j), 2 * n);
    DivModId(Pow(5, j), 4);
    var c, e := Pow(5, j) / (2 * n), RowExponent(n, j);
    assert c * (2 * n) == 4 * (c * p);
    DivModUnique(e, 4, Pow(5, j) / 4 - c * p, 1);
  }

  lemma RowCong(n: nat, j: nat)
    requires n > 0
    ensures Cong(RowExponent(n, j), Pow(5, j), 2 * n)
  {
    ModCong(Pow(5, j), 2 * n);
  }

  lemma FiveInvertible(j: nat, x: int, k: nat)
    requires Divides(TwoTo(k), Pow(5, j) * x)
    ensures Divides(TwoTo(k), x)
  {
    OddPower(5, j);
    DivModId(Pow(5, j), 4);
    DivModUnique(Pow(5, j), 2, 2 * (Pow(5, j) / 4), 1);
    IntMulComm(Pow(5, j), x);
    CancelOdd(k, x, Pow(5, j));
  }

  lemma RowDistinct(n: nat, i: nat, j: nat, l: nat)
    requires l > 0 && n == TwoTo(l) && i < j < n / 2
    ensures RowExponent(n, i) != RowExponent(n, j)
  {
    hide RowExponent, Pow;
    TwoToStep(l - 1);
    TwoToStep(l);
    DivModUnique(n, 2, TwoTo(l - 1), 0);
    RowCong(n, i);
    RowCong(n, j);
    if RowExponent(n, i) == RowExponent(n, j) {
      CongSym(RowExponent(n, j), Pow(5, j), 2 * n);
      CongTrans(Pow(5, j), RowExponent(n, j), Pow(5, i), 2 * n);
      PowersApart(i, j - i, l - 1);
    }
  }

  lemma PowersApart(i: nat, d: nat, k: nat)
    requires 0 < d < TwoTo(k)
    ensures !Cong(Pow(5, i + d), Pow(5, i), TwoTo(k + 2))
  {
    PowAdd(5, i, d);
    assert Pow(5, i + d) - Pow(5, i) == Pow(5, i) * (Pow(5, d) - 1);
    if Cong(Pow(5, i + d), Pow(5, i), TwoTo(k + 2)) {
      FiveInvertible(i, Pow(5, d) - 1, k + 2);
      FiveOrder(d, k);
    }
  }

  /** Distinct slots have distinct exponents. */
  lemma ExponentsDistinct(n: nat, a: nat, b: nat, l: nat)
    requires l > 0 && n == TwoTo(l) && a < b < n
    ensures SlotExponent(n, a) != SlotExponent(n, b)
  {
    ExponentClass(n, a, l);
    ExponentClass(n, b, l);
    TwoToStep(l - 1);
    DivModUnique(n, 2, TwoTo(l - 1), 0);
    if a < n / 2 <= b {
    } else {
      var h := if b < n / 2 then 0 else n / 2;
      RowDistinct(n, a - h, b - h, l);
    }
  }

  /** Position of an exponent in the transform's output order. */
  function SequentialPosition(exponent: int): int {
    (exponent - 1) / 2
  }

  lemma PositionOfOdd(e: int, n: nat)
    requires 0 < e < 2 * n && e % 2 == 1
    ensures 0 <= SequentialPosition(e) < n && 2 * SequentialPosition(e) + 1 == e
  {
    DivModId(e, 2);
    DivModUnique(e - 1, 2, e / 2, 0);
  }

  lemma SlotPosition(n: nat, slot: nat, l: nat)
    requires l > 0 && n == TwoTo(l) && slot < n
    ensures 0 <= SequentialPosition(SlotExponent(n, slot)) < n
    ensures 2 * SequentialPosition(SlotExponent(n, slot)) + 1 == SlotExponent(n, slot)
    ensures SlotExponent(n, slot) % 2 == 1
  {
    ExponentClass(n, slot, l);
    var e := SlotExponent(n, slot);
    DivModId(e, 4);
    DivModUnique(e, 2, 2 * (e / 4) + (if slot < n / 2 then 0 else 1), 1);
    PositionOfOdd(e, n);
  }

  // ---------------------------------------------------------------- enumeration

  ghost function Positions(n: nat, l: nat): (xs: seq<int>)
    requires l > 0 && n == TwoTo(l)
    ensures |xs| == n && forall i :: 0 <= i < n ==> xs[i] == SequentialPosition(SlotExponent(n, i))
  {
    seq(n, i requires 0 <= i < n => SequentialPosition(SlotExponent(n, i)))
  }

  /** Every odd residue modulo 2N is the exponent of exactly one slot. */
  lemma SlotsEnumerateOddResidues(n: nat, l: nat, e: int)
    requires l > 0 && n == TwoTo(l) && 0 < e < 2 * n && e % 2 == 1
    ensures exists a: nat :: a < n && SlotExponent(n, a) == e
    ensures forall a: nat, b: nat :: a < n && b < n && SlotExponent(n, a) == e && SlotExponent(n, b) == e ==> a == b
  {
    hide SlotExponent, SequentialPosition;
    var xs := Positions(n, l);
    forall i | 0 <= i < n ensures 0 <= xs[i] < n {
      SlotPosition(n, i, l);
    }
    forall i, j | 0 <= i < j < n ensures xs[i] != xs[j] {
      SlotPosition(n, i, l);
      SlotPosition(n, j, l);
      ExponentsDistinct(n, i, j, l);
    }
    PositionOfOdd(e, n);
    Pigeonhole(xs, SequentialPosition(e));
    var a: int :| 0 <= a < n && xs[a] == SequentialPosition(e);
    SlotPosition(n, a, l);
    assert SlotExponent(n, a) == e;
    forall a: nat, b: nat | a < n && b < n && SlotExponent(n, a) == e && SlotExponent(n, b) == e
      ensures a == b
    {
      if a < b {
        ExponentsDistinct(n, a, b, l);
      } else if b < a {
        ExponentsDistinct(n, b, a, l);
      }
    }
  }

  // -------------------------------------------------------------- slots as values

  /** The value of slot `slot`: the evaluation at its power of psi. */
  ghost function SlotValue(m: Poly, psi: int, slot: nat): int
    requires slot < |m|
  {
    var e := SlotExponent(|m|, slot);
    if e < 0 then 0 else Eval(m, Pow(psi, e))
  }

  lemma SlotValueAt(m: Poly, psi: int, slot: nat, l: nat)
    requires l > 0 && |m| == TwoTo(l) && slot < |m|
    ensures SlotExponent(|m|, slot) > 0
    ensures SlotValue(m, psi, slot) == Eval(m, Pow(psi, SlotExponent(|m|, slot)))
  {
    ExponentClass(|m|, slot, l);
  }

  /** Multiplying plaintexts multiplies every slot. */
  lemma SlotwiseProduct(a: Poly, b: Poly, psi: int, t: int, slot: nat, l: nat)
    requires |a| == |b| && l > 0 && |a| == TwoTo(l) && slot < |a| && RootOfMinusOne(psi, |a|, t)
    ensures Cong(SlotValue(PMul(a, b), psi, slot), SlotValue(a, psi, slot) * SlotValue(b, psi, slot), t)
  {
    hide Eval, Pow, PMul, SlotExponent, SlotValue, RootOfMinusOne;
    SlotValueAt(a, psi, slot, l);
    SlotValueAt(b, psi, slot, l);
    SlotValueAt(PMul(a, b), psi, slot, l);
    SlotPosition(|a|, slot, l);
    var e := SlotExponent(|a|, slot);
    OddRoot(psi, e, |a|, t);
    EvalMul(a, b, Pow(psi, e), t);
  }

  lemma OddRoot(psi: int, e: nat, n: nat, t: int)
    requires RootOfMinusOne(psi, n, t) && e % 2 == 1
    ensures RootOfMinusOne(Pow(psi, e), n, t)
  {
    PowMul(psi, e, n);
    PowMul(psi, n, e);
    IntMulComm(e, n);
    CongPow(Pow(psi, n), -1, e, t);
    PowMinusOne(e);
  }

  /** Exponents congruent modulo 2N give the same value. */
  lemma EvalExponent(m: Poly, psi: int, e: nat, f: nat, t: int)
    requires |m| > 0 && RootOfMinusOne(psi, |m|, t) && Cong(e, f, 2 * |m|)
    ensures Cong(Eval(m, Pow(psi, e)), Eval(m, Pow(psi, f)), t)
  {
    hide Eval, Pow, RootOfMinusOne;
    var n := |m|;
    CyclicReduce(psi, n, t, e);
    CyclicReduce(psi, n, t, f);
    DivModId(e, 2 * n);
    DivModId(f, 2 * n);
    ModEq(e, f, 2 * n);
    CongSym(Pow(psi, e % (2 * n)), Pow(psi, e), t);
    CongTrans(Pow(psi, e), Pow(psi, e % (2 * n)), Pow(psi, f), t);
    EvalCong(m, Pow(psi, e), Pow(psi, f), t);
  }

  /** The slot that X -> X^k moves into `slot`: its exponent is k times the old one. */
  lemma SubstSlot(m: Poly, psi: int, k: nat, slot: nat, from: nat, t: int, l: nat)
    requires l > 0 && |m| == TwoTo(l) && slot < |m| && from < |m| && RootOfMinusOne(psi, |m|, t)
    requires Cong(k * SlotExponent(|m|, slot), SlotExponent(|m|, from), 2 * |m|)
    ensures Cong(SlotValue(PSubst(m, k), psi, slot), SlotValue(m, psi, from), t)
  {
    hide Eval, Pow, PSubst, SlotExponent, SlotValue, RootOfMinusOne;
    var n, e, f := |m|, SlotExponent(|m|, slot), SlotExponent(|m|, from);
    SlotValueAt(PSubst(m, k), psi, slot, l);
    SlotValueAt(m, psi, slot, l);
    SlotValueAt(m, psi, from, l);
    SlotPosition(n, slot, l);
    OddRoot(psi, e, n, t);
    EvalSubst(m, k, Pow(psi, e), t);
    PowMul(psi, e, k);
    IntMulComm(e, k);
    EvalExponent(m, psi, k * e, f, t);
    CongTrans(Eval(PSubst(m, k), Pow(psi, e)), Eval(m, Pow(psi, k * e)), Eval(m, Pow(psi, f)), t);
  }

  // ------------------------------------------------------------------- rotations

  /** Multiplying by 5^s moves row exponents s places, cyclically. */
  lemma RowShift(n: nat, j: nat, s: nat, l: nat)
    requires l > 0 && n == TwoTo(l) && n / 2 > 0
    ensures Cong(RowExponent(n, s) * RowExponent(n, j), RowExponent(n, (j + s) % (n / 2)), 2 * n)
  {
    TwoToStep(l - 1);
    TwoToStep(l);
    var h := TwoTo(l - 1);
    DivModUnique(n, 2, h, 0);
    RowCong(n, s);
    RowCong(n, j);
    CongMul(RowExponent(n, s), Pow(5, s), RowExponent(n, j), Pow(5, j), 2 * n);
    PowAdd(5, s, j);
    DivModId(j + s, h);
    var c, r := (j + s) / h, (j + s) % h;
    NonnegQuotient(j + s, h);
    FivePeriod(l - 1);
    PowPeriod(5, h, 2 * n, c, r);
    assert h * c == c * h;
    CongSym(Pow(5, r), Pow(5, h * c + r), 2 * n);
    RowCong(n, r);
    CongSym(RowExponent(n, r), Pow(5, r), 2 * n);
    CongTrans(Pow(5, s + j), Pow(5, r), RowExponent(n, r), 2 * n);
    CongTrans(RowExponent(n, s) * RowExponent(n, j), Pow(5, s + j), RowExponent(n, r), 2 * n);
  }

  /** The slot `s` places to the right in the same row, cyclically. */
  function RotatedSlot(n: nat, slot: nat, s: nat): (r: int)
    requires n / 2 > 0
  {
    var h := n / 2;
    if slot < h then (slot + s) % h else h + (slot - h + s) % h
  }

  lemma NegateBoth(k: int, e: int, f: int, m: int)
    requires Cong(k * e, f, m)
    ensures Cong(k * (m - e), m - f, m)
  {
    CongNeg(k * e, f, m);
    assert k * (m - e) == -(k * e) + k * m;
    CongBy(k * m, m, m, k - 1) by {
      assert (k - 1) * m == k * m - m;
    }
    CongAdd(-(k * e), -f, k * m, m, m);
  }

  lemma SlotOfRow(n: nat, j: nat)
    requires n > 0 && j < n / 2
    ensures j < n && SlotExponent(n, j) == RowExponent(n, j)
    ensures n / 2 + j < n && SlotExponent(n, n / 2 + j) == 2 * n - RowExponent(n, j)
  {
    DivModId(n, 2);
  }

  /** X -> X^(5^s) rotates both rows left by s. */
  lemma RotationMovesSlots(m: Poly, psi: int, slot: nat, s: nat, t: int, l: nat)
    requires l > 0 && |m| == TwoTo(l) && slot < |m| && RootOfMinusOne(psi, |m|, t)
    ensures |m| / 2 > 0 && 0 <= RotatedSlot(|m|, slot, s) < |m|
    ensures Cong(SlotValue(PSubst(m, RowExponent(|m|, s)), psi, slot), SlotValue(m, psi, RotatedSlot(|m|, slot, s)), t)
  {
    hide RowExponent, PSubst, SlotValue, RootOfMinusOne, TwoTo, SlotExponent, RotatedSlot, Cong;
    RowWidth(|m|, l);
    RotatedExponent(|m|, slot, s, l);
    SubstSlot(m, psi, RowExponent(|m|, s), slot, RotatedSlot(|m|, slot, s), t, l);
  }

  /** Multiplying a slot's exponent by 5^s gives the rotated slot's exponent. */
  lemma RotatedExponent(n: nat, slot: nat, s: nat, l: nat)
    requires l > 0 && n == TwoTo(l) && slot < n && n / 2 > 0
    ensures 0 <= RotatedSlot(n, slot, s) < n
    ensures Cong(RowExponent(n, s) * SlotExponent(n, slot), SlotExponent(n, RotatedSlot(n, slot, s)), 2 * n)
  {
    hide RowExponent, TwoTo, SlotExponent, Cong;
    RowWidth(n, l);
    var h := n / 2;
    var j := if slot < h then slot else slot - h;
    DivModId(j + s, h);
    var r := (j + s) % h;
    RowShift(n, j, s, l);
    SlotOfRow(n, j);
    SlotOfRow(n, r);
    NegateBoth(RowExponent(n, s), RowExponent(n, j), RowExponent(n, r), 2 * n);
  }

  lemma RowWidth(n: nat, l: nat)
    requires l > 0 && n == TwoTo(l)
    ensures n / 2 > 0 && n == 2 * (n / 2)
  {
    TwoToStep(l - 1);
    DivModUnique(n, 2, TwoTo(l - 1), 0);
  }

  /** The same place in the other row. */
  function SwappedSlot(n: nat, slot: nat): int {
    if slot < n / 2 then slot + n / 2 else slot - n / 2
  }

  /** X -> X^(2N-1) swaps the rows. */
  lemma RowSwapMovesSlots(m: Poly, psi: int, slot: nat, t: int, l: nat)
    requires l > 0 && |m| == TwoTo(l) && slot < |m| && RootOfMinusOne(psi, |m|, t)
    ensures 0 <= SwappedSlot(|m|, slot) < |m|
    ensures Cong(SlotValue(PSubst(m, 2 * |m| - 1), psi, slot), SlotValue(m, psi, SwappedSlot(|m|, slot)), t)
  {
    hide RowExponent, PSubst, SlotValue, RootOfMinusOne, TwoTo, SlotExponent;
    var n := |m|;
    RowWidth(n, l);
    var j := if slot < n / 2 then slot else slot - n / 2;
    SlotOfRow(n, j);
    var e, f := SlotExponent(n, slot), SlotExponent(n, SwappedSlot(n, slot));
    assert e + f == 2 * n;
    assert (2 * n - 1) * e == f + (e - 1) * (2 * n) by {
      assert (2 * n - 1) * e == e * (2 * n) - e && (e - 1) * (2 * n) == e * (2 * n) - 2 * n;
    }
    CongBy((2 * n - 1) * e, f, 2 * n, e - 1);
    SubstSlot(m, psi, 2 * n - 1, slot, SwappedSlot(n, slot), t, l);
  }
}
