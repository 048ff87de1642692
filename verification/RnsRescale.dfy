/** Dropping and rescaling moduli: exact division, BGV switching, and rounding. */
module RnsRescale {
  import opened Integers
  import opened NumberTheory
  import opened Reduce
  import opened Results
  import opened Negacyclic
  import opened Rns
  import opened Crt
  import opened BigUints
  import opened BigUintDivision
  import opened RnsExtension

  method DropLastModulus(poly: RnsPoly) returns (r: Result<RnsPoly>)
    requires Rectangular(poly)
    ensures r == if |poly| <= 1 then Err(DimensionMismatch) else Ok(poly[..|poly| - 1])
  {
    if |poly| <= 1 {
      return Err(DimensionMismatch);
    }
    r := FromCoeffs(poly[..|poly| - 1]);
  }

  // ------------------------------------------------------------------ mod_down

  /** Coefficientwise floor division. */
  ghost function PDiv(a: Poly, d: int): (r: Poly)
    requires d > 0
    ensures |r| == |a| && forall i :: 0 <= i < |a| ==> r[i] == a[i] / d
  {
    seq(|a|, i requires 0 <= i < |a| => a[i] / d)
  }

  lemma BasisParts(qs: seq<int>, ps: seq<int>)
    requires PrimeBasis(qs + ps) && |qs| > 0 && |ps| > 0
    ensures PrimeBasis(qs) && PrimeBasis(ps)
    ensures Product(qs + ps) == Product(qs) * Product(ps)
    ensures Product(qs) >= 1 && Product(ps) >= 1
    ensures forall j :: 0 <= j < |qs| ==> !Divides(qs[j], Product(ps))
  {
    hide Product, Divides;
    var all := qs + ps;
    forall i | 0 <= i < |qs| ensures IsPrime(qs[i]) {
      assert all[i] == qs[i];
    }
    forall i | 0 <= i < |ps| ensures IsPrime(ps[i]) {
      assert all[|qs| + i] == ps[i];
    }
    forall i, j | 0 <= i < j < |qs| ensures qs[i] != qs[j] {
      assert all[i] == qs[i] && all[j] == qs[j];
    }
    forall i, j | 0 <= i < j < |ps| ensures ps[i] != ps[j] {
      assert all[|qs| + i] == ps[i] && all[|qs| + j] == ps[j];
    }
    forall j | 0 <= j < |qs| ensures !Divides(qs[j], Product(ps)) {
      forall i | 0 <= i < |ps| ensures IsPrime(ps[i]) && ps[i] != qs[j] {
        assert all[j] == qs[j] && all[|qs| + i] == ps[i];
      }
      PrimeNotDividesProduct(qs[j], ps);
    }
    ProductConcat(qs, ps);
    ProductPos(qs);
    ProductPos(ps);
  }

  lemma SpecialResidue(X: int, rs: seq<int>, qs: seq<int>, ps: seq<int>)
    requires PrimeBasis(ps) && Product(ps) >= 1 && IsCrt(X, rs, qs + ps)
    ensures X % Product(ps) == CrtValue(rs[|qs|..], ps)
  {
    hide Product, IsPrime, Cong, CrtValue;
    var P, low := Product(ps), rs[|qs|..];
    DivModId(X, P);
    ModCong(X, P);
    forall j | 0 <= j < |ps| ensures Cong(X % P, low[j], ps[j]) {
      CongProduct(ps, X % P, X, j);
      assert (qs + ps)[|qs| + j] == ps[j] && rs[|qs| + j] == low[j];
      CongTrans(X % P, X, low[j], ps[j]);
    }
    CrtIs(X % P, low, ps);
  }

  /** The special-modulus residues stand for X mod P. */
  lemma SpecialPart(x: seq<Poly>, n: nat, qs: seq<int>, ps: seq<int>)
    requires PrimeBasis(qs + ps) && |qs| > 0 && |ps| > 0 && Shape(x, n, |qs| + |ps|)
    ensures PrimeBasis(ps) && Product(ps) >= 1
    ensures Lift(x[|qs|..], n, ps) == PMod(Lift(x, n, qs + ps), Product(ps))
  {
    hide Product, IsPrime, Cong, CrtValue, IsCrt, PrimeBasis;
    BasisParts(qs, ps);
    hide Column;
    var P := Product(ps);
    var l, r := Lift(x[|qs|..], n, ps), PMod(Lift(x, n, qs + ps), P);
    forall i | 0 <= i < n ensures l[i] == r[i] {
      ColumnSuffix(x, i, |qs|);
      SpecialResidue(CrtValue(Column(x, i), qs + ps), Column(x, i), qs, ps);
    }
  }

  lemma ColumnSuffix(x: seq<Poly>, i: nat, k: nat)
    requires k <= |x| && forall c :: 0 <= c < |x| ==> i < |x[c]|
    ensures forall c :: 0 <= c < |x[k..]| ==> i < |x[k..][c]|
    ensures Column(x, i)[k..] == Column(x[k..], i)
  {}

  /** (x - X mod P) / P modulo q is floor(X / P). */
  lemma ModDownEntry(X: int, P: int, q: int, x: int, low: int, pMod: int, pInv: int, diff: int, out: int)
    requires P > 0 && IsPrime(q) && !Divides(q, P)
    requires Cong(x, X, q) && low == X % P % q && pMod == P % q && pInv == Inverse(pMod, q)
    requires Cong(diff, x - low, q) && 0 <= out < q && Cong(out, diff * pInv, q)
    ensures out == X / P % q
  {
    hide Inverse, IsPrime, Cong;
    DivModId(X, P);
    ModCong(X % P, q);
    CongSub(x, X, low, X % P, q);
    CongTrans(diff, x - low, X - X % P, q);
    ModCong(P, q);
    ResidueInvertible(P, q);
    ScaledQuotient(X / P, P, pMod, X - X % P, q);
    CongSym(diff, X - X % P, q);
    CongTrans(pMod * (X / P), X - X % P, diff, q);
    DivideByInverse(q, pMod, X / P, diff);
    CongSym(X / P, diff * pInv, q);
    CongTrans(out, diff * pInv, X / P, q);
    ModIs(X / P, out, q);
  }

  lemma ScaledQuotient(f: int, P: int, p: int, d: int, q: int)
    requires Cong(p, P, q) && d == f * P
    ensures Cong(p * f, d, q)
  {
    CongRefl(f, q);
    CongMul(p, P, f, f, q);
  }

  /** One component: (x - X mod P) / P modulo q. */
  method ModDownRow(x: seq<u64>, low: seq<u64>, q: Modulus, pModQ: u64, pInv: u64, ghost X: Poly, ghost P: int)
    returns (row: seq<u64>)
    requires P > 0 && IsPrime(q) && !Divides(q, P) && pModQ == P % q && pInv == Inverse(pModQ, q)
    requires |x| == |low| == |X| && PCong(X, x, q) && low == PMod(PMod(X, P), q)
    ensures row == PMod(PDiv(X, P), q)
  {
    hide IsPrime, Cong, Divides, Inverse;
    row := [];
    for i := 0 to |x|
      invariant |row| == i
      invariant forall c :: 0 <= c < i ==> row[c] == PDiv(X, P)[c] % q
    {
      var diff := SubMod(x[i], low[i], q);
      var v := MulMod(diff, pInv, q);
      CongSym(X[i], x[i], q);
      ModDownEntry(X[i], P, q, x[i], low[i], pModQ, pInv, diff, v);
      row := row + [v];
    }
    assert row == PMod(PDiv(X, P), q);
  }

  /** Division by P of the value the residues modulo QP stand for, rounded down. */
  method ModDown(poly: RnsPoly, qBasis: seq<Modulus>, pBasis: seq<Modulus>) returns (r: Result<RnsPoly>)
    requires |qBasis| > 0 && |pBasis| > 0 && PrimeBasis(qBasis + pBasis) && Rectangular(poly)
    ensures r.Ok? <==> |poly| == |qBasis| + |pBasis|
    ensures Product(pBasis) >= 1
    ensures r.Ok? ==> Rectangular(r.value) && Degree(r.value) == Degree(poly)
    ensures r.Ok? ==>
              r.value == Residues(PDiv(Lift(poly, Degree(poly), qBasis + pBasis), Product(pBasis)), qBasis)
    ensures r.Err? ==> r.error == DimensionMismatch
  {
    hide IsPrime, Product, CrtValue, Cong, Divides, PMod, Inverse;
    BasisParts(qBasis, pBasis);
    if |poly| != |qBasis| + |pBasis| {
      return Err(DimensionMismatch);
    }
    var n := Degree(poly);
    ghost var X, P := Lift(poly, n, qBasis + pBasis), Product(pBasis);
    var pPart := FromCoeffs(poly[|qBasis|..]);
    var extended := ExtendBasis(pPart.value, pBasis, qBasis);
    var pModQ := extended.value;
    SpecialPart(poly, n, qBasis, pBasis);
    var bigP := BasisProduct(pBasis);
    var out := ZeroRows(|qBasis|, n);
    for j := 0 to |qBasis|
      invariant Shape(out, n, |qBasis|)
      invariant forall k :: 0 <= k < j ==> out[k] == PMod(PDiv(X, P), qBasis[k])
    {
      var q := qBasis[j];
      var unused, pModQj := DivmodU64(bigP, q);
      DivModUnique(P, q, Val(unused), pModQj);
      var pInv := InvMod(pModQj, q);
      LiftCong(poly, n, qBasis + pBasis, j);
      var row := ModDownRow(poly[j], pModQ[j], q, pModQj, pInv, X, P);
      out := out[j := row];
    }
    assert out == Residues(PDiv(X, P), qBasis);
    r := FromCoeffs(out);
  }

  lemma FloorOfReduced(a: int, Q: int, P: int)
    requires Q > 0 && P > 0
    ensures Q * P > 0 && Cong(a % (Q * P) / P, a / P, Q)
  {
    var k, r := a / (Q * P), a % (Q * P);
    DivModId(a, Q * P);
    DivModId(r, P);
    FloorArith(k, Q, P, r / P, r % P);
    DivModUnique(a, P, k * Q + r / P, r % P);
    CongBy(r / P, a / P, Q, -k);
  }

  lemma FloorArith(k: int, Q: int, P: int, f: int, l: int)
    ensures k * (Q * P) + (f * P + l) == (k * Q + f) * P + l
    ensures f == k * Q + f + -k * Q
  {}

  lemma FloorPoly(a: Poly, Q: int, P: int)
    requires Q > 0 && P > 0 && Q * P > 0
    ensures PCong(PDiv(PMod(a, Q * P), P), PDiv(a, P), Q)
  {
    hide Cong;
    forall i | 0 <= i < |a| ensures Cong(PDiv(PMod(a, Q * P), P)[i], PDiv(a, P)[i], Q) {
      FloorOfReduced(a[i], Q, P);
    }
  }

  /** On the residues of any integer polynomial, mod_down is floor division of that polynomial. */
  lemma ModDownMeaning(a: Poly, qs: seq<int>, ps: seq<int>)
    requires PrimeBasis(qs + ps) && |qs| > 0 && |ps| > 0 && Moduli(qs + ps) && Moduli(qs) && Product(ps) >= 1
    ensures Residues(PDiv(Lift(Residues(a, qs + ps), |a|, qs + ps), Product(ps)), qs)
         == Residues(PDiv(a, Product(ps)), qs)
  {
    hide Product, IsPrime, PMod, Cong, Lift, PDiv, Residues, PrimeBasis;
    BasisParts(qs, ps);
    var Q, P := Product(qs), Product(ps);
    MulMono(1, Q, P);
    LiftOfResidues(a, qs + ps);
    FloorPoly(a, Q, P);
    ResiduesCong(PDiv(PMod(a, Q * P), P), PDiv(a, P), qs);
  }

  // -------------------------------------------------------- BGV modulus switching

  /** X' is X divided by q, up to a correction in [0, q t), and congruent to X modulo t. */
  ghost predicate IsSwitch(X: int, X': int, q: int, t: int) {
    0 <= q * X' - X < q * t && Cong(X', X, t)
  }

  lemma SwitchUnique(X: int, Y: int, Z: int, q: int, t: int)
    requires q > 0 && t > 0 && IsSwitch(X, Y, q, t) && IsSwitch(X, Z, q, t)
    ensures Y == Z
  {
    CongSym(Z, X, t);
    CongTrans(Y, X, Z, t);
    CloseMultiples(Y, Z, q, t);
    SmallMultiple(Y - Z, t);
  }

  lemma CloseMultiples(Y: int, Z: int, q: int, t: int)
    requires q > 0 && t > 0 && -(q * t) < q * Y - q * Z < q * t
    ensures -t < Y - Z < t
  {
    assert q * Y - q * Z == (Y - Z) * q && q * t == t * q;
    if Y - Z >= t {
      MulMono(t, Y - Z, q);
    } else if Y - Z <= -t {
      MulMono(t, Z - Y, q);
    }
  }

  /** What is added to X before dividing by q: first up to a multiple of q, then up to the congruence modulo t. */
  function SwitchCorrection(X: int, q: int, t: int): int
    requires q > 0 && t > 0
  {
    (0 - X) % q + q * ((X + (0 - X) / q) % t)
  }

  /** ceil(X / q), moved up to the next number congruent to X modulo t. */
  ghost function SwitchValue(X: int, q: int, t: int): (r: int)
    requires q > 0 && t > 0
    ensures IsSwitch(X, r, q, t) && q * r - X == SwitchCorrection(X, q, t)
  {
    var a := (0 - X) % q;
    DivModId(0 - X, q);
    var c := -((0 - X) / q);
    var k := (X - c) % t;
    DivModId(X - c, t);
    SwitchBounds(X, q, t, a, c, k);
    ModCong(X - c, t);
    CongRefl(c, t);
    CongAdd(k, X - c, c, c, t);
    c + k
  }

  lemma SwitchBounds(X: int, q: int, t: int, a: int, c: int, k: int)
    requires q > 0 && t > 0 && 0 - X == -c * q + a && 0 <= a < q && 0 <= k < t
    ensures 0 <= q * (c + k) - X < q * t && q * (c + k) - X == a + q * k
  {
    assert q * (c + k) == c * q + k * q && -c * q == -(c * q);
    MulMono(k, t - 1, q);
    MulMono(0, k, q);
    assert (t - 1) * q == t * q - q && q * t == t * q;
  }

  /** X' is at least as close to X / q as every other number congruent to X modulo t. */
  ghost predicate IsNearestSwitch(X: int, X': int, q: int, t: int) {
    forall Y: int :: Cong(Y, X, t) ==> Abs(q * X' - X) <= Abs(q * Y - X)
  }

  /** The switched value is a nearest one exactly when its correction, known from X alone, is at most half the
      range. */
  lemma SwitchNearestIff(X: int, q: int, t: int)
    requires q > 0 && t > 0
    ensures IsNearestSwitch(X, SwitchValue(X, q, t), q, t) <==> 2 * SwitchCorrection(X, q, t) <= q * t
  {
    hide SwitchValue, SwitchCorrection, Cong;
    var X' := SwitchValue(X, q, t);
    var corr := SwitchCorrection(X, q, t);
    if 2 * corr <= q * t {
      forall Y: int | Cong(Y, X, t) ensures Abs(corr) <= Abs(q * Y - X) {
        CongSym(X', X, t);
        CongTrans(Y, X, X', t);
        var k := CongQuot(Y, X', t);
        OtherSwitch(q, t, X', Y, k);
        NearestArith(corr, q * t, k);
      }
    } else {
      var Y := X' - t;
      CongBy(Y, X', t, -1);
      CongTrans(Y, X', X, t);
      OtherSwitch(q, t, X', Y, -1);
      assert !(Abs(corr) <= Abs(q * Y - X));
    }
  }

  lemma OtherSwitch(q: int, t: int, X': int, Y: int, k: int)
    requires Y == X' + k * t
    ensures q * Y == q * X' + k * (q * t)
  {
    assert q * (k * t) == k * (q * t);
  }

  lemma NearestArith(corr: int, range: int, k: int)
    requires 0 <= corr && 2 * corr <= range
    ensures Abs(corr) <= Abs(corr + k * range)
  {
    if k >= 1 {
      MulMono(1, k, range);
    } else if k <= -1 {
      MulMono(k, -1, range);
    }
  }

  /** The correction is a function of the residues of X modulo q and modulo t only: the one the code computes. */
  lemma CorrectionFromResidues(X: int, q: int, t: int)
    requires q > 1 && t > 1 && IsPrime(t) && !Divides(t, q)
    ensures var a1 := (0 - X % q) % q;
      SwitchCorrection(X, q, t) == a1 + q * ((X % t * (q - 1) - a1) * Inverse(q % t, t) % t)
  {
    hide IsPrime, Inverse, Cong, SwitchValue, SwitchCorrection, Divides;
    var a1 := (0 - X % q) % q;
    var target := X % t * (q - 1);
    var d := target - a1;
    ModCong(X, q);
    DivModId(0 - X % q, q);
    ModCong(0 - X % q, q);
    ModCong(X, t);
    CongRefl(q - 1, t);
    CongMul(X % t, X, q - 1, q - 1, t);
    CongRefl(d, t);
    var k := d * Inverse(q % t, t) % t;
    DivModId(d * Inverse(q % t, t), t);
    ModCong(d * Inverse(q % t, t), t);
    CorrectionMeaning(X, q, t, X % q, a1, target, d, Inverse(q % t, t), k);
  }

  /** The documented "closest such integer" fails: for X = 2, q = 7, t = 3 the code's value is 2, and -1 is closer. */
  lemma SwitchNotNearest()
    ensures SwitchCorrection(2, 7, 3) == 12 && 2 * 12 > 7 * 3
    ensures SwitchValue(2, 7, 3) == 2 && !IsNearestSwitch(2, 2, 7, 3)
  {
    CongRefl(2, 3);
    SwitchUnique(2, SwitchValue(2, 7, 3), 2, 7, 3);
    SwitchNearestIff(2, 7, 3);
  }

  ghost function SwitchPoly(a: Poly, q: int, t: int): (r: Poly)
    requires q > 0 && t > 0
    ensures |r| == |a| && forall i :: 0 <= i < |a| ==> r[i] == SwitchValue(a[i], q, t)
  {
    seq(|a|, i requires 0 <= i < |a| => SwitchValue(a[i], q, t))
  }

  /** The correction the code computes turns X into q times the switched value. */
  lemma CorrectionMeaning(X: int, q: int, t: int, c: int, a1: int, target: int, d: int, inv: int, k: int)
    requires q > 1 && IsPrime(t) && !Divides(t, q)
    requires Cong(c, X, q) && 0 <= a1 < q && Cong(a1, 0 - c, q)
    requires Cong(target, X * (q - 1), t) && Cong(d, target - a1, t)
    requires inv == Inverse(q % t, t) && 0 <= k < t && Cong(k, d * inv, t)
    ensures X + a1 + q * k == q * SwitchValue(X, q, t)
  {
    hide IsPrime, Inverse, Cong, SwitchValue;
    CongNeg(c, X, q);
    CongTrans(a1, 0 - c, 0 - X, q);
    var m := CongQuot(a1, 0 - X, q);
    // q m == X + a1
    CongRefl(a1, t);
    CongSub(target, X * (q - 1), a1, a1, t);
    CongTrans(d, target - a1, X * (q - 1) - a1, t);
    ModCong(q, t);
    ResidueInvertible(q, t);
    assert X * (q - 1) - a1 == (X - m) * q by {
      assert X * (q - 1) == X * q - X;
    }
    ScaledQuotient(X - m, q, q % t, (X - m) * q, t);
    CongSym(d, (X - m) * q, t);
    CongTrans(q % t * (X - m), (X - m) * q, d, t);
    DivideByInverse(t, q % t, X - m, d);
    CongSym(X - m, d * inv, t);
    CongTrans(k, d * inv, X - m, t);
    CongRefl(m, t);
    CongAdd(k, X - m, m, m, t);
    assert q * (k + m) == q * k + m * q;
    CorrectionRange(a1, q, t, k);
    SwitchUnique(X, k + m, SwitchValue(X, q, t), q, t);
  }

  lemma CorrectionRange(a1: int, q: int, t: int, k: int)
    requires 0 <= a1 < q && 0 <= k < t
    ensures 0 <= a1 + q * k < q * t
  {
    MulMono(k, t - 1, q);
    assert (t - 1) * q == q * t - q && k * q == q * k;
    MulMono(0, k, q);
  }

  /** Adding the correction and dividing by the dropped prime, modulo another prime. */
  lemma SwitchEntry(X: int, q: int, qj: int, c: int, corr: int, Y: int, sum: int, inv: int, out: int)
    requires IsPrime(qj) && !Divides(qj, q) && q > 0
    requires Cong(c, X, qj) && X + corr == q * Y && Cong(sum, c + corr % qj, qj)
    requires inv == Inverse(q % qj, qj) && 0 <= out < qj && Cong(out, sum * inv, qj)
    ensures out == Y % qj
  {
    hide IsPrime, Inverse, Cong;
    ModCong(corr, qj);
    CongAdd(c, X, corr % qj, corr, qj);
    CongTrans(sum, c + corr % qj, X + corr, qj);
    ModCong(q, qj);
    ResidueInvertible(q, qj);
    IntMulComm(q, Y);
    ScaledQuotient(Y, q, q % qj, X + corr, qj);
    CongSym(sum, X + corr, qj);
    CongTrans(q % qj * Y, X + corr, sum, qj);
    DivideByInverse(qj, q % qj, Y, sum);
    CongSym(Y, sum * inv, qj);
    CongTrans(out, sum * inv, Y, qj);
    ModIs(Y, out, qj);
  }

  lemma DistinctPrimes(p: int, q: int)
    requires IsPrime(p) && IsPrime(q) && p != q
    ensures !Divides(p, q)
  {
    if Divides(p, q) {
      var k := DividesQuot(p, q);
      PrimeFactors(q, k, p);
    }
  }

  /** The correction for one coefficient. */
  method Correction(cLast: u64, ct: u64, qLast: Modulus, t: Modulus, inv: u64, ghost X: int) returns (correction: u128)
    requires IsPrime(t) && IsPrime(qLast) && t != qLast
    requires cLast < qLast && Cong(cLast, X, qLast) && ct == X % t && inv == Inverse(qLast % t, t)
    ensures X + correction == qLast * SwitchValue(X, qLast, t) && correction == SwitchCorrection(X, qLast, t)
  {
    hide IsPrime, Inverse, Cong, SwitchValue, SwitchCorrection;
    var a1 := NegMod(cLast, qLast);
    DivModId(qLast - 1, t);
    var target := MulMod(ct, (qLast - 1) % t, t);
    DivModId(a1, t);
    var d := SubMod(target, a1 % t, t);
    var k := MulMod(d, inv, t);
    ModCong(X, t);
    ModCong(qLast - 1, t);
    CongMul(ct, X, (qLast - 1) % t, qLast - 1, t);
    CongTrans(target, ct * ((qLast - 1) % t), X * (qLast - 1), t);
    ModCong(a1, t);
    CongRefl(target, t);
    CongSub(target, target, a1 % t, a1, t);
    CongTrans(d, target - a1 % t, target - a1, t);
    DistinctPrimes(t, qLast);
    CorrectionMeaning(X, qLast, t, cLast, a1, target, d, inv, k);
    CorrectionRange(a1, qLast, t, k);
    WideProduct(qLast, t);
    correction := a1 + qLast * k;
  }

  /** BGV modulus switching of one polynomial, on the [0, Q) representative. */
  method ModulusSwitchDown(poly: RnsPoly, qBasis: seq<Modulus>, t: Modulus) returns (r: Result<RnsPoly>)
    requires PrimeBasis(qBasis) && Rectangular(poly) && IsPrime(t) && t != qBasis[|qBasis| - 1]
    requires |poly| == |qBasis| ==> Reduced(poly, qBasis)
    ensures r.Ok? <==> |poly| == |qBasis| > 1
    ensures r.Ok? ==> var last := |qBasis| - 1;
              && Rectangular(r.value) && Degree(r.value) == Degree(poly)
              && r.value == Residues(SwitchPoly(Lift(poly, Degree(poly), qBasis), qBasis[last], t), qBasis[..last])
    ensures r.Err? ==> r.error == DimensionMismatch
  {
    hide IsPrime, Inverse, Cong, SwitchValue, Product, CrtValue, PMod;
    var len := |qBasis|;
    if len <= 1 || |poly| != len {
      return Err(DimensionMismatch);
    }
    var qLast := qBasis[len - 1];
    var n := Degree(poly);
    ghost var X := Lift(poly, n, qBasis);
    var extended := ExtendBasis(poly, qBasis, [t]);
    var ctPoly := extended.value;
    DivModId(qLast, t);
    var invT := InvMod(qLast % t, t);
    var out := ZeroRows(len - 1, n);
    ghost var Y := SwitchPoly(X, qLast, t);
    ColumnsStart(out, Y, qBasis[..len - 1]);
    for i := 0 to n
      invariant Shape(out, n, len - 1) && ColumnsDone(out, Y, qBasis[..len - 1], i)
    {
      LiftCong(poly, n, qBasis, len - 1);
      CongSym(X[i], poly[len - 1][i], qLast);
      assert ctPoly[0][i] == PMod(X, t)[i];
      assert Below(poly[len - 1], qLast);
      var correction := Correction(poly[len - 1][i], ctPoly[0][i], qLast, t, invT, X[i]);
      var column: seq<u64> := seq(len, c requires 0 <= c < len => poly[c][i]);
      assert column == Column(poly, i);
      var rs := SwitchColumn(column, qBasis, correction, X[i], Y[i]);
      ColumnStep(out, Y, qBasis[..len - 1], i, rs);
      out := SetColumn(out, i, rs);
    }
    ColumnsAll(out, Y, qBasis[..len - 1]);
    r := FromCoeffs(out);
  }

  /** The inner loop: one switched coefficient in every remaining component. */
  method SwitchColumn(column: seq<u64>, qBasis: seq<Modulus>, correction: u128, ghost X: int, ghost Y: int)
    returns (rs: seq<u64>)
    requires PrimeBasis(qBasis) && |qBasis| > 1
    requires IsCrt(X, column, qBasis) && X + correction == qBasis[|qBasis| - 1] * Y
    ensures |rs| == |qBasis| - 1 && forall j :: 0 <= j < |rs| ==> rs[j] == Y % qBasis[j]
  {
    hide IsPrime, Inverse, Cong, Product, CrtValue;
    var qLast := qBasis[|qBasis| - 1];
    rs := [];
    for j := 0 to |qBasis| - 1
      invariant |rs| == j && forall k :: 0 <= k < j ==> rs[k] == Y % qBasis[k]
    {
      var v := SwitchResidue(column[j], qBasis[j], qLast, correction, X, Y) by {
        CongSym(X, column[j], qBasis[j]);
      }
      rs := rs + [v];
    }
  }

  method SwitchResidue(c: u64, qj: Modulus, qLast: Modulus, correction: u128, ghost X: int, ghost Y: int)
    returns (v: u64)
    requires IsPrime(qj) && IsPrime(qLast) && qj != qLast && Cong(c, X, qj) && X + correction == qLast * Y
    ensures v == Y % qj
  {
    hide IsPrime, Inverse, Cong;
    DivModId(correction, qj);
    DivModId(qLast, qj);
    var inv := InvMod(qLast % qj, qj);
    var sum := AddMod(c, correction % qj, qj);
    v := MulMod(sum, inv, qj);
    DistinctPrimes(qj, qLast);
    SwitchEntry(X, qLast, qj, c, correction, Y, sum, inv, v);
  }

  // ----------------------------------------------------------- rounded rescaling

  /** x / d rounded to the nearest integer, halves away from zero. */
  ghost function RoundDiv(x: int, d: int): int
    requires d > 0
  {
    if x < 0 then -((2 * -x + d) / (2 * d)) else (2 * x + d) / (2 * d)
  }

  lemma RoundDivNearest(x: int, d: int)
    requires d > 0
    ensures -d <= 2 * (d * RoundDiv(x, d) - x) <= d
  {
    var y := if x < 0 then -x else x;
    DivModId(2 * y + d, 2 * d);
    var f := (2 * y + d) / (2 * d);
    assert f * (2 * d) == 2 * (d * f) && d * -f == -(d * f);
  }

  /** The integer closest to x / d, when it is unique, is the rounded quotient. */
  /** Halves are rounded away from zero, and rounding is odd. */
  lemma RoundDivTies(x: int, d: int)
    requires d > 0
    ensures RoundDiv(0 - x, d) == 0 - RoundDiv(x, d)
    ensures x >= 0 ==> -d < 2 * (d * RoundDiv(x, d) - x) <= d
  {
    var y := if x < 0 then -x else x;
    DivModId(2 * y + d, 2 * d);
    var f := (2 * y + d) / (2 * d);
    assert f * (2 * d) == 2 * (d * f);
    if x == 0 {
      DivModUnique(d, 2 * d, 0, d);
    }
  }

  lemma RoundDivIs(x: int, d: int, r: int)
    requires d > 0 && -d < 2 * (x - d * r) < d
    ensures RoundDiv(x, d) == r
  {
    RoundDivNearest(x, d);
    var s := RoundDiv(x, d);
    assert d * s - d * r == (s - r) * d;
    if s > r {
      MulMono(1, s - r, d);
    } else if s < r {
      MulMono(s - r, -1, d);
    }
  }

  ghost function RoundPoly(a: Poly, d: int): (r: Poly)
    requires d > 0
    ensures |r| == |a| && forall i :: 0 <= i < |a| ==> r[i] == RoundDiv(a[i], d)
  {
    seq(|a|, i requires 0 <= i < |a| => RoundDiv(a[i], d))
  }

  lemma RoundUp(x: int, d: int, q: int, r: int)
    requires d > 0 && x >= 0 && x == q * d + r && 0 <= r < d
    ensures RoundDiv(x, d) == if 2 * r >= d then q + 1 else q
  {
    if 2 * r >= d {
      assert 2 * x + d == (q + 1) * (2 * d) + (2 * r - d);
      DivModUnique(2 * x + d, 2 * d, q + 1, 2 * r - d);
    } else {
      assert 2 * x + d == q * (2 * d) + (2 * r + d);
      DivModUnique(2 * x + d, 2 * d, q, 2 * r + d);
    }
  }

  lemma RoundDivNeg(x: int, d: int)
    requires d > 0 && x >= 0
    ensures RoundDiv(-x, d) == -RoundDiv(x, d)
  {
    if x == 0 {
      SmallMod(d, 2 * d);
    }
  }

  /** Scale the magnitude, divide, round half up. */
  method ScaleAndRound(magnitude: BigUint, t: u64, bigQ: BigUint) returns (rounded: BigUint)
    requires Val(magnitude) >= 0 && Val(bigQ) > 0
    ensures Val(rounded) == RoundDiv(Val(magnitude) * t, Val(bigQ)) && Val(rounded) >= 0
  {
    var scaled := MulU64(magnitude, t);
    MulMono(0, Val(magnitude), t);
    var quotient, remainder := Divmod(scaled, bigQ);
    RoundUp(Val(scaled), Val(bigQ), Val(quotient), Val(remainder));
    ValHigh(quotient);
    var doubled := MulU64(remainder, 2);
    var o := Cmp(doubled, bigQ);
    if o != Less {
      rounded := BigUints.Add(quotient, FromU64(1));
    } else {
      rounded := quotient;
    }
  }

  lemma SignedRound(v: int, mag: int, negative: bool, t: int, Q: int)
    requires Q > 0 && mag >= 0 && t >= 0 && v == if negative then 0 - mag else mag
    ensures RoundDiv(t * v, Q) == if negative then -RoundDiv(mag * t, Q) else RoundDiv(mag * t, Q)
  {
    MulMono(0, mag, t);
    if negative {
      assert t * v == -(mag * t);
      RoundDivNeg(mag * t, Q);
    } else {
      IntMulComm(t, v);
    }
  }

  /** The signed residue: `neg_mod` of the residue of the magnitude. */
  lemma SignedResidue(rounded: int, residue: u64, negative: bool, q: u64, out: u64)
    requires q > 0 && residue == rounded % q && residue < q && out < q
    requires if negative then Cong(out, 0 - residue, q) else out == residue
    ensures out == (if negative then -rounded else rounded) % q
  {
    if negative {
      ModCong(rounded, q);
      CongNeg(residue, rounded, q);
      CongTrans(out, 0 - residue, -rounded, q);
      ModIs(-rounded, out, q);
    }
  }

  /** One rounded value with its sign, in each modulus of a basis. */
  method SignedResidues(rounded: BigUint, negative: bool, basis: seq<Modulus>) returns (rs: seq<u64>)
    ensures |rs| == |basis| && forall j :: 0 <= j < |basis| ==>
              rs[j] < basis[j] && rs[j] == (if negative then -Val(rounded) else Val(rounded)) % basis[j]
  {
    hide Cong;
    rs := [];
    for j := 0 to |basis|
      invariant |rs| == j && forall k :: 0 <= k < j ==>
                  rs[k] < basis[k] && rs[k] == (if negative then -Val(rounded) else Val(rounded)) % basis[k]
    {
      var q := basis[j];
      var quotient, residue := DivmodU64(rounded, q);
      DivModUnique(Val(rounded), q, Val(quotient), residue);
      var v := if negative then NegMod(residue, q) else residue;
      SignedResidue(Val(rounded), residue, negative, q, v);
      rs := rs + [v];
    }
  }

  /** round(t v / Q) of the centered value v modulo QP, in the basis of Q. */
  method RescaleAndRound(poly: RnsPoly, qBasis: seq<Modulus>, pBasis: seq<Modulus>, t: Modulus)
    returns (r: Result<RnsPoly>)
    requires |qBasis| > 0 && |pBasis| > 0 && PrimeBasis(qBasis + pBasis) && Rectangular(poly)
    ensures r.Ok? <==> |poly| == |qBasis| + |pBasis|
    ensures Product(qBasis) >= 1
    ensures r.Ok? ==> Rectangular(r.value) && Degree(r.value) == Degree(poly)
    ensures r.Ok? ==>
              r.value == Residues(RoundPoly(PScale(t, CenteredLift(poly, Degree(poly), qBasis + pBasis)),
                                            Product(qBasis)), qBasis)
    ensures r.Err? ==> r.error == DimensionMismatch
  {
    hide IsPrime, Product, CrtValue, PMod, RoundDiv, Center, ColumnsDone;
    BasisParts(qBasis, pBasis);
    if |poly| != |qBasis| + |pBasis| {
      return Err(DimensionMismatch);
    }
    var n := Degree(poly);
    var reconstructed := ReconstructTrueValues(poly, qBasis + pBasis);
    var bigQP, values := reconstructed.value.0, reconstructed.value.1;
    var bigQ := BasisProduct(qBasis);
    ghost var v := CenteredLift(poly, n, qBasis + pBasis);
    ghost var Y := RoundPoly(PScale(t, v), Product(qBasis));
    var out := ZeroRows(|qBasis|, n);
    ColumnsStart(out, Y, qBasis);
    for i := 0 to |values|
      invariant Shape(out, n, |qBasis|) && ColumnsDone(out, Y, qBasis, i)
    {
      var negative, magnitude := CenterValue(values[i], bigQP);
      var rounded := ScaleAndRound(magnitude, t, bigQ);
      SignedRound(v[i], Val(magnitude), negative, t, Val(bigQ));
      var rs := SignedResidues(rounded, negative, qBasis);
      ColumnStep(out, Y, qBasis, i, rs);
      out := SetColumn(out, i, rs);
    }
    ColumnsAll(out, Y, qBasis);
    r := FromCoeffs(out);
  }

  /** round(t v / Q) mod t of the centered value v. */
  method DecodeScaledValue(poly: RnsPoly, basis: seq<Modulus>, t: Modulus) returns (r: Result<seq<u64>>)
    requires PrimeBasis(basis) && Rectangular(poly)
    ensures r.Ok? <==> |poly| == |basis|
    ensures Product(basis) >= 1
    ensures r.Ok? ==> r.value == PMod(RoundPoly(PScale(t, CenteredLift(poly, Degree(poly), basis)), Product(basis)), t)
    ensures r.Err? ==> r.error == DimensionMismatch
  {
    hide IsPrime, Product, CrtValue, RoundDiv, Center;
    PrimeModuli(basis);
    var reconstructed :- ReconstructTrueValues(poly, basis);
    var bigQ, values := reconstructed.0, reconstructed.1;
    ghost var v := CenteredLift(poly, Degree(poly), basis);
    ghost var Y := RoundPoly(PScale(t, v), Product(basis));
    var out: seq<u64> := [];
    for i := 0 to |values|
      invariant |out| == i && forall c :: 0 <= c < i ==> out[c] == Y[c] % t
    {
      var negative, magnitude := CenterValue(values[i], bigQ);
      var rounded := ScaleAndRound(magnitude, t, bigQ);
      SignedRound(v[i], Val(magnitude), negative, t, Val(bigQ));
      var rs := SignedResidues(rounded, negative, [t]);
      out := out + [rs[0]];
    }
    assert out == PMod(Y, t);
    return Ok(out);
  }

  /** Decoding Delta m + e returns m while t e - (Q mod t) m stays within Q/2. */
  lemma DecodeDelta(v: int, m: int, e: int, Q: int, t: int)
    requires t > 1 && Q > 0 && 0 <= m < t && Cong(v, Q / t * m + e, Q)
    requires 2 * (t * Abs(e) + Q % t * m) < Q
    ensures RoundDiv(t * v, Q) % t == m
  {
    hide RoundDiv;
    DivModId(Q, t);
    var w := CongQuot(v, Q / t * m + e, Q);
    var d := t * e - Q % t * m;
    DecodeArith(v, m, e, Q, t, Q / t, Q % t, w);
    ErrorRange(e, Q % t * m, t, Q) by {
      MulMono(0, Q % t, m);
    }
    RoundDivIs(t * v, Q, m + t * w);
    CongBy(m, m + t * w, t, -w);
    ModIs(m + t * w, m, t);
  }

  lemma DecodeArith(v: int, m: int, e: int, Q: int, t: int, f: int, r: int, w: int)
    requires Q == f * t + r && v == f * m + e + w * Q
    ensures t * v - Q * (m + t * w) == t * e - r * m
  {
    calc {
      t * (f * m + e + w * Q);
      f * t * m + t * e + t * w * Q;
      (Q - r) * m + t * e + t * w * Q;
      Q * m - r * m + t * e + Q * (t * w);
    }
  }

  lemma ErrorRange(e: int, s: int, t: int, Q: int)
    requires t > 0 && s >= 0 && 2 * (t * Abs(e) + s) < Q
    ensures -Q < 2 * (t * e - s) < Q
  {
    assert t * -e == -(t * e);
    if e >= 0 {
      MulMono(0, e, t);
      IntMulComm(e, t);
    } else {
      MulMono(0, -e, t);
      IntMulComm(-e, t);
    }
  }
}
