/** The negacyclic transforms: twist, cyclic network, and back. */
module NttTransforms {
  import opened Integers
  import opened Sums
  import opened NumberTheory
  import opened Results
  import opened Negacyclic
  import opened Evaluation
  import opened Transform
  import opened NttTables
  import opened Ntt

  /** `v` holds the values of `a` at the odd powers of psi. */
  ghost predicate IsForward(a: Poly, v: seq<int>, psi: int, q: int)
    requires |a| == |v| > 0
  {
    forall k :: 0 <= k < |a| ==> Cong(v[k], Eval(a, Pow(psi, 2 * k + 1)), q)
  }

  /** `a` is what the inverse network computes from the values `v`. */
  ghost predicate IsInverse(v: Poly, a: seq<int>, invPsi: int, invN: int, q: int)
    requires |a| == |v| > 0
  {
    forall j :: 0 <= j < |a| ==> Cong(a[j], Eval(v, Pow(invPsi, 2 * j)) * invN * Pow(invPsi, j), q)
  }

  // ------------------------------------------------------------------ the maps

  lemma TwistArith(c: int, t: int, p: int, x: int, w: int, q: int)
    requires Cong(t, c * p, q) && Cong(w, x, q)
    ensures Cong(t * w, c * (p * x), q)
  {
    CongMul(t, c * p, w, x, q);
    assert c * p * x == c * (p * x);
  }

  lemma TwistTerm(a: Poly, tw: Poly, psi: int, omega: int, q: int, k: nat, j: nat)
    requires |a| == |tw| && j < |a| && Cong(omega, psi * psi, q)
    requires Cong(tw[j], a[j] * Pow(psi, j), q)
    ensures Cong(LinTerm(tw, Powers(Pow(omega, k)))(j), LinTerm(a, Powers(Pow(psi, 2 * k + 1)))(j), q)
  {
    hide Coef, Pow;
    CoefAt(a, j);
    CoefAt(tw, j);
    CongPow(omega, psi * psi, k, q);
    SquarePower(psi, k);
    CongPow(Pow(omega, k), Pow(psi, 2 * k), j, q);
    SplitPower(psi, k, j);
    ExchangePower(psi, k, j);
    TwistArith(a[j], tw[j], Pow(psi, j), Pow(Pow(psi, 2 * k), j), Pow(Pow(omega, k), j), q);
  }

  /** The cyclic transform of the twisted input is the negacyclic transform. */
  lemma TwistEval(a: Poly, tw: Poly, psi: int, omega: int, q: int, k: nat)
    requires |a| == |tw| > 0 && Cong(omega, psi * psi, q)
    requires forall j :: 0 <= j < |a| ==> Cong(tw[j], a[j] * Pow(psi, j), q)
    ensures Cong(Eval(tw, Pow(omega, k)), Eval(a, Pow(psi, 2 * k + 1)), q)
  {
    hide LinTerm, Eval, Powers, Pow, Cong, Sum;
    var f, g := LinTerm(tw, Powers(Pow(omega, k))), LinTerm(a, Powers(Pow(psi, 2 * k + 1)));
    forall j | 0 <= j < |a| ensures Cong(f(j), g(j), q) {
      TwistTerm(a, tw, psi, omega, q, k, j);
    }
    SumCong(|a|, f, g, q);
    EvalIsSum(tw, Pow(omega, k));
    EvalIsSum(a, Pow(psi, 2 * k + 1));
  }

  lemma ForwardValues(a: Poly, tw: Poly, v: seq<int>, psi: int, omega: int, q: int)
    requires |a| == |tw| == |v| > 0 && Cong(omega, psi * psi, q)
    requires forall j :: 0 <= j < |a| ==> Cong(tw[j], a[j] * Pow(psi, j), q)
    requires IsDft(tw, v, omega, q)
    ensures IsForward(a, v, psi, q)
  {
    hide Eval, Pow, Cong;
    forall k | 0 <= k < |a|
      ensures Cong(v[k], Eval(a, Pow(psi, 2 * k + 1)), q)
    {
      TwistEval(a, tw, psi, omega, q, k);
      CongTrans(v[k], Eval(tw, Pow(omega, k)), Eval(a, Pow(psi, 2 * k + 1)), q);
    }
  }

  lemma InverseValue(v: Poly, x: int, d: int, s: int, r: int, invPsi: int, invOmega: int, invN: int, q: int, j: nat)
    requires |v| > 0 && Cong(invOmega, invPsi * invPsi, q)
    requires Cong(d, Eval(v, Pow(invOmega, j)), q) && Cong(s, d * invN, q)
    requires Cong(x, Pow(invPsi, j), q) && Cong(r, s * x, q)
    ensures Cong(r, Eval(v, Pow(invPsi, 2 * j)) * invN * Pow(invPsi, j), q)
  {
    hide Eval, Pow, Cong;
    CongPow(invOmega, invPsi * invPsi, j, q);
    SquarePower(invPsi, j);
    EvalCong(v, Pow(invOmega, j), Pow(invPsi, 2 * j), q);
    var e := Eval(v, Pow(invPsi, 2 * j));
    CongTrans(d, Eval(v, Pow(invOmega, j)), e, q);
    CongRefl(invN, q);
    CongMul(d, e, invN, invN, q);
    CongTrans(s, d * invN, e * invN, q);
    CongMul(s, e * invN, x, Pow(invPsi, j), q);
    CongTrans(r, s * x, e * invN * Pow(invPsi, j), q);
  }

  /** The root of the cyclic network is -1 half way round. */
  lemma CyclicRoot(x: int, w: int, n: nat, l: nat, q: int)
    requires RootOfMinusOne(x, n, q) && Cong(w, x * x, q) && n == TwoTo(l) && n > 1
    ensures Cong(Pow(w, n / 2), -1, q)
  {
    hide Pow, Cong;
    SeveralStages(l);
    TwoToStep(l - 1);
    CongPow(w, x * x, n / 2, q);
    SquarePower(x, n / 2);
    CongTrans(Pow(w, n / 2), Pow(x, n), -1, q);
  }

  // --------------------------------------------------------------- in-place code

  /** One more coefficient multiplied by its power of psi. */
  ghost predicate Twisted(before: seq<int>, after: seq<int>, psi: int, q: int, j: nat)
    requires |before| == |after| && j <= |after|
  {
    && (forall p :: 0 <= p < j ==> Cong(after[p], before[p] * Pow(psi, p), q) && after[p] < q)
    && (forall p :: j <= p < |after| ==> after[p] == before[p])
  }

  lemma TwistStep(c: int, x: int, y: int, psi: int, q: int, j: nat)
    requires q > 0 && x == Pow(psi, j) % q && Cong(y, c * x, q)
    ensures Cong(y, c * Pow(psi, j), q)
  {
    hide Pow;
    ModCong(Pow(psi, j), q);
    CongRefl(c, q);
    CongMul(c, c, x, Pow(psi, j), q);
    CongTrans(y, c * x, c * Pow(psi, j), q);
  }

  method ForwardTransformInPlace(buf: array<u64>, table: NttTable)
    requires table.Valid() && IsPrime(table.modulus) && buf.Length == table.degree
    modifies buf
    ensures IsForward(old(buf[..]), buf[..], table.psi, table.modulus)
    ensures AllBelow(buf[..], table.modulus)
  {
    hide Pow, Eval, Cong, IsPrime, HasOrder, IsDft;
    var n, q := table.degree, table.modulus;
    ghost var a: Poly := buf[..];
    for j := 0 to n
      invariant Twisted(a, buf[..], table.psi, q, j)
    {
      var c := buf[j];
      var x := table.psiPowers[j];
      buf[j] := MulResidue(table.reducer, c, x, q);
      TwistStep(c, x, buf[j], table.psi, q, j);
    }
    ghost var tw: Poly := buf[..];
    assert AllBelow(tw, q);
    TableRoot(table);
    ghost var l: nat :| n == TwoTo(l);
    DegreeBelowModulus(n, q);
    if n > 1 {
      CyclicRoot(table.psi, table.omega, n, l, q);
    }
    Radix2NttInplace(buf, table.omega, table.reducer, q, l);
    ForwardValues(a, tw, buf[..], table.psi, table.omega, q);
  }

  /** Values above the cut are still the network's outputs, those below are scaled and untwisted. */
  ghost predicate Untwisted(v: Poly, d: seq<int>, after: seq<int>, invPsi: int, invN: int, q: int, j: nat)
    requires |v| == |d| == |after| > 0 && j <= |after|
  {
    && (forall p :: 0 <= p < j ==> Cong(after[p], Eval(v, Pow(invPsi, 2 * p)) * invN * Pow(invPsi, p), q))
    && (forall p :: 0 <= p < j ==> after[p] < q)
    && (forall p :: j <= p < |after| ==> after[p] == d[p])
  }

  method InverseTransformInPlace(buf: array<u64>, table: NttTable)
    requires table.Valid() && IsPrime(table.modulus) && buf.Length == table.degree
    modifies buf
    ensures IsInverse(old(buf[..]), buf[..], table.invPsi, table.invDegree, table.modulus)
    ensures AllBelow(buf[..], table.modulus)
  {
    hide Pow, Eval, Cong, IsPrime, HasOrder;
    var n, q := table.degree, table.modulus;
    ghost var v: Poly := buf[..];
    TableRoot(table);
    InverseRoot(table.psi, table.invPsi, n, q);
    ghost var l: nat :| n == TwoTo(l);
    DegreeBelowModulus(n, q);
    if n > 1 {
      CyclicRoot(table.invPsi, table.invOmega, n, l, q);
    }
    Radix2NttInplace(buf, table.invOmega, table.reducer, q, l);
    ghost var d := buf[..];
    for j := 0 to n
      invariant Untwisted(v, d, buf[..], table.invPsi, table.invDegree, q, j)
    {
      var scaled := MulResidue(table.reducer, buf[j], table.invDegree, q);
      buf[j] := MulResidue(table.reducer, scaled, table.invPsiPowers[j], q);
      ModCong(Pow(table.invPsi, j), q);
      InverseValue(v, table.invPsiPowers[j], d[j], scaled, buf[j],
                   table.invPsi, table.invOmega, table.invDegree, q, j);
    }
  }

  method NegacyclicForward(buf: array<u64>, table: NttTable) returns (r: Result<()>)
    requires table.Valid() && IsPrime(table.modulus)
    modifies buf
    ensures r.Err? <==> buf.Length != table.degree
    ensures r.Err? ==> r.error == DimensionMismatch && buf[..] == old(buf[..])
    ensures r.Ok? ==> IsForward(old(buf[..]), buf[..], table.psi, table.modulus) && AllBelow(buf[..], table.modulus)
  {
    if buf.Length != table.degree {
      return Err(DimensionMismatch);
    }
    ForwardTransformInPlace(buf, table);
    return Ok(());
  }

  method NegacyclicInverse(buf: array<u64>, table: NttTable) returns (r: Result<()>)
    requires table.Valid() && IsPrime(table.modulus)
    modifies buf
    ensures r.Err? <==> buf.Length != table.degree
    ensures r.Err? ==> r.error == DimensionMismatch && buf[..] == old(buf[..])
    ensures r.Ok? ==> IsInverse(old(buf[..]), buf[..], table.invPsi, table.invDegree, table.modulus)
                      && AllBelow(buf[..], table.modulus)
  {
    if buf.Length != table.degree {
      return Err(DimensionMismatch);
    }
    InverseTransformInPlace(buf, table);
    return Ok(());
  }

  // ------------------------------------------------------------------- theorems

  /** The inverse transform undoes the forward one. */
  lemma InverseUndoesForward(a: Poly, v: Poly, b: Poly, psi: int, invPsi: int, invN: int, n: nat, q: int)
    requires |a| == |v| == |b| == n > 0 && NttRoot(psi, invPsi, invN, n, q)
    requires IsForward(a, v, psi, q) && IsInverse(v, b, invPsi, invN, q)
    ensures PCong(b, a, q)
  {
    hide Pow, Eval, Cong, NttRoot;
    forall j | 0 <= j < n ensures Cong(b[j], a[j], q) {
      InverseOfForward(a, v, psi, invPsi, invN, n, q, j);
      CongTrans(b[j], Eval(v, Pow(invPsi, 2 * j)) * invN * Pow(invPsi, j), a[j], q);
    }
  }

  /** The forward transform undoes the inverse one. */
  lemma ForwardUndoesInverse(v: Poly, a: Poly, w: Poly, psi: int, invPsi: int, invN: int, n: nat, q: int)
    requires |a| == |v| == |w| == n > 0 && NttRoot(psi, invPsi, invN, n, q)
    requires IsInverse(v, a, invPsi, invN, q) && IsForward(a, w, psi, q)
    ensures PCong(w, v, q)
  {
    hide Pow, Eval, Cong, NttRoot;
    forall k | 0 <= k < n ensures Cong(w[k], v[k], q) {
      ForwardOfInverse(a, v, psi, invPsi, invN, n, q, k);
      CongTrans(w[k], Eval(a, Pow(psi, 2 * k + 1)), v[k], q);
    }
  }

  /** Odd powers of psi are roots of X^N + 1. */
  lemma OddPowerRoot(psi: int, k: nat, n: nat, q: int)
    requires RootOfMinusOne(psi, n, q)
    ensures RootOfMinusOne(Pow(psi, 2 * k + 1), n, q)
  {
    hide Cong;
    var e := 2 * k + 1;
    PowMul(psi, e, n);
    PowMul(psi, n, e);
    IntMulComm(e, n);
    CongPow(Pow(psi, n), -1, e, q);
    PowMinusOne(e);
  }

  /** The convolution theorem: multiplying values multiplies polynomials. */
  lemma ValuesMultiply(a: Poly, b: Poly, u: Poly, v: Poly, w: Poly, psi: int, n: nat, q: int)
    requires |a| == |b| == |u| == |v| == |w| == n > 0 && RootOfMinusOne(psi, n, q)
    requires IsForward(a, u, psi, q) && IsForward(b, v, psi, q)
    requires forall k :: 0 <= k < n ==> Cong(w[k], u[k] * v[k], q)
    ensures IsForward(PMul(a, b), w, psi, q)
  {
    hide Pow, Eval, Cong, RootOfMinusOne, PMul;
    forall k | 0 <= k < n
      ensures Cong(w[k], Eval(PMul(a, b), Pow(psi, 2 * k + 1)), q)
    {
      var x := Pow(psi, 2 * k + 1);
      OddPowerRoot(psi, k, n, q);
      EvalMul(a, b, x, q);
      CongMul(u[k], Eval(a, x), v[k], Eval(b, x), q);
      CongSym(Eval(PMul(a, b), x), Eval(a, x) * Eval(b, x), q);
      CongTrans(w[k], u[k] * v[k], Eval(a, x) * Eval(b, x), q);
      CongTrans(w[k], Eval(a, x) * Eval(b, x), Eval(PMul(a, b), x), q);
    }
  }
}
