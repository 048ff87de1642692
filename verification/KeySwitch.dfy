/** RNS hybrid key switching: key generation, switching, relinearization, Galois application. */
module KeySwitch {
  import opened Integers
  import opened NumberTheory
  import opened Reduce
  import opened Results
  import opened Negacyclic
  import opened Rns
  import opened Crt
  import opened PolySums
  import opened RnsExtension
  import opened RnsRescale
  import opened Rings
  import opened Rlwe
  import opened KeySwitchMath

  datatype KeySwitchKey = KeySwitchKey(ring: Ring, rows: seq<Ciphertext>)

  /** Row j is the residues of (b_j, a_j). */
  ghost predicate KeyRows(rows: seq<Ciphertext>, bs: seq<Poly>, aRows: seq<Poly>, n: nat, qs: seq<int>)
    requires Moduli(qs)
  {
    && |rows| == |bs| == |aRows|
    && forall j :: 0 <= j < |rows| ==> KeyRow(rows[j], bs[j], aRows[j], n, qs)
  }

  ghost predicate KeyRow(row: Ciphertext, b: Poly, a: Poly, n: nat, qs: seq<int>)
    requires Moduli(qs)
  {
    |row| == 2 && |b| == |a| == n && row[0] == Residues(b, qs) && row[1] == Residues(a, qs)
  }

  lemma KeyRowsUniform(rows: seq<Ciphertext>, bs: seq<Poly>, aRows: seq<Poly>, n: nat, qs: seq<int>)
    requires Moduli(qs) && KeyRows(rows, bs, aRows, n, qs)
    ensures Uniform(bs, n) && Uniform(aRows, n)
  {
    forall j | 0 <= j < |bs| ensures |bs[j]| == |aRows[j]| == n {
      assert KeyRow(rows[j], bs[j], aRows[j], n, qs);
    }
  }

  // ----------------------------------------------------------- ternary secrets

  predicate IsTernaryResidue(v: u64, q0: u64) {
    v == 0 || v == 1 || v == q0 - 1
  }

  function TernaryValue(v: int): (t: int)
    ensures -1 <= t <= 1
  {
    if v == 0 then 0 else if v == 1 then 1 else -1
  }

  /** The secret whose residues modulo `q0` are `c`. */
  ghost function TernaryPoly(c: Poly): (s: Poly)
    ensures |s| == |c| && PBound(s, 1) && forall i :: 0 <= i < |c| ==> s[i] == TernaryValue(c[i])
  {
    seq(|c|, i requires 0 <= i < |c| => TernaryValue(c[i]))
  }

  /** Ternary polynomials are read off their residues modulo any odd modulus. */
  lemma TernaryRead(s: Poly, q0: Modulus)
    requires PBound(s, 1)
    ensures TernaryPoly(PMod(s, q0)) == s
    ensures forall i :: 0 <= i < |s| ==> IsTernaryResidue(PMod(s, q0)[i], q0)
  {
    forall i | 0 <= i < |s|
      ensures TernaryPoly(PMod(s, q0))[i] == s[i] && IsTernaryResidue(PMod(s, q0)[i], q0)
    {
      if s[i] == -1 {
        DivModUnique(-1, q0, -1, q0 - 1);
      } else {
        SmallMod(s[i], q0);
      }
    }
  }

  predicate AllTernary(c: seq<u64>, q0: u64) {
    forall i :: 0 <= i < |c| ==> IsTernaryResidue(c[i], q0)
  }

  /** Ternary residues are congruent to the values they are read as. */
  lemma TernaryCong(c: seq<u64>, q0: Modulus)
    requires AllTernary(c, q0)
    ensures PCong(c, TernaryPoly(c), q0)
  {
    forall i | 0 <= i < |c| ensures Cong(c[i], TernaryPoly(c)[i], q0) {
      if c[i] == q0 - 1 && c[i] != 0 && c[i] != 1 {
        CongBy(c[i], -1, q0, 1);
      } else {
        CongRefl(c[i], q0);
      }
    }
  }

  /** Re-expresses a ternary secret, read from its first component, in another ring. */
  method RebaseTernarySecret(sk: RnsPoly, sourceModulus: Modulus, target: Ring) returns (r: Result<RnsPoly>)
    requires Rectangular(sk) && target.Valid()
    ensures r.Ok? <==> AllTernary(sk[0], sourceModulus)
    ensures r.Ok? ==> r.value == Residues(TernaryPoly(sk[0]), target.moduli)
    ensures r.Err? ==> r.error == InvalidParameters
  {
    hide PMod, TwoTo;
    var source := sk[0];
    ghost var S := TernaryPoly(source);
    var coeffs := ZeroRows(|target.moduli|, |source|);
    for j := 0 to |target.moduli|
      invariant Shape(coeffs, |source|, |target.moduli|)
      invariant j > 0 ==> forall i :: 0 <= i < |source| ==> IsTernaryResidue(source[i], sourceModulus)
      invariant forall k :: 0 <= k < j ==> coeffs[k] == PMod(S, target.moduli[k])
    {
      var q: u64 := target.moduli[j];
      var row: seq<u64> := [];
      for i := 0 to |source|
        invariant |row| == i
        invariant forall c :: 0 <= c < i ==> IsTernaryResidue(source[c], sourceModulus) && row[c] == PMod(S, q)[c]
      {
        var v := source[i];
        if !IsTernaryResidue(v, sourceModulus) {
          return Err(InvalidParameters);
        }
        TernaryResidue(v, target.moduli[j]);
        row := row + [if v == 0 then 0 else if v == 1 then 1 else q - 1];
      }
      assert row == PMod(S, q);
      coeffs := coeffs[j := row];
    }
    assert coeffs == Residues(S, target.moduli);
    r := FromCoeffs(coeffs);
  }

  lemma TernaryResidue(v: u64, q: Modulus)
    ensures TernaryValue(v) % q == if v == 0 then 0 else if v == 1 then 1 else q - 1
  {
    if v == 0 || v == 1 {
      SmallMod(v, q);
    } else {
      DivModUnique(-1, q, -1, q - 1);
    }
  }

  // ------------------------------------------------------------- key generation

  /** Scales component j by its own constant; all are residues of one integer. */
  method ScalePolyPerComponent(ring: Ring, poly: RnsPoly, constants: seq<u64>, ghost c: int) returns (r: RnsPoly)
    requires ring.Valid() && ring.Fits(poly) && |constants| == |ring.moduli|
    requires forall j :: 0 <= j < |constants| ==> constants[j] == c % ring.moduli[j]
    ensures r == RScale(c, poly, ring.moduli)
  {
    hide TwoTo;
    r := ZeroRows(|ring.moduli|, ring.degree);
    for j := 0 to |ring.moduli|
      invariant Shape(r, ring.degree, |ring.moduli|)
      invariant forall k :: 0 <= k < j ==> r[k] == RScale(c, poly, ring.moduli)[k]
    {
      var row: seq<u64> := [];
      for i := 0 to ring.degree
        invariant |row| == i && forall k :: 0 <= k < i ==> row[k] == RScale(c, poly, ring.moduli)[j][k]
      {
        var v := MulMod(poly[j][i], constants[j], ring.moduli[j]);
        ScaledEntry(poly, ring.moduli, c, j, i, constants[j], v);
        row := row + [v];
      }
      assert row == RScale(c, poly, ring.moduli)[j];
      r := r[j := row];
    }
    assert r == RScale(c, poly, ring.moduli);
  }

  /** b = -a s + e + g s_old. */
  ghost function RowB(a: Poly, e: Poly, s: Poly, g: int, oldKey: Poly): (b: Poly)
    requires |a| == |e| == |s| == |oldKey|
    ensures |b| == |a|
  {
    PAdd(PAdd(PSub(PZero(|a|), PMul(a, s)), e), PScale(g, oldKey))
  }

  lemma RowBRelation(a: Poly, e: Poly, s: Poly, g: int, oldKey: Poly, M: int)
    requires |a| == |e| == |s| == |oldKey|
    ensures RowRelation(RowB(a, e, s, g, oldKey), a, e, s, g, oldKey, M)
  {
    hide PMul, PScale, Cong;
    RowCancels(PMul(a, s), e, PScale(g, oldKey));
    PCongRefl(PAdd(e, PScale(g, oldKey)), M);
  }

  lemma RowCancels(x: Poly, e: Poly, y: Poly)
    requires |x| == |e| == |y|
    ensures PAdd(PAdd(PAdd(PSub(PZero(|x|), x), e), y), x) == PAdd(e, y)
  {}

  ghost function RowBs(aRows: seq<Poly>, es: seq<Poly>, s: Poly, gs: seq<int>, oldKey: Poly): (bs: seq<Poly>)
    requires |aRows| == |es| == |gs| && Uniform(aRows, |s|) && Uniform(es, |s|) && |oldKey| == |s|
    ensures |bs| == |aRows| && forall j :: 0 <= j < |bs| ==> bs[j] == RowB(aRows[j], es[j], s, gs[j], oldKey)
  {
    seq(|aRows|, j requires 0 <= j < |aRows| => RowB(aRows[j], es[j], s, gs[j], oldKey))
  }

  /** Generated rows encrypt the scaled old secret, exactly. */
  lemma GeneratedRows(aRows: seq<Poly>, es: seq<Poly>, s: Poly, gs: seq<int>, oldKey: Poly, M: int)
    requires |aRows| == |es| == |gs| && Uniform(aRows, |s|) && Uniform(es, |s|) && |oldKey| == |s|
    ensures Rows(RowBs(aRows, es, s, gs, oldKey), aRows, es, s, gs, oldKey, M)
  {
    hide RowB, RowRelation;
    forall j | 0 <= j < |aRows|
      ensures RowRelation(RowBs(aRows, es, s, gs, oldKey)[j], aRows[j], es[j], s, gs[j], oldKey, M)
    {
      RowBRelation(aRows[j], es[j], s, gs[j], oldKey, M);
    }
  }

  /** An encryption of zero with a scaled polynomial added to its first component. */
  method EncryptZeroPlus(ring: Ring, scaled: RnsPoly, sk: RnsPoly, a: RnsPoly, e: RnsPoly,
                         ghost A: Poly, ghost E: Poly, ghost s: Poly, ghost g: int,
                         ghost x: Poly) returns (row: Ciphertext)
    requires ring.Sound() && |A| == |E| == |s| == |x| == ring.degree
    requires a == Residues(A, ring.moduli) && e == Residues(E, ring.moduli)
    requires sk == Residues(s, ring.moduli) && scaled == Residues(PScale(g, x), ring.moduli)
    ensures KeyRow(row, RowB(A, E, s, g, x), A, ring.degree, ring.moduli)
  {
    hide PMul, PMod, Residues, IsPrime, Ring.Sound, TwoTo, Ring.Zero;
    SoundIsValid(ring);
    ZeroResidues(ring);
    var zero := ring.Zero();
    var z := EncryptSecret(ring, zero, sk, a, e, PZero(ring.degree), s, A, E);
    var b := ring.Add(z.value[0], scaled);
    ResAdd(PAdd(PSub(PZero(ring.degree), PMul(A, s)), E), PScale(g, x), ring.moduli);
    row := [b.value, z.value[1]];
  }

  /** One row: an encryption of zero plus the scaled old secret. */
  method GenerateRow(qpRing: Ring, j: nat, sOld: RnsPoly, sNewQp: RnsPoly, a: RnsPoly, e: RnsPoly,
                     ghost A: Poly, ghost E: Poly, ghost s: Poly, ghost oldKey: Poly) returns (row: Ciphertext)
    requires qpRing.Sound() && PrimeBasis(qpRing.moduli) && j < |qpRing.moduli|
    requires |A| == |E| == |s| == |oldKey| == qpRing.degree
    requires a == Residues(A, qpRing.moduli) && e == Residues(E, qpRing.moduli)
    requires sNewQp == Residues(s, qpRing.moduli) && sOld == Residues(oldKey, qpRing.moduli)
    ensures KeyRow(row, RowB(A, E, s, Cofactor(qpRing.moduli, j), oldKey), A, qpRing.degree, qpRing.moduli)
  {
    hide PMul, PMod, Residues, IsPrime, Ring.Sound, TwoTo, Cofactor;
    SoundIsValid(qpRing);
    var qp := qpRing.moduli;
    var constants := CrtBasisConstant(qp, j, qp);
    ghost var g := Cofactor(qp, j);
    var scaled := ScalePolyPerComponent(qpRing, sOld, constants.value, g);
    ResScale(g, oldKey, qp);
    row := EncryptZeroPlus(qpRing, scaled, sNewQp, a, e, A, E, s, g, oldKey);
  }

  /** The ring over Q followed by P. */
  method ExtendedRing(ring: Ring, pModuli: seq<Modulus>) returns (qpRing: Ring)
    requires ring.Valid() && PrimeBasis(ring.moduli + pModuli)
    ensures qpRing.Sound() && qpRing.degree == ring.degree && qpRing.moduli == ring.moduli + pModuli
  {
    hide TwoTo, IsPrime;
    var r := Rings.New(ring.degree, ring.moduli + pModuli);
    qpRing := r.value;
  }

  method GenerateKeySwitchKey(ring: Ring, pModuli: seq<Modulus>, sOld: RnsPoly, sNew: RnsPoly,
                              aRows: seq<RnsPoly>, es: seq<RnsPoly>,
                              ghost As: seq<Poly>, ghost Es: seq<Poly>, ghost oldKey: Poly)
    returns (r: Result<KeySwitchKey>)
    requires ring.Valid() && Rectangular(sNew) && |sNew[0]| == ring.degree == |oldKey|
    requires |pModuli| > 0 ==> PrimeBasis(ring.moduli + pModuli)
    requires |aRows| == |es| == |As| == |Es| == |ring.moduli| && Uniform(As, ring.degree) && Uniform(Es, ring.degree)
    requires forall j :: 0 <= j < |aRows| ==> aRows[j] == Residues(As[j], ring.moduli + pModuli)
    requires forall j :: 0 <= j < |es| ==> es[j] == Residues(Es[j], ring.moduli + pModuli)
    requires Shape(sOld, ring.degree, |ring.moduli| + |pModuli|) ==> sOld == Residues(oldKey, ring.moduli + pModuli)
    ensures r.Ok? <==> |pModuli| > 0 && Shape(sOld, ring.degree, |ring.moduli| + |pModuli|)
                       && AllTernary(sNew[0], ring.moduli[0])
    ensures r.Ok? ==>
              && r.value.ring.Sound() && r.value.ring.degree == ring.degree
              && r.value.ring.moduli == ring.moduli + pModuli
              && KeyRows(r.value.rows, RowBs(As, Es, TernaryPoly(sNew[0]), RowScales(ring.moduli, pModuli), oldKey), As,
                         ring.degree, ring.moduli + pModuli)
    ensures r.Err? ==> r.error == if |pModuli| == 0 || Shape(sOld, ring.degree, |ring.moduli| + |pModuli|)
                                  then InvalidParameters else DimensionMismatch
  {
    hide PMul, PMod, Residues, IsPrime, TwoTo, Cofactor, KeyRow, RowB, Ring.Sound;
    if |pModuli| == 0 {
      return Err(InvalidParameters);
    }
    var qpRing := ExtendedRing(ring, pModuli);
    SoundIsValid(qpRing);
    if !qpRing.Fits(sOld) {
      return Err(DimensionMismatch);
    }
    var sNewQp :- RebaseTernarySecret(sNew, ring.moduli[0], qpRing);
    ghost var s := TernaryPoly(sNew[0]);
    ghost var bs := RowBs(As, Es, s, RowScales(ring.moduli, pModuli), oldKey);
    var rows: seq<Ciphertext> := [];
    for j := 0 to |ring.moduli|
      invariant |rows| == j
      invariant forall k :: 0 <= k < j ==> KeyRow(rows[k], bs[k], As[k], ring.degree, qpRing.moduli)
    {
      var row := GenerateRow(qpRing, j, sOld, sNewQp, aRows[j], es[j], As[j], Es[j], s, oldKey);
      rows := rows + [row];
    }
    return Ok(KeySwitchKey(qpRing, rows));
  }

  // -------------------------------------------------------------- key switching

  lemma SingleLift(d: Poly, q: int)
    requires IsPrime(q) && Below(d, q)
    ensures PrimeBasis([q]) && Lift([d], |d|, [q]) == d
  {
    hide IsPrime, Cong;
    assert q >= 2 by { PrimeAbove(q); }
    forall i | 0 <= i < |d| ensures CrtValue(Column([d], i), [q]) == d[i] {
      assert Product([q]) == Product([q][..0]) * q && Product([q][..0]) == 1;
      CongRefl(d[i], q);
      CrtIs(d[i], Column([d], i), [q]);
    }
  }

  lemma PrimeAbove(q: int)
    requires IsPrime(q)
    ensures q >= 2
  {}

  /** Digit j of c1, lifted to every modulus of QP. */
  method LiftedDigit(component: RnsPoly, j: nat, n: nat, qs: seq<Modulus>, qp: seq<Modulus>)
    returns (d: RnsPoly)
    requires PrimeBasis(qs) && Shape(component, n, |qs|) && n > 0 && j < |qs| && |qp| > 0
    ensures d == Residues(Digit(component, qs, j), qp)
  {
    hide IsPrime, Cofactor, Inverse, PMod, Lift;
    var q := qs[j];
    var hat := CrtBasisConstant(qs, j, [q]);
    var y := InvMod(hat.value[0], q);
    assert y == CofactorInverse(qs, j);
    var coeffs: seq<u64> := [];
    for i := 0 to n
      invariant |coeffs| == i && forall c :: 0 <= c < i ==> coeffs[c] == Digit(component, qs, j)[c]
    {
      var v := MulMod(component[j][i], y, q);
      IntMulComm(y, component[j][i]);
      coeffs := coeffs + [v];
    }
    assert coeffs == Digit(component, qs, j);
    SingleLift(coeffs, q);
    var source := FromCoeffs([coeffs]);
    var lifted := ExtendBasis(source.value, [q], qp);
    d := lifted.value;
  }

  lemma DotNext(n: nat, ds: seq<Poly>, rs: seq<Poly>, k: nat)
    requires |ds| == |rs| && Uniform(ds, n) && Uniform(rs, n) && k < |ds|
    ensures Dot(n, ds[..k + 1], rs[..k + 1]) == PAdd(Dot(n, ds[..k], rs[..k]), PMul(ds[k], rs[k]))
  {
    assert ds[..k + 1][..k] == ds[..k] && rs[..k + 1][..k] == rs[..k];
  }

  /** Adds the product of a digit and a row component to an accumulator. */
  method Accumulate(ring: Ring, acc: RnsPoly, d: RnsPoly, row: RnsPoly, ghost x: Poly, ghost D: Poly, ghost R: Poly)
    returns (next: RnsPoly)
    requires ring.Sound() && |x| == |D| == |R| == ring.degree
    requires acc == Residues(x, ring.moduli) && d == Residues(D, ring.moduli) && row == Residues(R, ring.moduli)
    ensures next == Residues(PAdd(x, PMul(D, R)), ring.moduli)
  {
    hide PMul, PMod, Residues, IsPrime, TwoTo, Ring.Sound;
    SoundIsValid(ring);
    var product := ring.Mul(d, row);
    ResMul(D, R, ring.moduli);
    var sum := ring.Add(acc, product.value);
    ResAdd(x, PMul(D, R), ring.moduli);
    next := sum.value;
  }

  /** The accumulated inner product of digits and rows, over QP. */
  method AccumulateRows(ring: Ring, qpRing: Ring, c1: RnsPoly, rows: seq<Ciphertext>, ghost bs: seq<Poly>,
                        ghost aRows: seq<Poly>)
    returns (accB: RnsPoly, accA: RnsPoly)
    requires ring.Valid() && PrimeBasis(ring.moduli) && ring.Fits(c1)
    requires qpRing.Sound() && qpRing.degree == ring.degree && |rows| == |ring.moduli|
    requires KeyRows(rows, bs, aRows, ring.degree, qpRing.moduli)
    ensures Uniform(bs, ring.degree) && Uniform(aRows, ring.degree)
    ensures accB == Residues(Dot(ring.degree, Digits(c1, ring.degree, ring.moduli), bs), qpRing.moduli)
    ensures accA == Residues(Dot(ring.degree, Digits(c1, ring.degree, ring.moduli), aRows), qpRing.moduli)
  {
    hide PMul, PMod, Residues, IsPrime, TwoTo, Ring.Sound, Digit, Dot, Ring.Zero;
    SoundIsValid(qpRing);
    var n := ring.degree;
    KeyRowsUniform(rows, bs, aRows, n, qpRing.moduli);
    ghost var ds := Digits(c1, n, ring.moduli);
    accB, accA := qpRing.Zero(), qpRing.Zero();
    ZeroResidues(qpRing);
    EmptyDot(n, ds, bs);
    EmptyDot(n, ds, aRows);
    for j := 0 to |ring.moduli|
      invariant accB == Residues(Dot(n, ds[..j], bs[..j]), qpRing.moduli)
      invariant accA == Residues(Dot(n, ds[..j], aRows[..j]), qpRing.moduli)
    {
      assert KeyRow(rows[j], bs[j], aRows[j], n, qpRing.moduli);
      var d := LiftedDigit(c1, j, n, ring.moduli, qpRing.moduli);
      DotNext(n, ds, bs, j);
      DotNext(n, ds, aRows, j);
      accB := Accumulate(qpRing, accB, d, rows[j][0], Dot(n, ds[..j], bs[..j]), ds[j], bs[j]);
      accA := Accumulate(qpRing, accA, d, rows[j][1], Dot(n, ds[..j], aRows[..j]), ds[j], aRows[j]);
    }
    assert ds[..|ds|] == ds && bs[..|bs|] == bs && aRows[..|aRows|] == aRows;
  }

  lemma EmptyDot(n: nat, ds: seq<Poly>, rs: seq<Poly>)
    requires |ds| == |rs| && Uniform(ds, n) && Uniform(rs, n)
    ensures Dot(n, ds[..0], rs[..0]) == PZero(n)
  {}

  lemma SpecialPositive(qs: seq<Modulus>, k: nat)
    requires k <= |qs|
    ensures Product(qs[k..]) >= 1
  {
    ProductPos(qs[k..]);
  }

  /** (c0 + floor(sum d_j b_j / P), floor(sum d_j a_j / P)) for P, the product of the key's moduli beyond those of Q. */
  method Switch(ct: Ciphertext, ksk: KeySwitchKey, ring: Ring, ghost bs: seq<Poly>, ghost aRows: seq<Poly>)
    returns (r: Result<Ciphertext>)
    requires ring.Valid() && ksk.ring.Sound() && |ct| >= 2 && ksk.ring.degree == ring.degree
    requires PrimeBasis(ksk.ring.moduli) && |ring.moduli| <= |ksk.ring.moduli|
    requires ksk.ring.moduli[..|ring.moduli|] == ring.moduli
    requires KeyRows(ksk.rows, bs, aRows, ring.degree, ksk.ring.moduli)
    ensures Uniform(bs, ring.degree) && Uniform(aRows, ring.degree)
    ensures r.Ok? <==> ring.Fits(ct[0]) && ring.Fits(ct[1]) && |ksk.rows| == |ring.moduli| < |ksk.ring.moduli|
    ensures Product(ksk.ring.moduli[|ring.moduli|..]) >= 1
    ensures r.Ok? ==>
              var n, P := ring.degree, Product(ksk.ring.moduli[|ring.moduli|..]);
              var ds := Digits(ct[1], n, ring.moduli);
              && |r.value| == 2
              && r.value[0] == RAdd(ct[0], Residues(PDiv(Dot(n, ds, bs), P), ring.moduli), ring.moduli)
              && r.value[1] == Residues(PDiv(Dot(n, ds, aRows), P), ring.moduli)
    ensures r.Err? ==> r.error == DimensionMismatch
  {
    hide PMul, PMod, Residues, IsPrime, TwoTo, Ring.Sound, Digit, Dot, PDiv, Lift, Product, KeyRow;
    KeyRowsUniform(ksk.rows, bs, aRows, ring.degree, ksk.ring.moduli);
    SpecialPositive(ksk.ring.moduli, |ring.moduli|);
    if !ring.Fits(ct[0]) || !ring.Fits(ct[1]) || |ksk.rows| != |ring.moduli| {
      return Err(DimensionMismatch);
    }
    var k := |ring.moduli|;
    var pModuli := ksk.ring.moduli[k..];
    if |pModuli| == 0 {
      return Err(DimensionMismatch);
    }
    assert ring.moduli + pModuli == ksk.ring.moduli;
    BasisParts(ring.moduli, pModuli);
    var accB, accA := AccumulateRows(ring, ksk.ring, ct[1], ksk.rows, bs, aRows);
    ghost var n := ring.degree;
    ghost var ds := Digits(ct[1], n, ring.moduli);
    var bDown := ModDown(accB, ring.moduli, pModuli);
    ModDownMeaning(Dot(n, ds, bs), ring.moduli, pModuli);
    var aDown := ModDown(accA, ring.moduli, pModuli);
    ModDownMeaning(Dot(n, ds, aRows), ring.moduli, pModuli);
    var c0 := ring.Add(ct[0], bDown.value);
    return Ok([c0.value, aDown.value]);
  }
}
