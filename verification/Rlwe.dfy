/** RLWE ciphertexts: encryption, decryption as a polynomial in the secret, and tensoring. */
module Rlwe {
  import opened Integers
  import opened NumberTheory
  import opened Results
  import opened Negacyclic
  import opened Rns
  import opened PolySums
  import opened Rings

  type Ciphertext = seq<RnsPoly>

  /** Component by component, the residues of integer polynomials. */
  ghost predicate Represents(ct: seq<seq<Poly>>, cs: seq<Poly>, n: nat, qs: seq<int>)
    requires Moduli(qs)
  {
    |ct| == |cs| && forall i :: 0 <= i < |ct| ==> |cs[i]| == n && ct[i] == Residues(cs[i], qs)
  }

  // ------------------------------------------------------------------ decryption

  /** s^i. */
  ghost function PPow(s: Poly, i: nat): (r: Poly)
    requires |s| > 0
    ensures |r| == |s|
  {
    if i == 0 then POne(|s|) else PMul(PPow(s, i - 1), s)
  }

  /** The constant polynomial 1. */
  ghost function POne(n: nat): (r: Poly)
    requires n > 0
    ensures |r| == n
  {
    PZero(n)[0 := 1]
  }

  lemma MulOneLeft(a: Poly)
    requires |a| > 0
    ensures PMul(POne(|a|), a) == a
  {
    hide Coef;
    var n, one := |a|, POne(|a|);
    var r := PMul(one, a);
    forall k | 0 <= k < n ensures r[k] == a[k] {
      var f := LinTerm(one, Rev(a, k));
      forall i | 0 <= i < n && i != 0 ensures f(i) == 0 {
        CoefAt(one, i);
      }
      Sums.SumSingle(n, f, 0);
      CoefAt(one, 0);
      CoefAt(a, k);
      assert k - 0 == k;
    }
  }

  /** c_0 + c_1 s + ... + c_{k-1} s^{k-1}: what a ciphertext encrypts, noise included. */
  ghost function Phase(cs: seq<Poly>, s: Poly): (r: Poly)
    requires |s| > 0 && Uniform(cs, |s|)
    ensures |r| == |s|
  {
    var k := |cs| - 1;
    if |cs| == 0 then PZero(|s|) else PAdd(Phase(cs[..k], s), PMul(cs[k], PPow(s, k)))
  }

  /** What a two-component ciphertext encrypts: c_0 + c_1 s. */
  ghost function Phase2(c0: Poly, c1: Poly, s: Poly): (r: Poly)
    requires |c0| == |c1| == |s|
    ensures |r| == |s|
  {
    PAdd(c0, PMul(c1, s))
  }

  lemma PhaseTwo(cs: seq<Poly>, s: Poly)
    requires |s| > 0 && Uniform(cs, |s|) && |cs| == 2
    ensures Phase(cs, s) == Phase2(cs[0], cs[1], s)
  {
    hide PMul, PAdd, Phase, PPow;
    FirstPhase(cs, s);
    NextPhase(cs, s, 1);
    assert cs[..2] == cs;
  }

  lemma PhaseThree(cs: seq<Poly>, s: Poly)
    requires |s| > 0 && Uniform(cs, |s|) && |cs| == 3
    ensures Phase(cs, s) == PAdd(PAdd(cs[0], PMul(cs[1], s)), PMul(cs[2], PMul(s, s)))
  {
    hide PMul, PAdd, Phase, PPow;
    FirstPhase(cs, s);
    NextPhase(cs, s, 1);
    NextPhase(cs, s, 2);
    NextPower(s, 1);
    assert cs[..3] == cs;
  }

  lemma NextPower(s: Poly, i: nat)
    requires |s| > 0
    ensures PPow(s, i + 1) == PMul(PPow(s, i), s)
  {}

  /** Accumulates c_i s^i with a running power of the secret. */
  method Decrypt(ring: Ring, ct: Ciphertext, sk: RnsPoly, ghost cs: seq<Poly>, ghost s: Poly)
    returns (r: Result<RnsPoly>)
    requires ring.Sound() && |s| == ring.degree && sk == Residues(s, ring.moduli)
    requires |cs| == |ct| && forall i :: 0 <= i < |ct| && ring.Fits(ct[i]) ==>
               |cs[i]| == ring.degree && ct[i] == Residues(cs[i], ring.moduli)
    ensures r.Ok? <==> |ct| > 0 && forall i :: 0 <= i < |ct| ==> ring.Fits(ct[i])
    ensures r.Ok? ==> Uniform(cs, |s|) && ring.Fits(r.value) && r.value == Residues(Phase(cs, s), ring.moduli)
    ensures r.Err? ==> r.error == DimensionMismatch
  {
    hide PMul, PMod, Residues, IsPrime, Ring.Sound, TwoTo;
    if |ct| == 0 {
      return Err(DimensionMismatch);
    }
    for i := 0 to |ct|
      invariant forall k :: 0 <= k < i ==> ring.Fits(ct[k])
    {
      if !ring.Fits(ct[i]) {
        return Err(DimensionMismatch);
      }
    }
    SoundIsValid(ring);
    assert Uniform(cs, |s|);
    var acc, skPower := ct[0], sk;
    FirstPhase(cs, s);
    for i := 1 to |ct|
      invariant ring.Fits(acc) && ring.Fits(skPower)
      invariant acc == Residues(Phase(cs[..i], s), ring.moduli)
      invariant skPower == Residues(PPow(s, i), ring.moduli)
    {
      var term := ring.Mul(ct[i], skPower);
      ResMul(cs[i], PPow(s, i), ring.moduli);
      var sum := ring.Add(acc, term.value);
      ResAdd(Phase(cs[..i], s), PMul(cs[i], PPow(s, i)), ring.moduli);
      NextPhase(cs, s, i);
      acc := sum.value;
      var next := ring.Mul(skPower, sk);
      ResMul(PPow(s, i), s, ring.moduli);
      skPower := next.value;
    }
    assert cs[..|ct|] == cs;
    return Ok(acc);
  }

  lemma SoundIsValid(ring: Ring)
    requires ring.Sound()
    ensures ring.Valid()
  {}

  lemma FirstPhase(cs: seq<Poly>, s: Poly)
    requires |s| > 0 && Uniform(cs, |s|) && |cs| > 0
    ensures Phase(cs[..1], s) == cs[0] && PPow(s, 1) == s
  {
    hide PMul;
    MulOneLeft(cs[0]);
    MulOneLeft(s);
    MulComm(POne(|s|), cs[0]);
    assert PPow(s, 1) == PMul(PPow(s, 0), s);
    assert cs[..1][..0] == [];
    AddZero(cs[0]);
  }

  lemma NextPhase(cs: seq<Poly>, s: Poly, i: nat)
    requires |s| > 0 && Uniform(cs, |s|) && i < |cs|
    ensures Phase(cs[..i + 1], s) == PAdd(Phase(cs[..i], s), PMul(cs[i], PPow(s, i)))
  {
    hide PMul;
    assert cs[..i + 1][..i] == cs[..i];
  }

  // ------------------------------------------------------------------ encryption

  /** (m - a s + e, a). */
  method EncryptSecret(ring: Ring, pt: RnsPoly, sk: RnsPoly, a: RnsPoly, e: RnsPoly,
                       ghost m: Poly, ghost s: Poly, ghost A: Poly, ghost E: Poly)
    returns (r: Result<Ciphertext>)
    requires ring.Sound() && |m| == |s| == |A| == |E| == ring.degree
    requires sk == Residues(s, ring.moduli) && a == Residues(A, ring.moduli) && e == Residues(E, ring.moduli)
    requires ring.Fits(pt) ==> pt == Residues(m, ring.moduli)
    ensures r.Ok? <==> ring.Fits(pt)
    ensures r.Ok? ==> |r.value| == 2 && r.value[1] == a
                      && r.value[0] == Residues(PAdd(PSub(m, PMul(A, s)), E), ring.moduli)
    ensures r.Err? ==> r.error == DimensionMismatch
  {
    hide PMul, PMod, Residues, IsPrime, Ring.Sound, TwoTo;
    SoundIsValid(ring);
    if !ring.Fits(pt) {
      return Err(DimensionMismatch);
    }
    var product := ring.Mul(a, sk);
    ResMul(A, s, ring.moduli);
    var masked := ring.Sub(pt, product.value);
    ResSub(m, PMul(A, s), ring.moduli);
    var c0 := ring.Add(masked.value, e);
    ResAdd(PSub(m, PMul(A, s)), E, ring.moduli);
    return Ok([c0.value, a]);
  }

  /** (m + b u + e1, a u + e2) under the public key (b, a). */
  method EncryptPublic(ring: Ring, pt: RnsPoly, b: RnsPoly, a: RnsPoly, u: RnsPoly, e1: RnsPoly, e2: RnsPoly,
                       ghost m: Poly, ghost B: Poly, ghost A: Poly, ghost U: Poly, ghost E1: Poly, ghost E2: Poly)
    returns (r: Result<Ciphertext>)
    requires ring.Sound() && |m| == |B| == |A| == |U| == |E1| == |E2| == ring.degree
    requires a == Residues(A, ring.moduli) && b == Residues(B, ring.moduli) && u == Residues(U, ring.moduli)
    requires e1 == Residues(E1, ring.moduli) && e2 == Residues(E2, ring.moduli)
    requires ring.Fits(pt) ==> pt == Residues(m, ring.moduli)
    ensures r.Ok? <==> ring.Fits(pt)
    ensures r.Ok? ==> |r.value| == 2
                      && r.value[0] == Residues(PAdd(PAdd(m, PMul(B, U)), E1), ring.moduli)
                      && r.value[1] == Residues(PAdd(PMul(A, U), E2), ring.moduli)
    ensures r.Err? ==> r.error == DimensionMismatch
  {
    hide PMul, PMod, Residues, IsPrime, Ring.Sound, TwoTo;
    SoundIsValid(ring);
    if !ring.Fits(pt) {
      return Err(DimensionMismatch);
    }
    var mask0 := ring.Mul(b, u);
    ResMul(B, U, ring.moduli);
    var noisy0 := ring.Add(pt, mask0.value);
    ResAdd(m, PMul(B, U), ring.moduli);
    var c0 := ring.Add(noisy0.value, e1);
    ResAdd(PAdd(m, PMul(B, U)), E1, ring.moduli);
    var mask1 := ring.Mul(a, u);
    ResMul(A, U, ring.moduli);
    var c1 := ring.Add(mask1.value, e2);
    ResAdd(PMul(A, U), E2, ring.moduli);
    return Ok([c0.value, c1.value]);
  }

  /** A public key (b, a) = (-(a s + e), a). */
  method GeneratePublicKey(ring: Ring, sk: RnsPoly, a: RnsPoly, e: RnsPoly, ghost s: Poly, ghost A: Poly, ghost E: Poly)
    returns (b: RnsPoly)
    requires ring.Sound() && |s| == |A| == |E| == ring.degree
    requires sk == Residues(s, ring.moduli) && a == Residues(A, ring.moduli) && e == Residues(E, ring.moduli)
    ensures b == Residues(PNeg(PAdd(PMul(A, s), E)), ring.moduli)
  {
    hide PMul, PMod, Residues, IsPrime, Ring.Sound, TwoTo;
    SoundIsValid(ring);
    var product := ring.Mul(a, sk);
    ResMul(A, s, ring.moduli);
    var noisy := ring.Add(product.value, e);
    ResAdd(PMul(A, s), E, ring.moduli);
    var negated := ring.Neg(noisy.value);
    ResNeg(PAdd(PMul(A, s), E), ring.moduli);
    b := negated.value;
  }

  /** A fresh encryption decrypts to the message plus its error. */
  lemma SecretEncryptionPhase(m: Poly, s: Poly, A: Poly, E: Poly)
    requires |m| == |s| == |A| == |E| > 0
    ensures Phase2(PAdd(PSub(m, PMul(A, s)), E), A, s) == PAdd(m, E)
  {
    hide PMul, PAdd, PSub;
    MaskCancels(m, PMul(A, s), E);
  }

  lemma MaskCancels(m: Poly, x: Poly, e: Poly)
    requires |m| == |x| == |e|
    ensures PAdd(PAdd(PSub(m, x), e), x) == PAdd(m, e)
  {}

  /** A fresh public-key encryption decrypts to m + e1 + e2 s - e u. */
  lemma PublicEncryptionPhase(m: Poly, s: Poly, A: Poly, E: Poly, U: Poly, E1: Poly, E2: Poly)
    requires |m| == |s| == |A| == |E| == |U| == |E1| == |E2| > 0
    ensures Phase2(PAdd(PAdd(m, PMul(PNeg(PAdd(PMul(A, s), E)), U)), E1), PAdd(PMul(A, U), E2), s)
         == PAdd(m, PSub(PAdd(E1, PMul(E2, s)), PMul(E, U)))
  {
    hide PMul, PAdd, PSub, PNeg;
    MulAddLeft(PMul(A, U), E2, s);
    MulAssoc(A, U, s);
    MulComm(U, s);
    MulAssoc(A, s, U);
    MulNegLeft(PAdd(PMul(A, s), E), U);
    MulAddLeft(PMul(A, s), E, U);
    PublicCancels(m, PMul(PMul(A, s), U), PMul(E, U), E1, PMul(E2, s));
  }

  lemma MulNegLeft(a: Poly, b: Poly)
    requires |a| == |b|
    ensures PMul(PNeg(a), b) == PNeg(PMul(a, b))
  {
    NegIsScale(a);
    MulScaleLeft(-1, a, b);
    NegIsScale(PMul(a, b));
  }

  lemma NegIsScale(a: Poly)
    ensures PNeg(a) == PScale(-1, a)
  {}

  lemma PublicCancels(m: Poly, x: Poly, y: Poly, e1: Poly, z: Poly)
    requires |m| == |x| == |y| == |e1| == |z|
    ensures PAdd(PAdd(PAdd(m, PNeg(PAdd(x, y))), e1), PAdd(x, z)) == PAdd(m, PSub(PAdd(e1, z), y))
  {}

  // ------------------------------------------------------------------- tensoring

  /** The k-th component of the product of the first `i` components of `a` with `b`. */
  ghost function TensorAt(n: nat, a: seq<Poly>, b: seq<Poly>, i: nat, k: int): (r: Poly)
    requires Uniform(a, n) && Uniform(b, n) && i <= |a|
    ensures |r| == n
  {
    if i == 0 then PZero(n)
    else if 0 <= k - (i - 1) < |b| then PAdd(TensorAt(n, a, b, i - 1, k), PMul(a[i - 1], b[k - (i - 1)]))
    else TensorAt(n, a, b, i - 1, k)
  }

  ghost function Tensor(n: nat, a: seq<Poly>, b: seq<Poly>): (r: seq<Poly>)
    requires Uniform(a, n) && Uniform(b, n) && |a| > 0 && |b| > 0
    ensures |r| == |a| + |b| - 1 && Uniform(r, n)
    ensures forall k :: 0 <= k < |r| ==> r[k] == TensorAt(n, a, b, |a|, k)
  {
    seq(|a| + |b| - 1, k => TensorAt(n, a, b, |a|, k))
  }

  /** Component `k` after all of rows below `i` and the first `j` terms of row `i`. */
  ghost function TensorPart(n: nat, a: seq<Poly>, b: seq<Poly>, i: nat, j: nat, k: int): (r: Poly)
    requires Uniform(a, n) && Uniform(b, n) && i < |a| && j <= |b|
    ensures |r| == n
  {
    if 0 <= k - i < j then PAdd(TensorAt(n, a, b, i, k), PMul(a[i], b[k - i])) else TensorAt(n, a, b, i, k)
  }

  predicate WellFormed(ring: Ring, ct: Ciphertext) {
    |ct| > 0 && forall i :: 0 <= i < |ct| ==> ring.Fits(ct[i])
  }

  /** Exactly the non-empty lists of components of the ring's shape are well formed. */
  lemma WellFormedIff(ring: Ring, ct: Ciphertext)
    ensures WellFormed(ring, ct) <==>
              |ct| > 0 && forall i :: 0 <= i < |ct| ==> Shape(ct[i], ring.degree, |ring.moduli|)
  {
    forall i | 0 <= i < |ct| ensures ring.Fits(ct[i]) <==> Shape(ct[i], ring.degree, |ring.moduli|) {}
  }

  /** A non-empty list of residues of ring elements is well formed. */
  lemma RepresentedFits(ring: Ring, ct: Ciphertext, cs: seq<Poly>)
    requires |ct| > 0 && Represents(ct, cs, ring.degree, ring.moduli)
    ensures WellFormed(ring, ct)
  {
    hide PMod;
    WellFormedIff(ring, ct);
  }

  /** The unrelinearized product: every pair of components, accumulated by total degree. */
  method Multiply(ring: Ring, lhs: Ciphertext, rhs: Ciphertext, ghost a: seq<Poly>, ghost b: seq<Poly>)
    returns (r: Result<Ciphertext>)
    requires ring.Sound()
    requires WellFormed(ring, lhs) ==> Represents(lhs, a, ring.degree, ring.moduli)
    requires WellFormed(ring, rhs) ==> Represents(rhs, b, ring.degree, ring.moduli)
    ensures r.Ok? <==> |lhs| > 0 && |rhs| > 0
                       && (forall i :: 0 <= i < |lhs| ==> Shape(lhs[i], ring.degree, |ring.moduli|))
                       && (forall i :: 0 <= i < |rhs| ==> Shape(rhs[i], ring.degree, |ring.moduli|))
    ensures r.Ok? ==> |a| > 0 && |b| > 0 && Uniform(a, ring.degree) && Uniform(b, ring.degree)
                      && Represents(r.value, Tensor(ring.degree, a, b), ring.degree, ring.moduli)
    ensures r.Err? ==> r.error == DimensionMismatch
  {
    hide PMul, PMod, Residues, IsPrime, Ring.Sound, TwoTo, TensorAt, Ring.Zero;
    SoundIsValid(ring);
    WellFormedIff(ring, lhs);
    WellFormedIff(ring, rhs);
    if !WellFormed(ring, lhs) || !WellFormed(ring, rhs) {
      return Err(DimensionMismatch);
    }
    var n := ring.degree;
    var degree := |lhs| - 1 + (|rhs| - 1);
    ZeroResidues(ring);
    var out: Ciphertext := seq(degree + 1, _ => ring.Zero());
    for k := 0 to degree + 1
      invariant forall c :: 0 <= c < k ==> out[c] == Residues(TensorAt(n, a, b, 0, c), ring.moduli)
    {
      NoTerms(n, a, b, k);
    }
    for i := 0 to |lhs|
      invariant |out| == degree + 1
      invariant forall k :: 0 <= k <= degree ==> out[k] == Residues(TensorAt(n, a, b, i, k), ring.moduli)
    {
      for j := 0 to |rhs|
        invariant |out| == degree + 1
        invariant forall k :: 0 <= k <= degree ==> out[k] == Residues(TensorPart(n, a, b, i, j, k), ring.moduli)
      {
        var term := ring.Mul(lhs[i], rhs[j]);
        ResMul(a[i], b[j], ring.moduli);
        assert out[i + j] == Residues(TensorPart(n, a, b, i, j, i + j), ring.moduli);
        var sum := ring.Add(out[i + j], term.value);
        ResAdd(TensorPart(n, a, b, i, j, i + j), PMul(a[i], b[j]), ring.moduli);
        assert i + j - i == j;
        out := out[i + j := sum.value];
      }
      forall k | 0 <= k <= degree
        ensures TensorPart(n, a, b, i, |rhs|, k) == TensorAt(n, a, b, i + 1, k)
      {
        RowDone(n, a, b, i, k);
      }
    }
    return Ok(out);
  }

  lemma ZeroResidues(ring: Ring)
    requires ring.Valid()
    ensures ring.Zero() == Residues(PZero(ring.degree), ring.moduli)
  {
    forall j | 0 <= j < |ring.moduli|
      ensures ring.Zero()[j] == PMod(PZero(ring.degree), ring.moduli[j])
    {
      SmallMod(0, ring.moduli[j]);
    }
  }

  lemma NoTerms(n: nat, a: seq<Poly>, b: seq<Poly>, k: int)
    requires Uniform(a, n) && Uniform(b, n)
    ensures TensorAt(n, a, b, 0, k) == PZero(n)
  {}

  lemma RowDone(n: nat, a: seq<Poly>, b: seq<Poly>, i: nat, k: int)
    requires Uniform(a, n) && Uniform(b, n) && i < |a|
    ensures TensorPart(n, a, b, i, |b|, k) == TensorAt(n, a, b, i + 1, k)
  {}

  // ---------------------------------------- decrypting the product multiplies phases

  lemma {:induction false} PowAddPoly(s: Poly, i: nat, j: nat)
    requires |s| > 0
    ensures PPow(s, i + j) == PMul(PPow(s, i), PPow(s, j))
  {
    hide PMul;
    if j == 0 {
      MulOneLeft(PPow(s, i));
      MulComm(POne(|s|), PPow(s, i));
    } else {
      PowAddPoly(s, i, j - 1);
      assert i + j - 1 == i + (j - 1);
      MulAssoc(PPow(s, i), PPow(s, j - 1), s);
    }
  }

  /** Sum over the first `m` components of the first `i` rows, weighted by powers of s. */
  ghost function TensorPhase(n: nat, a: seq<Poly>, b: seq<Poly>, i: nat, m: nat, s: Poly): (r: Poly)
    requires Uniform(a, n) && Uniform(b, n) && i <= |a| && |s| == n > 0
    ensures |r| == n
  {
    if m == 0 then PZero(n)
    else PAdd(TensorPhase(n, a, b, i, m - 1, s), PMul(TensorAt(n, a, b, i, m - 1), PPow(s, m - 1)))
  }

  /** How many terms of a row have total degree below `m`. */
  ghost function TermsBelow(i: nat, m: nat, len: nat): (j: nat)
    ensures j <= len
  {
    if m <= i then 0 else if m - i < len then m - i else len
  }

  /** Row `i` alone: a_i b_j s^(i+j) summed over the terms below degree `m`. */
  lemma {:induction false} TensorRow(n: nat, a: seq<Poly>, b: seq<Poly>, i: nat, m: nat, s: Poly)
    requires Uniform(a, n) && Uniform(b, n) && i < |a| && |s| == n > 0
    ensures TensorPhase(n, a, b, i + 1, m, s)
         == PAdd(TensorPhase(n, a, b, i, m, s), PMul(PMul(a[i], PPow(s, i)), Phase(b[..TermsBelow(i, m, |b|)], s)))
  {
    hide PMul, PAdd, TensorAt, TensorPhase, Phase, PPow;
    if m == 0 {
      EmptyRow(n, a, b, i, s);
    } else {
      TensorRow(n, a, b, i, m - 1, s);
      TensorRowStep(n, a, b, i, m, s);
    }
  }

  lemma EmptyRow(n: nat, a: seq<Poly>, b: seq<Poly>, i: nat, s: Poly)
    requires Uniform(a, n) && Uniform(b, n) && i < |a| && |s| == n > 0
    ensures TensorPhase(n, a, b, i + 1, 0, s)
         == PAdd(TensorPhase(n, a, b, i, 0, s), PMul(PMul(a[i], PPow(s, i)), Phase(b[..0], s)))
  {
    hide PMul, PPow, PAdd;
    EmptyPhase(b, s);
    MulZeroRight(n, PMul(a[i], PPow(s, i)));
    AddZero(PZero(n));
  }

  lemma PhaseNext(n: nat, a: seq<Poly>, b: seq<Poly>, i: nat, m: nat, s: Poly)
    requires Uniform(a, n) && Uniform(b, n) && i <= |a| && |s| == n > 0 && m > 0
    ensures TensorPhase(n, a, b, i, m, s)
         == PAdd(TensorPhase(n, a, b, i, m - 1, s), PMul(TensorAt(n, a, b, i, m - 1), PPow(s, m - 1)))
  {}

  lemma TensorRowStep(n: nat, a: seq<Poly>, b: seq<Poly>, i: nat, m: nat, s: Poly)
    requires Uniform(a, n) && Uniform(b, n) && i < |a| && |s| == n > 0 && m > 0
    requires TensorPhase(n, a, b, i + 1, m - 1, s)
         == PAdd(TensorPhase(n, a, b, i, m - 1, s),
                 PMul(PMul(a[i], PPow(s, i)), Phase(b[..TermsBelow(i, m - 1, |b|)], s)))
    ensures TensorPhase(n, a, b, i + 1, m, s)
         == PAdd(TensorPhase(n, a, b, i, m, s), PMul(PMul(a[i], PPow(s, i)), Phase(b[..TermsBelow(i, m, |b|)], s)))
  {
    hide PMul, PAdd, TensorAt, TensorPhase, Phase, PPow, TermsBelow, Uniform;
    var t, j := TensorAt(n, a, b, i, m - 1), m - 1 - i;
    var x := TensorPhase(n, a, b, i, m - 1, s);
    PhaseNext(n, a, b, i, m, s);
    PhaseNext(n, a, b, i + 1, m, s);
    TensorStep(n, a, b, i, m - 1);
    Terms(i, m, |b|);
    if 0 <= j < |b| {
      assert m - 1 == i + j;
      RowTermAdds(n, a[i], b, x, t, i, j, s) by {
        assert |a[i]| == n by { ElementLength(a, n, i); }
      }
    } else {
      RowEnds(n, a[i], b, x, t, TermsBelow(i, m, |b|), i, m - 1, s) by {
        assert |a[i]| == n by { ElementLength(a, n, i); }
      }
    }
  }

  lemma ElementLength(a: seq<Poly>, n: nat, i: nat)
    requires Uniform(a, n) && i < |a|
    ensures |a[i]| == n
  {}

  lemma RowTermAdds(n: nat, ai: Poly, b: seq<Poly>, x: Poly, t: Poly, i: nat, j: nat, s: Poly)
    requires Uniform(b, n) && |ai| == |x| == |t| == |s| == n > 0 && j < |b|
    ensures PAdd(PAdd(x, PMul(PMul(ai, PPow(s, i)), Phase(b[..j], s))), PMul(PAdd(t, PMul(ai, b[j])), PPow(s, i + j)))
         == PAdd(PAdd(x, PMul(t, PPow(s, i + j))), PMul(PMul(ai, PPow(s, i)), Phase(b[..j + 1], s)))
  {
    hide PMul, PAdd, Phase, PPow;
    var w, p, y := PMul(ai, PPow(s, i)), PPow(s, i + j), PMul(b[j], PPow(s, j));
    RowTerm(n, ai, b, t, i, j, s);
    AddInterchange(x, PMul(w, Phase(b[..j], s)), PMul(t, p), PMul(w, y));
    NextPhase(b, s, j);
    MulAddRight(w, Phase(b[..j], s), y);
  }

  lemma RowEnds(n: nat, ai: Poly, b: seq<Poly>, x: Poly, t: Poly, j: nat, i: nat, k: nat, s: Poly)
    requires Uniform(b, n) && |ai| == |x| == |t| == |s| == n > 0 && j <= |b|
    ensures PAdd(PAdd(x, PMul(PMul(ai, PPow(s, i)), Phase(b[..j], s))), PMul(t, PPow(s, k)))
         == PAdd(PAdd(x, PMul(t, PPow(s, k))), PMul(PMul(ai, PPow(s, i)), Phase(b[..j], s)))
  {
    hide PMul, PAdd, Phase, PPow;
    SwapLast(x, PMul(PMul(ai, PPow(s, i)), Phase(b[..j], s)), PMul(t, PPow(s, k)));
  }

  lemma RowTerm(n: nat, x: Poly, b: seq<Poly>, t: Poly, i: nat, j: nat, s: Poly)
    requires Uniform(b, n) && |x| == |t| == |s| == n > 0 && j < |b|
    ensures PMul(PAdd(t, PMul(x, b[j])), PPow(s, i + j))
         == PAdd(PMul(t, PPow(s, i + j)), PMul(PMul(x, PPow(s, i)), PMul(b[j], PPow(s, j))))
  {
    hide PMul, PAdd, PPow;
    MulAddLeft(t, PMul(x, b[j]), PPow(s, i + j));
    PowAddPoly(s, i, j);
    RegroupRow(x, b[j], PPow(s, i), PPow(s, j));
  }

  lemma SwapLast(x: Poly, y: Poly, z: Poly)
    requires |x| == |y| == |z|
    ensures PAdd(PAdd(x, y), z) == PAdd(PAdd(x, z), y)
  {}

  lemma Terms(i: nat, m: nat, len: nat)
    requires m > 0
    ensures 0 <= m - 1 - i < len ==> TermsBelow(i, m - 1, len) == m - 1 - i && TermsBelow(i, m, len) == m - i
    ensures !(0 <= m - 1 - i < len) ==> TermsBelow(i, m - 1, len) == TermsBelow(i, m, len)
  {}

  lemma TensorStep(n: nat, a: seq<Poly>, b: seq<Poly>, i: nat, k: int)
    requires Uniform(a, n) && Uniform(b, n) && i < |a|
    ensures TensorAt(n, a, b, i + 1, k)
         == if 0 <= k - i < |b| then PAdd(TensorAt(n, a, b, i, k), PMul(a[i], b[k - i])) else TensorAt(n, a, b, i, k)
  {}

  lemma RegroupRow(x: Poly, y: Poly, p: Poly, q: Poly)
    requires |x| == |y| == |p| == |q|
    ensures PMul(PMul(x, y), PMul(p, q)) == PMul(PMul(x, p), PMul(y, q))
  {
    hide PMul;
    MulAssoc(x, y, PMul(p, q));
    MulAssoc(y, p, q);
    MulComm(y, p);
    MulAssoc(p, y, q);
    MulAssoc(x, p, PMul(y, q));
  }

  lemma {:induction false} TensorRows(n: nat, a: seq<Poly>, b: seq<Poly>, i: nat, s: Poly)
    requires Uniform(a, n) && Uniform(b, n) && i <= |a| && |s| == n > 0 && |b| > 0
    ensures TensorPhase(n, a, b, i, |a| + |b| - 1, s) == PMul(Phase(a[..i], s), Phase(b, s))
  {
    hide PMul, TensorAt, TensorPhase, Phase, PPow, PAdd;
    if i == 0 {
      EmptyTensor(n, a, b, |a| + |b| - 1, s);
      EmptyPhase(a, s);
      MulZeroLeft(n, Phase(b, s));
    } else {
      TensorRows(n, a, b, i - 1, s);
      TensorRow(n, a, b, i - 1, |a| + |b| - 1, s);
      assert b[..|b|] == b;
      NextPhase(a, s, i - 1);
      MulAddLeft(Phase(a[..i - 1], s), PMul(a[i - 1], PPow(s, i - 1)), Phase(b, s));
    }
  }

  lemma EmptyPhase(a: seq<Poly>, s: Poly)
    requires |s| > 0 && Uniform(a, |s|)
    ensures Phase(a[..0], s) == PZero(|s|)
  {}

  lemma {:induction false} EmptyTensor(n: nat, a: seq<Poly>, b: seq<Poly>, m: nat, s: Poly)
    requires Uniform(a, n) && Uniform(b, n) && |s| == n > 0
    ensures TensorPhase(n, a, b, 0, m, s) == PZero(n)
  {
    hide PMul, PAdd, PPow;
    if m > 0 {
      EmptyTensor(n, a, b, m - 1, s);
      NoTerms(n, a, b, m - 1);
      MulZeroLeft(n, PPow(s, m - 1));
      AddZero(PZero(n));
    }
  }

  lemma {:induction false} PhaseOfTensor(n: nat, a: seq<Poly>, b: seq<Poly>, m: nat, s: Poly)
    requires Uniform(a, n) && Uniform(b, n) && |a| > 0 && |b| > 0 && |s| == n > 0 && m <= |a| + |b| - 1
    ensures Phase(Tensor(n, a, b)[..m], s) == TensorPhase(n, a, b, |a|, m, s)
  {
    hide PMul, TensorAt, PPow, PAdd, Phase;
    var t := Tensor(n, a, b);
    if m == 0 {
      EmptyPhase(t, s);
    } else {
      PhaseOfTensor(n, a, b, m - 1, s);
      NextPhase(t, s, m - 1);
    }
  }

  /** Decrypting a product of ciphertexts of any degrees gives the product of what they decrypt to. */
  lemma ProductPhase(n: nat, a: seq<Poly>, b: seq<Poly>, s: Poly)
    requires Uniform(a, n) && Uniform(b, n) && |a| > 0 && |b| > 0 && |s| == n > 0
    ensures Phase(Tensor(n, a, b), s) == PMul(Phase(a, s), Phase(b, s))
  {
    hide *;
    var t := Tensor(n, a, b);
    assert t[..|a| + |b| - 1] == t && a[..|a|] == a;
    PhaseOfTensor(n, a, b, |a| + |b| - 1, s);
    TensorRows(n, a, b, |a|, s);
  }
}
