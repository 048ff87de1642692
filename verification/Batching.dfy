/** BGV parameters and the SIMD batch encoder. */
module Batching {
  import opened Integers
  import opened NumberTheory
  import opened Results
  import opened Negacyclic
  import opened Evaluation
  import opened Transform
  import opened NttTables
  import opened NttTransforms
  import opened Rns
  import opened Crt
  import opened Rings
  import opened Slots
  import Substitution
  import Ntt
  import Sums

  datatype BgvParams = BgvParams(ring: Ring, t: u64) {
    ghost predicate Valid() {
      ring.Valid() && 1 < t && forall j :: 0 <= j < |ring.moduli| ==> t < ring.moduli[j]
    }

    /** 5^shift mod 2N, the shift taken modulo the row width. */
    method RotationElement(shift: nat) returns (element: nat)
      requires ring.Valid()
      ensures element == RowExponent(ring.degree, if ring.degree / 2 == 0 then 0 else shift % (ring.degree / 2))
    {
      hide TwoTo;
      var half := ring.degree / 2;
      DivModId(ring.degree, 2);
      var twoN := 2 * ring.degree;
      if half > 0 {
        DivModId(shift, half);
      }
      var steps := if half == 0 then 0 else shift % half;
      element := 1;
      SmallMod(1, twoN);
      for i := 0 to steps
        invariant element == RowExponent(ring.degree, i)
      {
        NextRowExponent(ring.degree, i);
        DivModId(element * 5, twoN);
        element := element * 5 % twoN;
      }
    }

    function RowSwapElement(): (element: int)
    {
      2 * ring.degree - 1
    }
  }

  lemma NextRowExponent(n: nat, j: nat)
    requires n > 0
    ensures RowExponent(n, j) * 5 % (2 * n) == RowExponent(n, j + 1)
  {
    RowCong(n, j);
    CongRefl(5, 2 * n);
    CongMul(RowExponent(n, j), Pow(5, j), 5, 5, 2 * n);
    IntMulComm(Pow(5, j), 5);
    ModEq(RowExponent(n, j) * 5, Pow(5, j + 1), 2 * n);
  }

  method NewParams(ring: Ring, t: u64) returns (r: Result<BgvParams>)
    requires ring.Valid()
    ensures r.Ok? <==> 1 < t && forall j :: 0 <= j < |ring.moduli| ==> t < ring.moduli[j]
    ensures r.Ok? ==> r.value == BgvParams(ring, t) && r.value.Valid()
    ensures r.Err? ==> r.error == InvalidParameters
  {
    if t <= 1 {
      return Err(InvalidParameters);
    }
    var minQ: u64 := ring.moduli[0];
    for j := 1 to |ring.moduli|
      invariant exists k :: 0 <= k < j && minQ == ring.moduli[k]
      invariant forall k :: 0 <= k < j ==> minQ <= ring.moduli[k]
    {
      if ring.moduli[j] < minQ {
        minQ := ring.moduli[j];
      }
    }
    if t >= minQ {
      return Err(InvalidParameters);
    }
    return Ok(BgvParams(ring, t));
  }

  // ------------------------------------------------------------- signed decoding

  /** Reads a residue as a signed number and reduces it modulo t. */
  function DecodeSignedResidue(coeff: u64, modulus: u64, t: u64): (r: u64)
    requires coeff < modulus && t > 0
    ensures r < t && r == Center(coeff, modulus) % t
  {
    DivModId(modulus, 2);
    if coeff <= modulus / 2 then
      DivModId(coeff, t);
      coeff % t
    else
      DivModId(modulus - coeff, t);
      NegatedRemainder(modulus - coeff, t);
      var magnitude := (modulus - coeff) % t;
      if magnitude == 0 then 0 else t - magnitude
  }

  lemma NegatedRemainder(x: int, t: int)
    requires t > 0
    ensures (0 - x) % t == if x % t == 0 then 0 else t - x % t
  {
    DivModId(x, t);
    if x % t == 0 {
      DivModUnique(0 - x, t, -(x / t), 0) by {
        assert -(x / t) * t == -(x / t * t);
      }
    } else {
      DivModUnique(0 - x, t, -(x / t) - 1, t - x % t) by {
        assert (-(x / t) - 1) * t == -(x / t * t) - t;
      }
    }
  }

  /** Reading back a value of [0, t) works for every value exactly when t - 1 is at most q/2. */
  lemma SignedDecodingExact(q: u64, t: u64)
    requires 1 < t < q && !Divides(t, q)
    ensures (forall c: u64 :: c < t ==> DecodeSignedResidue(c, q, t) == c) <==> 2 * (t - 1) <= q
  {
    if 2 * (t - 1) <= q {
      forall c: u64 | c < t ensures DecodeSignedResidue(c, q, t) == c {
        SmallMod(c, t);
      }
    } else {
      var c: u64 := t - 1;
      LargestMisread(q, t);
    }
  }

  ghost function SignedPoly(c: seq<u64>, q: u64, t: u64): (r: Poly)
    requires t > 0 && Rns.Below(c, q)
    ensures |r| == |c| && forall i :: 0 <= i < |c| ==> r[i] == DecodeSignedResidue(c[i], q, t)
  {
    seq(|c|, i requires 0 <= i < |c| => DecodeSignedResidue(c[i], q, t))
  }

  ghost predicate WithinHalf(v: Poly, q: int) {
    forall i :: 0 <= i < |v| ==> -q < 2 * v[i] < q
  }

  /** A polynomial whose coefficients are within q/2 is decoded modulo t. */
  lemma SignedPolyMeaning(v: Poly, c: seq<u64>, q: u64, t: u64)
    requires t > 0 && q > 0 && c == PMod(v, q) && WithinHalf(v, q)
    ensures SignedPoly(c, q, t) == PMod(v, t)
  {
    forall i | 0 <= i < |v| ensures SignedPoly(c, q, t)[i] == v[i] % t {
      CenterOfSmall(v[i], q);
    }
  }

  // ------------------------------------------------------------- slot exponents

  method SlotExponents(n: nat) returns (exponents: seq<nat>)
    requires n > 0 && exists l: nat :: l > 0 && n == TwoTo(l)
    ensures |exponents| == n && forall slot :: 0 <= slot < n ==> exponents[slot] == SlotExponent(n, slot)
  {
    ghost var l: nat :| l > 0 && n == TwoTo(l);
    RowWidth(n, l);
    hide RowExponent, TwoTo;
    var half, twoN := n / 2, 2 * n;
    var row0: seq<nat> := [];
    var e := 1;
    FirstExponent(n);
    for j := 0 to half
      invariant |row0| == j && e == RowExponent(n, j)
      invariant forall k :: 0 <= k < j ==> row0[k] == RowExponent(n, k)
    {
      row0 := row0 + [e];
      NextRowExponent(n, j);
      DivModId(e * 5, twoN);
      e := e * 5 % twoN;
    }
    var row1: seq<nat> := [];
    for j := 0 to half
      invariant |row1| == j && forall k :: 0 <= k < j ==> row1[k] == 2 * n - RowExponent(n, k)
    {
      NegatedExponent(n, j, l);
      row1 := row1 + [(twoN - row0[j]) % twoN];
    }
    exponents := row0 + row1;
  }

  lemma FirstExponent(n: nat)
    requires n > 0
    ensures RowExponent(n, 0) == 1
  {
    SmallMod(1, 2 * n);
  }

  lemma NegatedExponent(n: nat, j: nat, l: nat)
    requires l > 0 && n == TwoTo(l)
    ensures 0 < 2 * n - RowExponent(n, j)
    ensures (2 * n - RowExponent(n, j)) % (2 * n) == 2 * n - RowExponent(n, j)
  {
    TwoToStep(l - 1);
    RowClass(n, j, TwoTo(l - 1));
    SmallMod(2 * n - RowExponent(n, j), 2 * n);
  }

  // -------------------------------------------------------------------- encoding

  /** The plaintext holds these slot values, zero-padded. */
  ghost predicate HoldsSlots(m: Poly, psi: int, values: seq<int>, t: int) {
    && |values| <= |m|
    && forall slot :: 0 <= slot < |m| ==>
         Cong(SlotValue(m, psi, slot), if slot < |values| then values[slot] else 0, t)
  }

  /** Buffer with the values of the slots before `count` at their positions and zeros elsewhere. */
  ghost predicate Placed(buf: seq<int>, values: seq<int>, t: int, count: nat)
    requires |buf| > 0 && t > 0 && count <= |values| <= |buf|
  {
    forall slot: nat :: slot < |buf| ==> PlacedAt(buf, values, t, count, slot)
  }

  ghost predicate PlacedAt(buf: seq<int>, values: seq<int>, t: int, count: nat, slot: nat)
    requires |buf| > 0 && t > 0 && count <= |values| <= |buf| && slot < |buf|
  {
    var p := SequentialPosition(SlotExponent(|buf|, slot));
    0 <= p < |buf| ==> buf[p] == if slot < count then values[slot] % t else 0
  }

  lemma PlaceStep(before: seq<int>, after: seq<int>, values: seq<int>, t: int, count: nat, l: nat)
    requires l > 0 && |before| == TwoTo(l) && t > 0 && count < |values| <= |before|
    requires Placed(before, values, t, count)
    requires (SlotPosition(|before|, count, l);
              after == before[SequentialPosition(SlotExponent(|before|, count)) := values[count] % t])
    ensures Placed(after, values, t, count + 1)
  {
    hide SlotExponent, SequentialPosition, TwoTo;
    var n, next := |before|, count + 1;
    SlotPosition(n, count, l);
    forall slot: nat | slot < n ensures PlacedAt(after, values, t, next, slot) {
      assert PlacedAt(before, values, t, count, slot);
      SlotPosition(n, slot, l);
      if slot < count {
        ExponentsDistinct(n, slot, count, l);
      } else if count < slot {
        ExponentsDistinct(n, count, slot, l);
      }
    }
  }

  /** The inverse transform turns placed values into slots. */
  lemma PlacedIsHeld(v: Poly, m: Poly, values: seq<int>, table: NttTable, l: nat)
    requires table.Valid() && IsPrime(table.modulus) && l > 0 && table.degree == TwoTo(l)
    requires |v| == |m| == table.degree && |values| <= |v| && table.modulus > 0
    requires Placed(v, values, table.modulus, |values|)
    requires IsInverse(v, m, table.invPsi, table.invDegree, table.modulus)
    ensures HoldsSlots(m, table.psi, values, table.modulus)
  {
    TableRoot(table);
    hide NttTable.Valid, NttRoot, Eval, Pow, SlotExponent, SequentialPosition, SlotValue, Cong, IsPrime, TwoTo;
    var n, t, psi := table.degree, table.modulus, table.psi;
    forall slot | 0 <= slot < n
      ensures Cong(SlotValue(m, psi, slot), if slot < |values| then values[slot] else 0, t)
    {
      SlotPosition(n, slot, l);
      SlotValueAt(m, psi, slot, l);
      var p := SequentialPosition(SlotExponent(n, slot));
      assert PlacedAt(v, values, t, |values|, slot);
      ForwardOfInverse(m, v, psi, table.invPsi, table.invDegree, n, t, p);
      if slot < |values| {
        ModCong(values[slot], t);
        CongTrans(SlotValue(m, psi, slot), v[p], values[slot], t);
      }
    }
  }

  /** The plaintext modulus supports batching at this degree. */
  ghost predicate Batchable(t: u64, n: nat)
    requires n > 0
  {
    t > 1 && t % 2 == 1 && (t - 1) % (2 * n) == 0 && exists v :: Found(2 * n, t, v)
  }

  /** Whether a prime plaintext modulus supports batching: below 99 990 000 this is only the congruence. */
  lemma BatchableIff(t: u64, n: nat)
    requires n > 0 && IsPrime(t) && t > 2
    ensures t < 99_990_000 ==> (Batchable(t, n) <==> t % (2 * n) == 1)
    ensures Batchable(t, n) <==> t % (2 * n) == 1 && exists c: nat :: Candidate(c, n, t)
  {
    hide IsPrime, Found, Candidate, Pow;
    SearchOutcome(n, t);
    DivModId(t, 2 * n);
    DivModId(t - 1, 2 * n);
    if (t - 1) % (2 * n) == 0 {
      OddPrime(n, t);
      DivModUnique(t, 2 * n, (t - 1) / (2 * n), 1);
    } else if t % (2 * n) == 1 {
      DivModUnique(t - 1, 2 * n, t / (2 * n), 0);
    }
  }

  /** Batching works modulo the primes below 99 990 000 that are 1 modulo 2N. */
  lemma BatchableSmall(t: u64, n: nat)
    requires n > 0
    ensures IsPrime(t) && 2 < t < 99_990_000 ==> (Batchable(t, n) <==> t % (2 * n) == 1)
  {
    hide IsPrime, Batchable;
    if IsPrime(t) && 2 < t < 99_990_000 {
      BatchableIff(t, n);
    }
  }

  method EncodeBatched(params: BgvParams, values: seq<u64>) returns (r: Result<RnsPoly>, ghost psi: int, ghost m: Poly)
    requires params.Valid() && params.ring.degree >= 2
    requires Batchable(params.t, params.ring.degree) ==> IsPrime(params.t)
    ensures r.Ok? <==> |values| <= params.ring.degree && Batchable(params.t, params.ring.degree)
    ensures |values| > params.ring.degree ==> r == Err(InvalidSlotCount)
    ensures |values| <= params.ring.degree && r.Err? ==>
              r.error == if params.t % 2 == 0 then InvalidModulus
                         else if (params.t - 1) % (2 * params.ring.degree) != 0 then InvalidNttModulus
                         else MissingRoot
    ensures IsPrime(params.t) && 2 < params.t < 99_990_000 ==>
              (r.Ok? <==> |values| <= params.ring.degree && params.t % (2 * params.ring.degree) == 1)
    ensures r.Ok? ==>
              && Found(2 * params.ring.degree, params.t, psi)
              && |m| == params.ring.degree && Rns.Below(m, params.t) && r.value == Residues(m, params.ring.moduli)
              && HoldsSlots(m, psi, values, params.t)
  {
    hide PMod, IsPrime, Placed, HoldsSlots, IsInverse, HasOrder, NttTables.Found, SupportsNtt, Ntt.AllBelow;
    psi, m := 0, [];
    var n, t := params.ring.degree, params.t;
    BatchableSmall(t, n);
    if |values| > n {
      return Err(InvalidSlotCount), psi, m;
    }
    if t % 2 == 0 {
      return Err(InvalidModulus), psi, m;
    }
    var built := NttTables.New(n, t);
    if built.Err? {
      return Err(built.error), psi, m;
    }
    var table := built.value;
    psi := table.psi;
    ghost var l := SeveralSlots(n);
    var sequential := PlaceValues(values, n, t, l);
    ghost var v: Poly := sequential[..];
    var inverted := NegacyclicInverse(sequential, table);
    m := sequential[..];
    PlacedIsHeld(v, m, values, table, l);
    assert Rns.Below(m, t) by { AllBelowIsBelow(sequential[..], t); }
    var poly := EmbedUnsigned(sequential[..], params.ring.moduli);
    return Ok(poly), psi, m;
  }

  lemma AllBelowIsBelow(a: seq<u64>, q: int)
    requires Ntt.AllBelow(a, q)
    ensures Rns.Below(a, q)
  {}

  lemma SeveralSlots(n: nat) returns (l: nat)
    requires n >= 2 && exists l: nat :: n == TwoTo(l)
    ensures l > 0 && n == TwoTo(l)
  {
    l :| n == TwoTo(l);
  }

  /** Each value at the position of its slot, in a zeroed buffer. */
  method PlaceValues(values: seq<u64>, n: nat, t: u64, ghost l: nat) returns (sequential: array<u64>)
    requires |values| <= n && l > 0 && n == TwoTo(l) && t > 0
    ensures fresh(sequential) && sequential.Length == n && Placed(sequential[..], values, t, |values|)
  {
    hide SlotExponent, SequentialPosition, TwoTo, Placed;
    var exponents := SlotExponents(n);
    sequential := new u64[n](_ => 0);
    NothingPlaced(sequential[..], values, t);
    for slot := 0 to |values|
      invariant Placed(sequential[..], values, t, slot)
    {
      ghost var before := sequential[..];
      SlotPosition(n, slot, l);
      DivModId(values[slot], t);
      sequential[SequentialPosition(exponents[slot])] := values[slot] % t;
      PlaceStep(before, sequential[..], values, t, slot, l);
    }
  }

  lemma NothingPlaced(buf: seq<int>, values: seq<int>, t: int)
    requires |values| <= |buf| && |buf| > 0 && t > 0 && forall i :: 0 <= i < |buf| ==> buf[i] == 0
    ensures Placed(buf, values, t, 0)
  {}

  /** The residues of unsigned coefficients. */
  method EmbedUnsigned(a: seq<u64>, moduli: seq<Modulus>) returns (poly: RnsPoly)
    ensures poly == Residues(a, moduli)
  {
    hide PMod;
    poly := [];
    for j := 0 to |moduli|
      invariant |poly| == j && forall k :: 0 <= k < j ==> poly[k] == PMod(a, moduli[k])
    {
      var q: u64 := moduli[j];
      var row: seq<u64> := [];
      for i := 0 to |a|
        invariant |row| == i && forall c :: 0 <= c < i ==> row[c] == PMod(a, q)[c]
      {
        DivModId(a[i], q);
        row := row + [a[i] % q];
      }
      assert row == PMod(a, q);
      poly := poly + [row];
    }
    assert poly == Residues(a, moduli);
  }

  // -------------------------------------------------------------------- decoding

  lemma DecodedSlot(s: Poly, v: seq<int>, psi: int, t: int, slot: nat, l: nat)
    requires |s| == |v| && l > 0 && |s| == TwoTo(l) && slot < |s| && t > 0
    requires IsForward(s, v, psi, t) && forall i :: 0 <= i < |v| ==> 0 <= v[i] < t
    ensures 0 <= SequentialPosition(SlotExponent(|s|, slot)) < |s|
    ensures v[SequentialPosition(SlotExponent(|s|, slot))] == SlotValue(s, psi, slot) % t
  {
    hide SlotExponent, SequentialPosition, SlotValue, Eval, Pow, Cong, TwoTo;
    SlotPosition(|s|, slot, l);
    SlotValueAt(s, psi, slot, l);
    var p := SequentialPosition(SlotExponent(|s|, slot));
    ModIs(SlotValue(s, psi, slot), v[p], t);
  }

  method DecodeBatched(params: BgvParams, plaintext: RnsPoly) returns (r: Result<seq<u64>>, ghost psi: int)
    requires params.Valid() && params.ring.degree >= 2
    requires Batchable(params.t, params.ring.degree) ==> IsPrime(params.t)
    requires params.ring.Fits(plaintext) ==> Rns.Below(plaintext[0], params.ring.moduli[0])
    ensures r.Ok? <==> params.ring.Fits(plaintext) && Batchable(params.t, params.ring.degree)
    ensures !params.ring.Fits(plaintext) ==> r == Err(DimensionMismatch)
    ensures params.ring.Fits(plaintext) && r.Err? ==>
              r.error == if params.t % 2 == 0 then InvalidModulus
                         else if (params.t - 1) % (2 * params.ring.degree) != 0 then InvalidNttModulus
                         else MissingRoot
    ensures IsPrime(params.t) && 2 < params.t < 99_990_000 ==>
              (r.Ok? <==> params.ring.Fits(plaintext) && params.t % (2 * params.ring.degree) == 1)
    ensures r.Ok? ==>
              && Found(2 * params.ring.degree, params.t, psi)
              && |r.value| == params.ring.degree
              && forall slot :: 0 <= slot < |r.value| ==>
                   r.value[slot] == SlotValue(SignedPoly(plaintext[0], params.ring.moduli[0], params.t), psi,
                                              slot) % params.t
  {
    hide IsPrime, IsForward, HasOrder, NttTables.Found, SupportsNtt, SlotExponent, SlotValue, SequentialPosition, Eval;
    psi := 0;
    if !params.ring.Fits(plaintext) {
      return Err(DimensionMismatch), psi;
    }
    var n, t, q := params.ring.degree, params.t, params.ring.moduli[0];
    BatchableSmall(t, n);
    if t % 2 == 0 {
      return Err(InvalidModulus), psi;
    }
    var built := NttTables.New(n, t);
    if built.Err? {
      return Err(built.error), psi;
    }
    var table := built.value;
    psi := table.psi;
    ghost var l := SeveralSlots(n);
    ghost var s := SignedPoly(plaintext[0], q, t);
    var sequential := new u64[n](_ => 0);
    for i := 0 to n
      invariant forall c :: 0 <= c < i ==> sequential[c] == s[c]
    {
      sequential[i] := DecodeSignedResidue(plaintext[0][i], q, t);
    }
    assert sequential[..] == s;
    var transformed := NegacyclicForward(sequential, table);
    var exponents := SlotExponents(n);
    ghost var v := sequential[..];
    var out: seq<u64> := [];
    for slot := 0 to n
      invariant sequential[..] == v
      invariant |out| == slot && forall k :: 0 <= k < slot ==> out[k] == SlotValue(s, psi, k) % t
    {
      DecodedSlot(s, v, psi, t, slot, l);
      out := out + [sequential[SequentialPosition(exponents[slot])]];
    }
    return Ok(out), psi;
  }

  /** Component 0 of a plaintext, as it is stored. */
  ghost function FirstResidues(m: Poly, q: u64): (c: seq<u64>)
    requires q > 0
    ensures c == PMod(m, q) && Rns.Below(c, q)
  {
    PMod(m, q)
  }

  /** What `DecodeBatched` returns for plaintext `m` is what `EncodeBatched` was given. */
  ghost predicate Recovers(m: Poly, psi: int, values: seq<int>, q: u64, t: u64)
    requires q > 0 && t > 0
  {
    forall slot: nat :: slot < |m| ==>
      SlotValue(SignedPoly(FirstResidues(m, q), q, t), psi, slot) % t == if slot < |values| then values[slot] % t else 0
  }

  /** Every encoding is decoded to its values. */
  ghost predicate AllRecovered(n: nat, psi: int, q: u64, t: u64)
    requires q > 0 && t > 0
  {
    forall m: Poly, values: seq<int> :: |m| == n && Rns.Below(m, t) && HoldsSlots(m, psi, values, t) ==>
      Recovers(m, psi, values, q, t)
  }

  lemma SmallModulusRecovers(m: Poly, psi: int, values: seq<int>, q: u64, t: u64)
    requires |m| > 0 && 1 < t < q && q % 2 == 1 && 2 * (t - 1) <= q
    requires Rns.Below(m, t) && HoldsSlots(m, psi, values, t)
    ensures Recovers(m, psi, values, q, t)
  {
    hide SlotValue, Cong, PMod;
    DivModId(q, 2);
    SignedPolyMeaning(m, FirstResidues(m, q), q, t);
    PModOfBelow(m, t);
    forall slot: nat | slot < |m|
      ensures SlotValue(SignedPoly(FirstResidues(m, q), q, t), psi, slot) % t == if slot < |values|
          then values[slot] % t else 0
    {
      ModEq(SlotValue(m, psi, slot), if slot < |values| then values[slot] else 0, t);
      SmallMod(0, t);
    }
  }

  /** The constant polynomial. */
  ghost function Constant(n: nat, c: int): (m: Poly)
    requires n > 0
    ensures |m| == n
  {
    PZero(n)[0 := c]
  }

  lemma EvalConstant(n: nat, c: int, x: int)
    requires n > 0
    ensures Eval(Constant(n, c), x) == c
  {
    hide Coef;
    var m := Constant(n, c);
    var f := LinTerm(m, Sums.Powers(x));
    forall i | 0 <= i < n && i != 0 ensures f(i) == 0 {
      CoefAt(m, i);
    }
    Sums.SumSingle(n, f, 0);
    CoefAt(m, 0);
    assert Pow(x, 0) == 1;
  }

  /** Every slot of a constant polynomial holds the constant. */
  lemma ConstantSlots(n: nat, c: int, psi: int, slot: nat, l: nat)
    requires l > 0 && n == TwoTo(l) && slot < n
    ensures SlotValue(Constant(n, c), psi, slot) == c
  {
    hide Constant, Eval, SlotExponent, Pow;
    SlotValueAt(Constant(n, c), psi, slot, l);
    EvalConstant(n, c, Pow(psi, SlotExponent(n, slot)));
  }

  lemma ConstantDecodes(n: nat, q: u64, t: u64)
    requires n > 0 && 1 < t < q
    ensures (DivModId(0, 2); SignedPoly(FirstResidues(Constant(n, t - 1), q), q, t)
             == Constant(n, DecodeSignedResidue(t - 1, q, t)))
  {
    SmallMod(t - 1, q);
    SmallMod(0, q);
    SmallMod(0, t);
    DivModId(q, 2);
    var c := FirstResidues(Constant(n, t - 1), q);
    forall i | 0 <= i < n
      ensures SignedPoly(c, q, t)[i] == Constant(n, DecodeSignedResidue(t - 1, q, t))[i]
    {
      assert c[i] == Constant(n, t - 1)[i] % q;
    }
  }

  /** When t - 1 is above q_0 / 2 the constant plaintext t - 1 is misread in every slot. */
  lemma LargeModulusLoses(n: nat, psi: int, q: u64, t: u64, l: nat)
    requires l > 0 && n == TwoTo(l) && 1 < t < q && !Divides(t, q) && 2 * (t - 1) > q
    ensures !AllRecovered(n, psi, q, t)
  {
    hide Constant, SlotValue, Cong, PMod, DecodeSignedResidue, SignedPoly, TwoTo;
    var m, values := Constant(n, t - 1), seq(n, _ => t - 1);
    forall slot | 0 <= slot < n ensures Cong(SlotValue(m, psi, slot), values[slot], t) {
      ConstantSlots(n, t - 1, psi, slot, l);
      CongRefl(t - 1, t);
    }
    assert HoldsSlots(m, psi, values, t);
    ConstantBelow(n, t);
    ConstantDecodes(n, q, t);
    LargestMisread(q, t);
    ConstantSlots(n, DecodeSignedResidue(t - 1, q, t), psi, 0, l);
    SmallMod(DecodeSignedResidue(t - 1, q, t), t);
    SmallMod(t - 1, t);
    assert SlotValue(SignedPoly(FirstResidues(m, q), q, t), psi, 0) % t != values[0] % t;
    assert !Recovers(m, psi, values, q, t);
  }

  lemma ConstantBelow(n: nat, t: int)
    requires n > 0 && t > 1
    ensures Rns.Below(Constant(n, t - 1), t)
  {}

  lemma LargestMisread(q: u64, t: u64)
    requires 1 < t < q && !Divides(t, q) && 2 * (t - 1) > q
    ensures DecodeSignedResidue(t - 1, q, t) != t - 1
  {
    var c: u64 := t - 1;
    if DecodeSignedResidue(c, q, t) == c {
      ModCong(c - q, t);
      var k := CongQuot(c, c - q, t);
      DividesBy(t, q, k);
    }
  }

  /** decode_batched inverts encode_batched on all inputs exactly when t - 1 is at most q_0 / 2. */
  lemma BatchRoundTrip(n: nat, psi: int, q: u64, t: u64, l: nat)
    requires l > 0 && n == TwoTo(l) && 1 < t < q && q % 2 == 1 && !Divides(t, q)
    ensures AllRecovered(n, psi, q, t) <==> 2 * (t - 1) <= q
  {
    if 2 * (t - 1) <= q {
      forall m: Poly, values: seq<int> | |m| == n && Rns.Below(m, t) && HoldsSlots(m, psi, values, t)
        ensures Recovers(m, psi, values, q, t)
      {
        SmallModulusRecovers(m, psi, values, q, t);
      }
    } else {
      LargeModulusLoses(n, psi, q, t, l);
    }
  }

  lemma PModOfBelow(m: Poly, t: int)
    requires t > 0 && Rns.Below(m, t)
    ensures PMod(m, t) == m
  {
    forall i | 0 <= i < |m| ensures PMod(m, t)[i] == m[i] {
      SmallMod(m[i], t);
    }
  }

  /** Decoding a small plaintext v gives, in every slot, the value of v modulo t. */
  lemma DecodedValue(v: Poly, c: seq<u64>, psi: int, slot: nat, q: u64, t: u64, l: nat)
    requires l > 0 && |v| == TwoTo(l) && slot < |v| && t > 0 && q > 0 && c == PMod(v, q)
    requires WithinHalf(v, q)
    ensures SlotValue(SignedPoly(c, q, t), psi, slot) % t == SlotValue(v, psi, slot) % t
  {
    hide SlotValue, Eval, Pow, PMod, SlotExponent, Cong, TwoTo;
    SignedPolyMeaning(v, c, q, t);
    PModCong(v, t);
    SlotCong(PMod(v, t), v, psi, slot, t, l);
    ModEq(SlotValue(PMod(v, t), psi, slot), SlotValue(v, psi, slot), t);
  }

  lemma SlotCong(a: Poly, b: Poly, psi: int, slot: nat, t: int, l: nat)
    requires PCong(a, b, t) && l > 0 && |a| == TwoTo(l) && slot < |a|
    ensures Cong(SlotValue(a, psi, slot), SlotValue(b, psi, slot), t)
  {
    hide Eval, Pow, SlotExponent, Cong, TwoTo;
    SlotValueAt(a, psi, slot, l);
    SlotValueAt(b, psi, slot, l);
    EvalPolyCong(a, b, Pow(psi, SlotExponent(|a|, slot)), t);
  }

  // ------------------------------------------------------------- moving the slots

  /** The automorphism of the row-swap element swaps the two rows of slots. */
  lemma RowSwapSlots(params: BgvParams, m: Poly, psi: int, slot: nat)
    requires params.Valid() && params.ring.degree >= 2 && |m| == params.ring.degree && slot < |m|
    requires RootOfMinusOne(psi, |m|, params.t)
    ensures |m| % 2 == 0
    ensures Cong(SlotValue(Substitution.PSubst(m, params.RowSwapElement()), psi, slot),
                 SlotValue(m, psi, if slot < |m| / 2 then slot + |m| / 2 else slot - |m| / 2), params.t)
  {
    hide SlotValue, Substitution.PSubst, RootOfMinusOne, TwoTo;
    var l := SeveralSlots(params.ring.degree);
    TwoToStep(l - 1);
    RowSwapMovesSlots(m, psi, slot, params.t, l);
  }

  /** The automorphism of a rotation element moves every row of slots left by the shift. */
  lemma RotatedSlots(params: BgvParams, element: nat, shift: nat, m: Poly, psi: int, slot: nat)
    requires params.Valid() && params.ring.degree >= 2 && |m| == params.ring.degree && slot < |m|
    requires RootOfMinusOne(psi, |m|, params.t)
    requires element == RowExponent(|m|, shift % (|m| / 2))
    ensures var h := |m| / 2;
      var from := if slot < h then (slot + shift) % h else h + (slot - h + shift) % h;
      0 <= from < |m| && Cong(SlotValue(Substitution.PSubst(m, element), psi, slot), SlotValue(m, psi, from), params.t)
  {
    hide SlotValue, Substitution.PSubst, RootOfMinusOne, TwoTo, RowExponent, Cong, RotatedSlot, BgvParams.Valid;
    var l := SlotDegree(params);
    RotationMovesSlots(m, psi, slot, shift % (|m| / 2), params.t, l);
    RotationFrom(|m|, slot, shift);
  }

  lemma SlotDegree(params: BgvParams) returns (l: nat)
    requires params.Valid() && params.ring.degree >= 2
    ensures l > 0 && params.ring.degree == TwoTo(l)
  {
    hide TwoTo;
    l := SeveralSlots(params.ring.degree);
  }

  lemma RotationFrom(n: nat, slot: nat, shift: nat)
    requires slot < n && n / 2 > 0
    ensures var h := n / 2;
      shift % h >= 0
      && RotatedSlot(n, slot, shift % h) == if slot < h then (slot + shift) % h else h + (slot - h + shift) % h
  {
    var h := n / 2;
    DivModId(shift, h);
    SameRotation(if slot < h then slot else slot - h, shift, h);
  }

  lemma SameRotation(j: int, s: int, h: int)
    requires h > 0
    ensures (j + s % h) % h == (j + s) % h && 0 <= (j + s) % h < h
  {
    ModCong(s, h);
    CongRefl(j, h);
    CongAdd(j, j, s % h, s, h);
    ModEq(j + s % h, j + s, h);
    DivModId(j + s, h);
  }

  // ------------------------------------------------------- coefficient encoding

  /** Coefficient packing: values modulo t, zero-padded. */
  method EncodeU64(params: BgvParams, values: seq<u64>) returns (r: Result<RnsPoly>)
    requires params.Valid()
    ensures r.Ok? <==> |values| <= params.ring.degree
    ensures r.Err? ==> r.error == InvalidSlotCount
    ensures r.Ok? ==> r.value == Residues(PaddedValues(values, params.ring.degree, params.t), params.ring.moduli)
  {
    hide PMod;
    if |values| > params.ring.degree {
      return Err(InvalidSlotCount);
    }
    var padded: seq<u64> := [];
    for slot := 0 to params.ring.degree
      invariant |padded| == slot
      invariant forall k :: 0 <= k < slot ==> padded[k] == PaddedValues(values, params.ring.degree, params.t)[k]
    {
      if slot < |values| {
        DivModId(values[slot], params.t);
      }
      padded := padded + [if slot < |values| then values[slot] % params.t else 0];
    }
    assert padded == PaddedValues(values, params.ring.degree, params.t);
    var poly := EmbedUnsigned(padded, params.ring.moduli);
    return Ok(poly);
  }

  ghost function PaddedValues(values: seq<int>, n: nat, t: int): (r: Poly)
    requires t > 0 && |values| <= n
    ensures |r| == n && Rns.Below(r, t)
    ensures forall i :: 0 <= i < n ==> r[i] == if i < |values| then values[i] % t else 0
  {
    forall i | 0 <= i < |values| ensures 0 <= values[i] % t < t {
      DivModId(values[i], t);
    }
    seq(n, i requires 0 <= i < n => if i < |values| then values[i] % t else 0)
  }

  method DecodeU64(params: BgvParams, plaintext: RnsPoly) returns (r: Result<seq<u64>>)
    requires params.Valid()
    requires params.ring.Fits(plaintext) ==> Rns.Below(plaintext[0], params.ring.moduli[0])
    ensures r.Ok? <==> params.ring.Fits(plaintext)
    ensures r.Err? ==> r.error == DimensionMismatch
    ensures r.Ok? ==> r.value == SignedPoly(plaintext[0], params.ring.moduli[0], params.t)
  {
    if !params.ring.Fits(plaintext) {
      return Err(DimensionMismatch);
    }
    var q, t := params.ring.moduli[0], params.t;
    var out: seq<u64> := [];
    for i := 0 to |plaintext[0]|
      invariant |out| == i && forall k :: 0 <= k < i ==> out[k] == SignedPoly(plaintext[0], q, t)[k]
    {
      out := out + [DecodeSignedResidue(plaintext[0][i], q, t)];
    }
    assert out == SignedPoly(plaintext[0], q, t);
    return Ok(out);
  }
}
