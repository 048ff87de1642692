/** Roots and power tables for the transform modulo one prime. */
module NttTables {
  import opened Integers
  import opened NumberTheory
  import opened Reduce
  import opened Results
  import opened Evaluation
  import opened Transform
  import opened NonResidues
  import Barrett

  predicate SupportsNtt(modulus: u64, degree: nat)
    requires degree > 0
  {
    (modulus - 1) % (2 * degree) == 0
  }

  /** x^order = 1 but x^(order/2) is not 1. */
  ghost predicate HasOrder(x: int, order: nat, q: int)
    requires q > 0
  {
    Pow(x, order) % q == 1 && Pow(x, order / 2) % q != 1
  }

  const SEARCH_LIMIT: int := 10_000

  ghost predicate NoSmallRoot(order: nat, q: int, bound: int)
    requires q > 0
  {
    forall c: nat :: 2 <= c < bound && c < q && c < SEARCH_LIMIT ==> !HasOrder(c, order, q)
  }

  ghost predicate NoSmallPowerRoot(order: nat, cofactor: nat, q: int, bound: int)
    requires q > 0
  {
    forall c: nat :: 2 <= c < bound && c < q && c < SEARCH_LIMIT ==> !HasOrder(Pow(c, cofactor) % q, order, q)
  }

  /** The root the search settles on: the least small candidate of the right order or, when there
      is none, the power of the least candidate whose power has the right order. */
  ghost predicate Found(order: nat, q: int, v: int)
    requires q > 0 && order > 0
  {
    CofactorBound(q - 1, order, (q - 1) / order);
    var cofactor: nat := (q - 1) / order;
    && HasOrder(v, order, q)
    && if NoSmallRoot(order, q, SEARCH_LIMIT)
       then exists c: nat :: SmallPowerRoot(c, cofactor, order, q, v)
       else SmallRoot(v, order, q)
  }

  ghost predicate SmallRoot(v: int, order: nat, q: int)
    requires q > 0
  {
    2 <= v < q && v < SEARCH_LIMIT && HasOrder(v, order, q) && NoSmallRoot(order, q, v)
  }

  ghost predicate SmallPowerRoot(c: nat, cofactor: nat, order: nat, q: int, v: int)
    requires q > 0
  {
    && 2 <= c < q && c < SEARCH_LIMIT && v == Pow(c, cofactor) % q
    && HasOrder(v, order, q) && NoSmallPowerRoot(order, cofactor, q, c)
  }

  /** The search is deterministic: every table for the same degree and modulus has the same root. */
  lemma FoundUnique(order: nat, q: int, v: int, w: int)
    requires q > 0 && order > 0 && Found(order, q, v) && Found(order, q, w)
    ensures v == w
  {
    hide HasOrder;
    CofactorBound(q - 1, order, (q - 1) / order);
    var cofactor: nat := (q - 1) / order;
    if NoSmallRoot(order, q, SEARCH_LIMIT) {
      var c: nat :| SmallPowerRoot(c, cofactor, order, q, v);
      var d: nat :| SmallPowerRoot(d, cofactor, order, q, w);
      LeastPowerRoot(c, d, cofactor, order, q, v, w);
      LeastPowerRoot(d, c, cofactor, order, q, w, v);
    } else {
      LeastRoot(v, w, order, q);
      LeastRoot(w, v, order, q);
    }
  }

  lemma LeastPowerRoot(c: nat, d: nat, cofactor: nat, order: nat, q: int, v: int, w: int)
    requires q > 0 && SmallPowerRoot(c, cofactor, order, q, v) && SmallPowerRoot(d, cofactor, order, q, w)
    ensures c >= d
  {
    hide HasOrder;
  }

  lemma LeastRoot(v: int, w: int, order: nat, q: int)
    requires q > 0 && SmallRoot(v, order, q) && SmallRoot(w, order, q)
    ensures v >= w
  {
    hide HasOrder;
  }

  lemma NothingFound(order: nat, q: int)
    requires q > 0 && order > 0 && NoSmallRoot(order, q, SEARCH_LIMIT)
    requires (CofactorBound(q - 1, order, (q - 1) / order); NoSmallPowerRoot(order, (q - 1) / order, q, SEARCH_LIMIT))
    ensures forall v :: !Found(order, q, v)
  {
    hide HasOrder;
    CofactorBound(q - 1, order, (q - 1) / order);
  }

  /** The first pass: the least candidate of the right order. */
  method SearchSmall(order: u64, modulus: u64) returns (r: Option<u64>)
    requires modulus >= 2 && order > 0
    ensures r.Some? ==> SmallRoot(r.value, order, modulus)
    ensures r.None? ==> NoSmallRoot(order, modulus, SEARCH_LIMIT)
  {
    var limit: u64 := if modulus < SEARCH_LIMIT then modulus else SEARCH_LIMIT;
    var candidate: u64 := 2;
    while candidate < limit
      invariant 2 <= candidate
      invariant NoSmallRoot(order, modulus, candidate)
    {
      var full := PowMod(candidate, order, modulus);
      if full == 1 {
        var half := PowMod(candidate, order / 2, modulus);
        if half != 1 {
          return Some(candidate);
        }
      }
      candidate := candidate + 1;
    }
    return None;
  }

  /** The second pass: powers of candidates by (q - 1) / order. */
  method SearchPowers(order: u64, modulus: u64, cofactor: u64) returns (r: Option<u64>)
    requires modulus >= 2 && order > 0
    ensures r.Some? ==> exists c: nat :: SmallPowerRoot(c, cofactor, order, modulus, r.value)
    ensures r.Some? ==> r.value < modulus && HasOrder(r.value, order, modulus)
    ensures r.None? ==> NoSmallPowerRoot(order, cofactor, modulus, SEARCH_LIMIT)
  {
    var limit: u64 := if modulus < SEARCH_LIMIT then modulus else SEARCH_LIMIT;
    var candidate: u64 := 2;
    while candidate < limit
      invariant 2 <= candidate
      invariant NoSmallPowerRoot(order, cofactor, modulus, candidate)
    {
      var h := PowMod(candidate, cofactor, modulus);
      DivModId(Pow(candidate, cofactor), modulus);
      var full := PowMod(h, order, modulus);
      if full == 1 {
        var half := PowMod(h, order / 2, modulus);
        if half != 1 {
          assert SmallPowerRoot(candidate, cofactor, order, modulus, h);
          return Some(h);
        }
      }
      candidate := candidate + 1;
    }
    return None;
  }

  method PrimitiveRootOfOrder(order: u64, modulus: u64) returns (r: Result<u64>)
    requires modulus >= 2 && order > 0
    ensures r.Ok? ==> r.value < modulus && Found(order, modulus, r.value)
    ensures r.Err? ==> r.error == MissingRoot && forall v :: !Found(order, modulus, v)
  {
    hide HasOrder;
    var small := SearchSmall(order, modulus);
    if small.Some? {
      return Ok(small.value);
    }
    var power := SearchPowers(order, modulus, CofactorWord(modulus, order));
    if power.Some? {
      return Ok(power.value);
    }
    NothingFound(order, modulus);
    return Err(MissingRoot);
  }

  function CofactorWord(modulus: u64, order: u64): (r: u64)
    requires modulus >= 1 && order > 0
    ensures r == (modulus - 1) / order
  {
    DivModId(modulus - 1, order);
    CofactorBound(modulus - 1, order, (modulus - 1) / order);
    (modulus - 1) / order
  }

  lemma CofactorBound(x: int, d: int, q: int)
    requires x >= 0 && d > 0 && q == x / d
    ensures 0 <= q <= x
  {
    DivModId(x, d);
    if q > x {
      MulMono(1, d, q);
    }
    if q < 0 {
      MulMono(q, -1, d);
    }
  }

  // ------------------------------------------------------ when the search succeeds

  /** From `c` one of the two passes gets a root of order 2n: c is a non-residue, or itself of that order. */
  ghost predicate Candidate(c: nat, n: nat, q: int)
    requires q > 2
  {
    && 2 <= c < q && c < 10_000
    && (Pow(c, (q - 1) / 2) % q != 1 || (Pow(c, 2 * n) % q == 1 && Pow(c, n) % q != 1))
  }

  lemma CandidateIs(c: nat, n: nat, q: int)
    requires q > 2
    ensures Candidate(c, n, q) <==>
              2 <= c < q && c < 10_000
              && (!Cong(Pow(c, (q - 1) / 2), 1, q) || (Cong(Pow(c, 2 * n), 1, q) && !Cong(Pow(c, n), 1, q)))
  {
    hide Pow;
    SmallMod(1, q);
    CongIffMod(Pow(c, (q - 1) / 2), 1, q);
    CongIffMod(Pow(c, 2 * n), 1, q);
    CongIffMod(Pow(c, n), 1, q);
  }

  lemma ResidueIffOne(x: int, q: int)
    requires q > 2
    ensures Residue(x, q) <==> Pow(x, (q - 1) / 2) % q == 1
  {
    CongIffMod(Pow(x, (q - 1) / 2), 1, q);
    SmallMod(1, q);
  }

  /** The powers of h = c^k % q for 2 n k = q - 1. */
  lemma CofactorPower(c: nat, n: nat, k: nat, q: int)
    requires IsPrime(q) && q > 2 && 0 < c < q && 2 * n * k == q - 1
    ensures Pow(Pow(c, k) % q, 2 * n) % q == 1
    ensures Pow(Pow(c, k) % q, n) % q == 1 <==> Pow(c, (q - 1) / 2) % q == 1
  {
    hide IsPrime, Pow;
    var h := Pow(c, k) % q;
    ModCong(Pow(c, k), q);
    CongPow(h, Pow(c, k), 2 * n, q);
    PowMul(c, k, 2 * n);
    CongPow(h, Pow(c, k), n, q);
    PowMul(c, k, n);
    assert k * (2 * n) == q - 1 && k * n == (q - 1) / 2 by {
      HalfOrder(n, k, q);
    }
    SmallNotDivisible(q, c);
    Fermat(q, c);
    CongTrans(Pow(h, 2 * n), Pow(c, q - 1), 1, q);
    SmallMod(1, q);
    CongIffMod(Pow(h, 2 * n), 1, q);
    ModEq(Pow(h, n), Pow(c, (q - 1) / 2), q);
  }

  lemma HalfOrder(n: nat, k: nat, q: int)
    requires 2 * n * k == q - 1
    ensures k * (2 * n) == q - 1 && k * n == (q - 1) / 2
  {
    assert 2 * n * k == 2 * (k * n);
  }

  lemma {:induction false} LeastSmallRoot(c: nat, order: nat, q: int) returns (v: nat)
    requires q > 0 && 2 <= c < q && c < SEARCH_LIMIT && HasOrder(c, order, q)
    ensures SmallRoot(v, order, q)
  {
    hide HasOrder;
    if d: nat :| 2 <= d < c && HasOrder(d, order, q) {
      v := LeastSmallRoot(d, order, q);
    } else {
      v := c;
    }
  }

  lemma {:induction false} LeastPower(c: nat, cofactor: nat, order: nat, q: int) returns (d: nat, v: int)
    requires q > 0 && 2 <= c < q && c < SEARCH_LIMIT && HasOrder(Pow(c, cofactor) % q, order, q)
    ensures SmallPowerRoot(d, cofactor, order, q, v)
  {
    hide HasOrder, Pow;
    if e: nat :| 2 <= e < c && HasOrder(Pow(e, cofactor) % q, order, q) {
      d, v := LeastPower(e, cofactor, order, q);
    } else {
      d, v := c, Pow(c, cofactor) % q;
    }
  }

  /** The search is complete: over a prime with 2n dividing q - 1 it finds a root exactly when a candidate exists. */
  lemma FoundIff(n: nat, q: int)
    requires IsPrime(q) && q > 2 && n > 0 && (q - 1) % (2 * n) == 0
    ensures (exists v :: Found(2 * n, q, v)) <==> exists c: nat :: Candidate(c, n, q)
  {
    hide IsPrime, Pow;
    CofactorBound(q - 1, 2 * n, (q - 1) / (2 * n));
    var k: nat := (q - 1) / (2 * n);
    DivModId(q - 1, 2 * n);
    IntMulSwap(2 * n, k);
    assert 2 * n / 2 == n;
    if c: nat :| Candidate(c, n, q) {
      CandidateFound(c, n, k, q);
    }
    if v :| Found(2 * n, q, v) {
      FoundCandidate(v, n, k, q);
    }
  }

  lemma CandidateFound(c: nat, n: nat, k: nat, q: int)
    requires IsPrime(q) && q > 2 && n > 0 && 2 * n * k == q - 1 && k == (q - 1) / (2 * n) && Candidate(c, n, q)
    ensures exists v :: Found(2 * n, q, v)
  {
    hide IsPrime, Pow;
    assert 2 * n / 2 == n;
    if NoSmallRoot(2 * n, q, SEARCH_LIMIT) {
      assert !HasOrder(c, 2 * n, q);
      CofactorPower(c, n, k, q);
      var d, v := LeastPower(c, k, 2 * n, q);
      assert Found(2 * n, q, v);
    } else {
      var d: nat :| 2 <= d < SEARCH_LIMIT && d < q && HasOrder(d, 2 * n, q);
      var v := LeastSmallRoot(d, 2 * n, q);
      assert Found(2 * n, q, v);
    }
  }

  lemma FoundCandidate(v: int, n: nat, k: nat, q: int)
    requires IsPrime(q) && q > 2 && n > 0 && 2 * n * k == q - 1 && k == (q - 1) / (2 * n) && Found(2 * n, q, v)
    ensures exists c: nat :: Candidate(c, n, q)
  {
    hide IsPrime, Pow;
    assert 2 * n / 2 == n;
    if NoSmallRoot(2 * n, q, SEARCH_LIMIT) {
      var c: nat :| SmallPowerRoot(c, k, 2 * n, q, v);
      CofactorPower(c, n, k, q);
      assert Candidate(c, n, q);
    } else {
      assert Candidate(v, n, q);
    }
  }

  /** Below 99 990 000 every prime has a candidate, for every degree. */
  lemma CandidateExists(n: nat, q: int)
    requires IsPrime(q) && 2 < q < 99_990_000 && q % 2 == 1
    ensures exists c: nat :: Candidate(c, n, q)
  {
    hide IsPrime, Pow;
    var c := SmallNonResidue(q);
    ResidueIffOne(c, q);
    assert Candidate(c, n, q);
  }

  method PowerTable(root: u64, count: nat, modulus: u64) returns (powers: seq<u64>)
    requires modulus >= 2
    ensures |powers| == count && forall j :: 0 <= j < count ==> powers[j] == Pow(root, j) % modulus
  {
    powers := [];
    var current: u64 := 1;
    SmallMod(1, modulus);
    for i := 0 to count
      invariant |powers| == i && forall j :: 0 <= j < i ==> powers[j] == Pow(root, j) % modulus
      invariant current == Pow(root, i) % modulus
    {
      powers := powers + [current];
      NextPower(root, i, current, modulus);
      current := MulMod(current, root, modulus);
    }
  }

  lemma NextPower(root: int, i: nat, current: int, q: int)
    requires q > 0 && current == Pow(root, i) % q
    ensures current * root % q == Pow(root, i + 1) % q
  {
    ModCong(Pow(root, i), q);
    CongRefl(root, q);
    CongMul(current, Pow(root, i), root, root, q);
    ModEq(current * root, root * Pow(root, i), q);
  }

  datatype NttTable = NttTable(
    modulus: u64, degree: nat, psi: u64, omega: u64, invPsi: u64, invOmega: u64, invDegree: u64,
    psiPowers: seq<u64>, invPsiPowers: seq<u64>, reducer: Barrett.BarrettReducer)
  {
    ghost predicate Valid() {
      && modulus > 2 && degree > 0 && SupportsNtt(modulus, degree)
      && (exists l: nat :: degree == TwoTo(l))
      && psi < modulus && HasOrder(psi, 2 * degree, modulus) && Found(2 * degree, modulus, psi)
      && omega == psi * psi % modulus
      && invPsi == Inverse(psi, modulus)
      && invOmega == Inverse(omega, modulus)
      && invDegree == Inverse(degree, modulus)
      && |psiPowers| == degree && (forall j :: 0 <= j < degree ==> psiPowers[j] == Pow(psi, j) % modulus)
      && |invPsiPowers| == degree && (forall j :: 0 <= j < degree ==> invPsiPowers[j] == Pow(invPsi, j) % modulus)
      && reducer.Valid() && reducer.modulus == modulus
    }
  }

  lemma OddPrime(n: nat, q: int)
    requires n > 0 && q > 0 && (q - 1) % (2 * n) == 0
    ensures q % 2 == 1
  {
    DivModId(q - 1, 2 * n);
    var k := (q - 1) / (2 * n);
    assert k * (2 * n) == 2 * (k * n);
  }

  /** Modulo a prime the search depends on candidates only, and below 99 990 000 it always succeeds. */
  lemma SearchOutcome(n: nat, q: int)
    requires n > 0 && q > 2
    ensures IsPrime(q) && (q - 1) % (2 * n) == 0 ==>
              ((exists v :: Found(2 * n, q, v)) <==> exists c: nat :: Candidate(c, n, q))
    ensures IsPrime(q) && (q - 1) % (2 * n) == 0 && q < 99_990_000 ==> exists v :: Found(2 * n, q, v)
  {
    hide IsPrime, Found, Candidate;
    if IsPrime(q) && (q - 1) % (2 * n) == 0 {
      FoundIff(n, q);
      OddPrime(n, q);
      if q < 99_990_000 {
        CandidateExists(n, q);
      }
    }
  }

  /** Builds a table, or reports that the modulus does not support the transform. */
  method New(degree: nat, modulus: u64) returns (r: Result<NttTable>)
    requires modulus > 2 && 0 < 2 * degree < TWO_64 && exists l: nat :: degree == TwoTo(l)
    ensures r.Ok? ==> r.value.Valid() && r.value.degree == degree && r.value.modulus == modulus
    ensures r.Ok? <==> (modulus - 1) % (2 * degree) == 0 && exists v :: Found(2 * degree, modulus, v)
    ensures r.Err? ==> r.error == if (modulus - 1) % (2 * degree) == 0 then MissingRoot else InvalidNttModulus
    ensures IsPrime(modulus) ==>
              (r.Ok? <==> (modulus - 1) % (2 * degree) == 0 && exists c: nat :: Candidate(c, degree, modulus))
    ensures IsPrime(modulus) && modulus < 99_990_000 ==> (r.Ok? <==> (modulus - 1) % (2 * degree) == 0)
  {
    hide IsPrime, Candidate;
    SearchOutcome(degree, modulus);
    if !SupportsNtt(modulus, degree) {
      return Err(InvalidNttModulus);
    }
    var q := modulus;
    var psi := PrimitiveRootOfOrder(2 * degree, q);
    if psi.Err? {
      return Err(MissingRoot);
    }
    var omega := MulMod(psi.value, psi.value, q);
    var invPsi := InvMod(psi.value, q);
    var invOmega := InvMod(omega, q);
    var invDegree := InvMod(degree, q);
    var psiPowers := PowerTable(psi.value, degree, q);
    var invPsiPowers := PowerTable(invPsi, degree, q);
    var reducer := Barrett.New(q);
    return Ok(NttTable(q, degree, psi.value, omega, invPsi, invOmega, invDegree,
                       psiPowers, invPsiPowers, reducer.value));
  }

  /** Modulo a prime, the two tests of the root search make psi^N = -1. */
  lemma OrderGivesMinusOne(x: int, n: nat, q: int)
    requires IsPrime(q) && q > 2 && HasOrder(x, 2 * n, q)
    ensures RootOfMinusOne(x, n, q)
  {
    var y := Pow(x, n);
    assert 2 * n / 2 == n;
    PowAdd(x, n, n);
    SmallMod(1, q);
    CongIffMod(y * y, 1, q);
    CongIffMod(y, 1, q);
    assert y * y - 1 == (y - 1) * (y + 1);
    PrimeDivides(q, y - 1, y + 1);
    assert y - -1 == y + 1;
  }

  lemma DegreeBelowModulus(n: nat, q: int)
    requires n > 0 && q > 2 && (q - 1) % (2 * n) == 0
    ensures n < q
  {
    DivModId(q - 1, 2 * n);
    if q - 1 < 2 * n {
      SmallMod(q - 1, 2 * n);
    }
  }

  /** Over a prime modulus a table holds a primitive root with its inverses. */
  lemma TableRoot(table: NttTable)
    requires table.Valid() && IsPrime(table.modulus)
    ensures NttRoot(table.psi, table.invPsi, table.invDegree, table.degree, table.modulus)
    ensures Cong(table.omega, table.psi * table.psi, table.modulus)
    ensures Cong(table.invOmega, table.invPsi * table.invPsi, table.modulus)
  {
    hide NttRoot, HasOrder, Inverse, IsPrime, Cong;
    RootFacts(table.psi, table.omega, table.degree, table.modulus);
  }

  lemma RootFacts(psi: int, omega: int, n: nat, q: int)
    requires IsPrime(q) && q > 2 && n > 0 && (q - 1) % (2 * n) == 0 && exists l: nat :: n == TwoTo(l)
    requires HasOrder(psi, 2 * n, q) && omega == psi * psi % q
    ensures NttRoot(psi, Inverse(psi, q), Inverse(n, q), n, q)
    ensures Cong(omega, psi * psi, q)
    ensures Cong(Inverse(omega, q), Inverse(psi, q) * Inverse(psi, q), q)
  {
    hide Inverse, HasOrder, Pow, Divides, IsPrime;
    OrderGivesMinusOne(psi, n, q);
    RootInvertible(psi, n, q);
    InverseCorrect(psi, q);
    DegreeBelowModulus(n, q);
    SmallNotDivisible(q, n);
    InverseCorrect(n, q);
    ModCong(psi * psi, q);
    SquareInvertible(psi, omega, q);
    InverseCorrect(omega, q);
    InverseOfSquare(psi, Inverse(psi, q), omega, Inverse(omega, q), q);
  }

  lemma RootInvertible(x: int, n: nat, q: int)
    requires IsPrime(q) && n > 0 && RootOfMinusOne(x, n, q)
    ensures !Divides(q, x)
  {
    if Divides(q, x) {
      var k := DividesQuot(q, x);
      CongBy(x, 0, q, k);
      CongPow(x, 0, n, q);
      assert Pow(0, n) == 0 * Pow(0, n - 1);
      CongSym(Pow(x, n), -1, q);
      CongTrans(-1, Pow(x, n), 0, q);
      SmallMultiple(-1, q);
    }
  }

  lemma SquareInvertible(x: int, w: int, q: int)
    requires IsPrime(q) && !Divides(q, x) && Cong(w, x * x, q)
    ensures !Divides(q, w)
  {
    if Divides(q, w) {
      CongSym(w, x * x, q);
      CongAdd(x * x, w, 0, 0, q) by {
        CongRefl(0, q);
      }
      CongTrans(x * x, w, 0, q);
      PrimeDivides(q, x, x);
    }
  }

  lemma InverseOfSquare(x: int, y: int, w: int, v: int, q: int)
    requires IsPrime(q) && !Divides(q, w)
    requires Cong(x * y, 1, q) && Cong(w, x * x, q) && Cong(w * v, 1, q)
    ensures Cong(v, y * y, q)
  {
    CongRefl(y * y, q);
    CongMul(w, x * x, y * y, y * y, q);
    CongMul(x * y, 1, x * y, 1, q);
    MulInterchange(x, x, y, y);
    CongTrans(w * (y * y), x * y * (x * y), 1, q);
    CongSym(w * (y * y), 1, q);
    CongTrans(w * v, 1, w * (y * y), q);
    CancelPrime(q, w, v, y * y);
  }
}
