/** The scalar field of the commitment group, and the embedding of small signed integers in it. */
module ScalarField {
  import opened Integers
  import opened NumberTheory
  import opened Results
  import RnsExtension

  /** What the modulus L of the group order must satisfy: prime and above 2^129. */
  ghost predicate GroupOrder(L: int) {
    IsPrime(L) && L > 2 * TWO_128
  }

  // ------------------------------------------------------------------ arithmetic

  function FAdd(a: int, b: int, L: int): (r: int)
    requires L > 0
    ensures 0 <= r < L && Cong(r, a + b, L)
  {
    ModCong(a + b, L);
    DivModId(a + b, L);
    (a + b) % L
  }

  function FMul(a: int, b: int, L: int): (r: int)
    requires L > 0
    ensures 0 <= r < L && Cong(r, a * b, L)
  {
    ModCong(a * b, L);
    DivModId(a * b, L);
    a * b % L
  }

  function FNeg(a: int, L: int): (r: int)
    requires L > 0
    ensures 0 <= r < L && Cong(r, 0 - a, L)
  {
    ModCong(0 - a, L);
    DivModId(0 - a, L);
    (0 - a) % L
  }

  /** The inverse by exponentiation; 0 has none and stays 0. */
  function FInvert(a: int, L: int): (r: int)
    requires L >= 2
    ensures r == Inverse(a, L) && 0 <= r < L
  {
    DivModId(Pow(a, L - 2), L);
    Pow(a, L - 2) % L
  }

  lemma InverseCong(a: int, b: int, L: int)
    requires L >= 2 && Cong(a, b, L)
    ensures Inverse(a, L) == Inverse(b, L)
  {
    CongPow(a, b, L - 2, L);
    ModEq(Pow(a, L - 2), Pow(b, L - 2), L);
  }

  // ------------------------------------------------------------------- embedding

  const I128_MIN: int := -0x8000_0000_0000_0000_0000_0000_0000_0000

  /** The scalar of a signed integer; only the integer without an absolute value is refused. */
  function EmbedCentered(value: RnsExtension.i128, L: int): (r: Result<int>)
    requires L > 2 * TWO_128
    ensures r == if value == -TWO_128 / 2 then Err(InvalidParameters) else Ok(value % L)
  {
    if value == I128_MIN then Err(InvalidParameters)
    else if value >= 0 then
      SmallMod(value, L);
      Ok(value)
    else
      DivModUnique(value, L, -1, L + value);
      Ok(FNeg(0 - value, L))
  }

  /** The canonical integer of a scalar when it fits 128 bits. */
  function SmallMagnitude(scalar: int): (r: Option<u128>)
    requires scalar >= 0
    ensures r == if scalar < TWO_128 then Some(scalar) else None
  {
    if scalar < TWO_128 then Some(scalar) else None
  }

  /** Reads the sign and magnitude off a scalar and its negation. */
  function RecoverCentered(value: int, bound: RnsExtension.i128, L: int): (r: Result<RnsExtension.i128>)
    requires L > 2 * TWO_128 && 0 <= value < L
    ensures r.Err? ==> r.error == InvalidParameters
  {
    if bound < 0 then Err(InvalidParameters) else
      var k := SmallMagnitude(value);
      if k.Some? && k.value <= bound then Ok(k.value) else
        var j := SmallMagnitude(FNeg(value, L));
        if j.Some? && j.value <= bound then Ok(0 - j.value) else Err(InvalidParameters)
  }

  /** Recovery returns k exactly when k is within the bound and embeds as the scalar. */
  lemma RecoverIff(value: int, bound: RnsExtension.i128, L: int, k: RnsExtension.i128)
    requires L > 2 * TWO_128 && 0 <= value < L
    ensures RecoverCentered(value, bound, L) == Ok(k) <==> Abs(k) <= bound && k % L == value
  {
    if k >= 0 {
      SmallMod(k, L);
    } else {
      DivModUnique(k, L, -1, L + k);
    }
    if value == 0 {
      SmallMod(0, L);
    } else {
      DivModUnique(0 - value, L, -1, L - value);
    }
  }

  /** recover after embed is the identity on values within the bound. */
  lemma RecoverEmbed(k: RnsExtension.i128, bound: RnsExtension.i128, L: int)
    requires L > 2 * TWO_128 && Abs(k) <= bound
    ensures EmbedCentered(k, L).Ok? && 0 <= EmbedCentered(k, L).value < L
    ensures RecoverCentered(EmbedCentered(k, L).value, bound, L) == Ok(k)
  {
    DivModId(k, L);
    RecoverIff(k % L, bound, L, k);
  }
}
