/**
  The 32-bit float of Param_Double32_Auto, over exact real numbers: the operations
  of the codec are exact on doubles up to the final truncation of the mantissa.
*/
module FloatCodec {

  // ----- powers of two and frexp ------------------------------------------------------

  /** math.ldexp: f * 2^k. */
  function Ldexp(f: real, k: int): real
    decreases if k >= 0 then k else -k
  {
    if k == 0 then f else if k > 0 then 2.0 * Ldexp(f, k - 1) else Ldexp(f, k + 1) / 2.0
  }

  function Pow2(k: int): real {
    Ldexp(1.0, k)
  }

  lemma LdexpStep(f: real, k: int)
    ensures Ldexp(f, k + 1) == 2.0 * Ldexp(f, k)
  {
  }

  lemma {:induction false} LdexpDouble(f: real, k: int)
    ensures Ldexp(2.0 * f, k) == 2.0 * Ldexp(f, k)
    decreases if k >= 0 then k else -k
  {
    if k > 0 {
      LdexpDouble(f, k - 1);
    } else if k < 0 {
      LdexpDouble(f, k + 1);
    }
  }

  lemma {:induction false} LdexpOrder(f: real, g: real, k: int)
    ensures f < g <==> Ldexp(f, k) < Ldexp(g, k)
    decreases if k >= 0 then k else -k
  {
    if k > 0 {
      LdexpOrder(f, g, k - 1);
    } else if k < 0 {
      LdexpOrder(f, g, k + 1);
    }
  }

  lemma {:induction false} LdexpLinear(f: real, g: real, k: int)
    ensures Ldexp(f - g, k) == Ldexp(f, k) - Ldexp(g, k)
    ensures Ldexp(0.0, k) == 0.0 && Ldexp(-f, k) == -Ldexp(f, k)
    decreases if k >= 0 then k else -k
  {
    if k > 0 {
      LdexpLinear(f, g, k - 1);
    } else if k < 0 {
      LdexpLinear(f, g, k + 1);
    }
  }

  lemma {:induction false} Pow2Order(j: int, k: int)
    requires j <= k
    ensures 0.0 < Pow2(j) <= Pow2(k)
    decreases k - j
  {
    if j < k {
      LdexpStep(1.0, k - 1);
      Pow2Order(j, k - 1);
    } else {
      LdexpOrder(0.0, 1.0, k);
      LdexpLinear(0.0, 0.0, k);
    }
  }

  function Abs(x: real): (a: real)
    ensures a >= 0.0
  {
    if x < 0.0 then -x else x
  }

  predicate Normal(f: real) {
    0.5 <= Abs(f) < 1.0
  }

  /** How far a number is from being normal. */
  function Distance(x: real): nat {
    if x == 0.0 || Normal(x) then 0
    else if Abs(x) >= 1.0 then Abs(x).Floor
    else (1.0 / Abs(x)).Floor
  }

  lemma HalvesFloor(y: real)
    requires y >= 1.0
    ensures 0 <= (y / 2.0).Floor < y.Floor
  {
  }

  lemma HalfIsCloser(x: real)
    requires Abs(x) >= 1.0
    ensures Distance(x / 2.0) < Distance(x)
  {
    HalvesFloor(Abs(x));
  }

  lemma InverseHalves(a: real)
    requires a > 0.0
    ensures 1.0 / (2.0 * a) == (1.0 / a) / 2.0
  {
  }

  lemma InverseExceeds(a: real)
    requires 0.0 < a < 0.5
    ensures 1.0 / a > 2.0
  {
  }

  lemma DoubleIsCloser(x: real)
    requires 0.0 < Abs(x) < 0.5
    ensures Distance(2.0 * x) < Distance(x)
  {
    InverseExceeds(Abs(x));
    InverseHalves(Abs(x));
    HalvesFloor(1.0 / Abs(x));
  }

  /** math.frexp: x == fraction * 2^exponent. */
  function Frexp(x: real): (r: (real, int))
    ensures x == 0.0 ==> r == (0.0, 0)
    ensures x != 0.0 ==> Normal(r.0) && x == Ldexp(r.0, r.1)
    decreases Distance(x)
  {
    if x == 0.0 then (0.0, 0)
    else if Normal(x) then (x, 0)
    else if Abs(x) >= 1.0 then
      HalfIsCloser(x);
      var (f, e) := Frexp(x / 2.0);
      LdexpStep(f, e);
      (f, e + 1)
    else
      DoubleIsCloser(x);
      var (f, e) := Frexp(2.0 * x);
      LdexpStep(f, e - 1);
      (f, e - 1)
  }

  /** The size of a number says its exponent. */
  lemma {:induction false} NormalBounds(f: real, k: int)
    requires Normal(f)
    ensures Pow2(k - 1) <= Abs(Ldexp(f, k)) < Pow2(k)
    ensures Ldexp(f, k) < 0.0 <==> f < 0.0
    ensures Abs(Ldexp(f, k)) == Ldexp(Abs(f), k)
  {
    LdexpLinear(f, 0.0, k);
    LdexpOrder(f, 0.0, k);
    LdexpOrder(Abs(f), 0.5, k);
    LdexpOrder(Abs(f), 1.0, k);
    LdexpDouble(0.5, k);
    LdexpStep(1.0, k - 1);
  }

  /** The fraction and the exponent of a number are unique. */
  lemma {:induction false} FrexpOf(f: real, k: int)
    requires Normal(f)
    ensures Frexp(Ldexp(f, k)) == (f, k)
  {
    var x := Ldexp(f, k);
    NormalBounds(f, k);
    Pow2Order(k - 1, k);
    var (g, e) := Frexp(x);
    NormalBounds(g, e);
    if e < k {
      Pow2Order(e, k - 1);
    } else if k < e {
      Pow2Order(k, e - 1);
    }
    LdexpOrder(f, g, k);
    LdexpOrder(g, f, k);
  }

  // ----- the codec ----------------------------------------------------------------------

  const MANTISSA: nat := 0x80_0000
  const SIGN: nat := 0x8000_0000
  const MANTISSA_REAL: real := 8388608.0

  /** The double nearest to 1.5e-38, as a fraction and a power of two. */
  const TINY_FRACTION: real := 5746858278247083.0 / 9007199254740992.0

  function Tiny(): real {
    Ldexp(TINY_FRACTION, -125)
  }

  predicate IsWord(w: nat) {
    w < 0x1_0000_0000
  }

  function ExponentOf(w: nat): nat {
    w / MANTISSA % 256
  }

  function MantissaOf(w: nat): nat {
    w % MANTISSA
  }

  predicate IsNegative(w: nat) {
    w / SIGN % 2 == 1
  }

  function Fraction(m: nat): real {
    m as real / (MANTISSA_REAL * 2.0) + 0.5
  }

  function Signed(negative: bool, x: real): real {
    if negative then -x else x
  }

  function Deserialise(w: nat): real {
    var e: int, m := ExponentOf(w), MantissaOf(w);
    if e != 0 || m != 0 then Ldexp(Signed(IsNegative(w), Fraction(m)), e - 126) else 0.0
  }

  function FractionBits(f: real): nat
    requires Normal(f)
  {
    var x := (Abs(f) - 0.5) * 2.0 * MANTISSA_REAL;
    assert x >= 0.0;
    x.Floor
  }

  /** The fields of a word, each cut to its width. */
  function Assemble(negative: bool, e: int, m: nat): nat {
    e % 256 * MANTISSA + m % MANTISSA + if negative then SIGN else 0
  }

  function Combine(f: real, e: int): nat
    requires Abs(f) < 1.0
  {
    if Abs(f) >= 0.5 then Assemble(f < 0.0, e + 126, FractionBits(f)) else Assemble(f < 0.0, e, 0)
  }

  function Serialise(x: real): nat {
    var number := if Abs(x) < Tiny() then 0.0 else x;
    var (f, e) := Frexp(number);
    Combine(f, e)
  }

  // ----- fields ----------------------------------------------------------------------------

  lemma AssembledFields(negative: bool, e: int, m: nat)
    ensures var w := Assemble(negative, e, m);
      && IsWord(w) && ExponentOf(w) == e % 256 && MantissaOf(w) == m % MANTISSA && (IsNegative(w) <==> negative)
  {
  }

  lemma FieldsAssemble(w: nat)
    requires IsWord(w)
    ensures Assemble(IsNegative(w), ExponentOf(w), MantissaOf(w)) == w
  {
  }

  // ----- words survive ------------------------------------------------------------------------

  lemma FractionNormal(m: nat, negative: bool)
    requires m < MANTISSA
    ensures Normal(Signed(negative, Fraction(m))) && Abs(Signed(negative, Fraction(m))) == Fraction(m)
    ensures Signed(negative, Fraction(m)) < 0.0 <==> negative
    ensures FractionBits(Signed(negative, Fraction(m))) == m
  {
    assert (Fraction(m) - 0.5) * 2.0 * MANTISSA_REAL == m as real;
  }

  lemma {:induction false} SerialiseNormal(f: real, k: int)
    requires Normal(f) && Abs(Ldexp(f, k)) >= Tiny()
    ensures Serialise(Ldexp(f, k)) == Assemble(f < 0.0, k + 126, FractionBits(f))
  {
    var x := Ldexp(f, k);
    FrexpOf(f, k);
    assert Serialise(x) == Combine(f, k);
  }

  lemma SerialiseTiny(x: real)
    requires Abs(x) < Tiny()
    ensures Serialise(x) == 0
  {
  }

  lemma TinyBounds()
    ensures Pow2(-126) <= Tiny() < Pow2(-125)
  {
    NormalBounds(TINY_FRACTION, -125);
  }

  /** A word survives deserialising and serialising exactly when it is zero or its
      value is not cut off as too small. */
  lemma WordRoundTrip(w: nat)
    requires IsWord(w)
    ensures Serialise(Deserialise(w)) == w <==> w == 0 || Abs(Deserialise(w)) >= Tiny()
  {
    var e: int, m := ExponentOf(w), MantissaOf(w);
    TinyBounds();
    Pow2Order(-126, -126);
    if e == 0 && m == 0 {
      SerialiseTiny(0.0);
    } else if Abs(Deserialise(w)) < Tiny() {
      SerialiseTiny(Deserialise(w));
    } else {
      var f := Signed(IsNegative(w), Fraction(m));
      FractionNormal(m, IsNegative(w));
      SerialiseNormal(f, e - 126);
      FieldsAssemble(w);
    }
  }

  /** So does every word with an exponent field of 2 to 255. */
  lemma LargeWordRoundTrip(w: nat)
    requires IsWord(w) && ExponentOf(w) >= 2
    ensures Serialise(Deserialise(w)) == w
  {
    var e: int, m := ExponentOf(w), MantissaOf(w);
    FractionNormal(m, IsNegative(w));
    NormalBounds(Signed(IsNegative(w), Fraction(m)), e - 126);
    TinyBounds();
    Pow2Order(-125, e - 127);
    WordRoundTrip(w);
  }

  // ----- numbers are truncated ------------------------------------------------------------------

  /** A fraction with its bits behind the 24th cut off. */
  lemma TruncatedFraction(f: real)
    requires Normal(f)
    ensures FractionBits(f) < MANTISSA
    ensures var t := Fraction(FractionBits(f)); t <= Abs(f) < t + 1.0 / 16777216.0
  {
    var x := (Abs(f) - 0.5) * 2.0 * MANTISSA_REAL;
    assert x < MANTISSA_REAL;
    assert x.Floor as real <= x < x.Floor as real + 1.0;
  }

  /** A number that is not too small is f * 2^k, with k at least -125, and below 2^129
      exactly when k is at most 129. */
  lemma {:induction false} Exponents(f: real, k: int)
    requires Normal(f) && Abs(Ldexp(f, k)) >= Tiny()
    ensures k >= -125
    ensures Abs(Ldexp(f, k)) < Pow2(129) <==> k <= 129
  {
    NormalBounds(f, k);
    TinyBounds();
    if k < -125 {
      Pow2Order(k, -126);
    }
    if k <= 129 {
      Pow2Order(k, 129);
    } else {
      Pow2Order(129, k - 1);
    }
  }

  /** What comes back for f * 2^k. */
  lemma ComesBack(f: real, k: int)
    requires Normal(f) && Abs(Ldexp(f, k)) >= Tiny()
    ensures var e, m := (k + 126) % 256, FractionBits(f);
      Deserialise(Serialise(Ldexp(f, k)))
      == if e != 0 || m != 0 then Ldexp(Signed(f < 0.0, Fraction(m)), e - 126) else 0.0
  {
    SerialiseNormal(f, k);
    TruncatedFraction(f);
    AssembledFields(f < 0.0, k + 126, FractionBits(f));
  }

  /** v is x truncated toward zero to 24 significant bits. */
  predicate TruncatedTo(x: real, v: real) {
    && (x < 0.0 <==> v < 0.0) && v != 0.0
    && Abs(v) <= Abs(x)
    && 8388608.0 * (Abs(x) - Abs(v)) < Abs(x)
  }

  /** The fraction that is left of f. */
  function Truncated(f: real): real
    requires Normal(f)
  {
    Signed(f < 0.0, Fraction(FractionBits(f)))
  }

  lemma TruncatedNormal(f: real)
    requires Normal(f)
    ensures var g := Truncated(f);
      Normal(g) && (f < 0.0 <==> g < 0.0) && Abs(g) <= Abs(f) < Abs(g) + 1.0 / 16777216.0
  {
    TruncatedFraction(f);
    FractionNormal(FractionBits(f), f < 0.0);
  }

  lemma {:induction false} ComesBackInRange(f: real, k: int)
    requires Normal(f) && Abs(Ldexp(f, k)) >= Tiny() && k <= 129
    ensures Deserialise(Serialise(Ldexp(f, k))) == Ldexp(Truncated(f), k)
  {
    Exponents(f, k);
    ComesBack(f, k);
    assert (k + 126) % 256 == k + 126;
  }

  lemma {:induction false} InRange(f: real, k: int)
    requires Normal(f) && Abs(Ldexp(f, k)) >= Tiny() && k <= 129
    ensures TruncatedTo(Ldexp(f, k), Deserialise(Serialise(Ldexp(f, k))))
  {
    ComesBackInRange(f, k);
    TruncatedNormal(f);
    TruncatedProduct(f, Truncated(f), k);
  }

  lemma {:induction false} LdexpSmaller(d: real, f: real, k: int)
    requires 0.0 <= 8388608.0 * d < f
    ensures 0.0 <= 8388608.0 * Ldexp(d, k) < Ldexp(f, k)
    decreases if k >= 0 then k else -k
  {
    if k > 0 {
      LdexpSmaller(d, f, k - 1);
    } else if k < 0 {
      LdexpSmaller(d, f, k + 1);
    }
  }

  lemma {:induction false} TruncatedProduct(f: real, g: real, k: int)
    requires Normal(f) && Normal(g) && (f < 0.0 <==> g < 0.0)
    requires Abs(g) <= Abs(f) < Abs(g) + 1.0 / 16777216.0
    ensures TruncatedTo(Ldexp(f, k), Ldexp(g, k))
  {
    NormalBounds(f, k);
    NormalBounds(g, k);
    Pow2Order(k - 1, k);
    LdexpLinear(Abs(f), Abs(g), k);
    LdexpSmaller(Abs(f) - Abs(g), Abs(f), k);
  }

  /** From 2^129 on the exponent wraps: what comes back is less than half as large. */
  lemma {:induction false} OutOfRange(f: real, k: int)
    requires Normal(f) && Abs(Ldexp(f, k)) >= Tiny() && k > 129
    ensures 2.0 * Abs(Deserialise(Serialise(Ldexp(f, k)))) < Abs(Ldexp(f, k))
  {
    var e: int, m := (k + 126) % 256, FractionBits(f);
    ComesBack(f, k);
    NormalBounds(f, k);
    Pow2Order(k - 1, k - 1);
    if e != 0 || m != 0 {
      TruncatedNormal(f);
      BelowHalf(Truncated(f), e - 126, k);
    }
  }

  lemma {:induction false} BelowHalf(g: real, e: int, k: int)
    requires Normal(g) && e + 1 <= k - 1
    ensures 2.0 * Abs(Ldexp(g, e)) < Pow2(k - 1)
  {
    NormalBounds(g, e);
    Pow2Order(e + 1, k - 1);
    LdexpStep(1.0, e);
  }

  /** Serialising truncates toward zero, with a relative error below 2^-23, exactly
      for the numbers below 2^129. */
  lemma TruncatesIff(x: real)
    requires Abs(x) >= Tiny()
    ensures TruncatedTo(x, Deserialise(Serialise(x))) <==> Abs(x) < Pow2(129)
  {
    TinyBounds();
    Pow2Order(-126, -126);
    var (f, k) := Frexp(x);
    Exponents(f, k);
    if k <= 129 {
      InRange(f, k);
    } else {
      OutOfRange(f, k);
    }
  }

  /** The fraction of the least number of 24 significant bits that is not cut off. */
  const LEAST_KEPT: real := 10704358.0 / 16777216.0

  lemma TruncationKept(f: real)
    requires Normal(f)
    ensures Abs(Truncated(f)) >= TINY_FRACTION <==> Abs(f) >= LEAST_KEPT
  {
    TruncatedFraction(f);
    FractionNormal(FractionBits(f), f < 0.0);
    var m := FractionBits(f);
    assert Fraction(m) >= TINY_FRACTION <==> m + MANTISSA >= 10704358;
    assert Abs(f) >= LEAST_KEPT <==> m + MANTISSA >= 10704358;
  }

  /** In the lowest binade it is the fraction that decides; above it nothing is cut off. */
  lemma {:induction false} KeptFrom(f: real, k: int)
    requires Normal(f) && k >= -125
    ensures Abs(Ldexp(Truncated(f), k)) >= Tiny() <==> Abs(Ldexp(f, k)) >= Ldexp(LEAST_KEPT, -125)
  {
    TruncatedNormal(f);
    NormalBounds(f, k);
    NormalBounds(Truncated(f), k);
    if k == -125 {
      TruncationKept(f);
      LdexpOrder(Abs(Truncated(f)), TINY_FRACTION, k);
      LdexpOrder(Abs(f), LEAST_KEPT, k);
    } else {
      TinyBounds();
      NormalBounds(LEAST_KEPT, -125);
      Pow2Order(-125, k - 1);
    }
  }

  /** A second pass changes nothing exactly from the least kept number on. */
  lemma SecondPass(x: real)
    requires Abs(x) >= Tiny() && Abs(x) < Pow2(129)
    ensures var v := Deserialise(Serialise(x));
      Deserialise(Serialise(v)) == v <==> Abs(x) >= Ldexp(LEAST_KEPT, -125)
  {
    TinyBounds();
    Pow2Order(-126, -126);
    var (f, k) := Frexp(x);
    Exponents(f, k);
    ComesBackInRange(f, k);
    KeptFrom(f, k);
    SecondPassKeeps(x);
  }

  lemma SecondPassKeeps(x: real)
    requires Abs(x) >= Tiny() && Abs(x) < Pow2(129)
    ensures var v := Deserialise(Serialise(x));
      Deserialise(Serialise(v)) == v <==> Abs(v) >= Tiny()
  {
    var w := Serialise(x);
    TinyBounds();
    Pow2Order(-126, -126);
    var (f, k) := Frexp(x);
    SerialiseNormal(f, k);
    AssembledFields(f < 0.0, k + 126, FractionBits(f));
    TruncatesIff(x);
    WordRoundTrip(w);
    if Abs(Deserialise(w)) < Tiny() {
      SerialiseTiny(Deserialise(w));
      assert Deserialise(0) == 0.0;
    }
  }

  /** That covers every number from 2^-125 on. */
  lemma SecondPassLarge(x: real)
    requires Pow2(-125) <= Abs(x) < Pow2(129)
    ensures var v := Deserialise(Serialise(x)); Deserialise(Serialise(v)) == v
  {
    TinyBounds();
    NormalBounds(LEAST_KEPT, -125);
    SecondPass(x);
  }

  // ----- numbers that survive -----------------------------------------------------------------------

  lemma {:induction false} LdexpTwice(f: real, j: int, k: int)
    ensures Ldexp(Ldexp(f, j), k) == Ldexp(f, j + k)
    decreases if k >= 0 then k else -k
  {
    if k > 0 {
      LdexpTwice(f, j, k - 1);
      LdexpStep(f, j + k - 1);
    } else if k < 0 {
      LdexpTwice(f, j, k + 1);
      LdexpStep(f, j + k);
    }
  }

  lemma {:induction false} LdexpWhole(m: int, k: nat) returns (n: int)
    ensures Ldexp(m as real, k) == n as real
    decreases k
  {
    if k == 0 {
      n := m;
    } else {
      var half := LdexpWhole(m, k - 1);
      n := 2 * half;
    }
  }

  lemma {:induction false} Ldexp24(f: real)
    ensures Ldexp(f, 24) == 16777216.0 * f
  {
    LdexpTwice(f, 8, 8);
    LdexpTwice(f, 16, 8);
    Ldexp8(f);
    Ldexp8(Ldexp(f, 8));
    Ldexp8(Ldexp(f, 16));
  }

  lemma {:induction false} Ldexp8(f: real)
    ensures Ldexp(f, 8) == 256.0 * f
  {
    assert Ldexp(f, 4) == 16.0 * f by {
      assert Ldexp(f, 2) == 4.0 * f;
    }
    assert Ldexp(f, 6) == 64.0 * f;
  }

  function Scaled(m: int, k: int): real {
    Ldexp(m as real, k)
  }

  /** At most 24 significant bits: an integer below 2^24 times a power of two. */
  ghost predicate Has24Bits(x: real) {
    exists m: int, k: int :: -16777216 < m < 16777216 && x == Scaled(m, k)
  }

  lemma WholeFraction(f: real, n: int)
    requires Normal(f) && 16777216.0 * Abs(f) == n as real
    ensures Truncated(f) == f
  {
    assert (Abs(f) - 0.5) * 2.0 * MANTISSA_REAL == (n - MANTISSA) as real;
    assert FractionBits(f) == n - MANTISSA;
  }

  lemma {:induction false} BitsOfTruncated(f: real, k: int)
    requires Normal(f) && Truncated(f) == f
    ensures Has24Bits(Ldexp(f, k))
  {
    TruncatedFraction(f);
    var m: int := FractionBits(f) + MANTISSA;
    if f < 0.0 {
      m := -m;
    }
    assert m as real == 16777216.0 * f;
    Ldexp24(f);
    LdexpTwice(f, 24, k - 24);
    assert Scaled(m, k - 24) == Ldexp(f, k);
  }

  /** An integer below 2^24 with the fraction of x. */
  lemma IntegerOf(x: real, f: real, k: int) returns (m: int, i: int)
    requires Normal(f) && x == Ldexp(f, k) && Has24Bits(x)
    ensures -16777216 < m < 16777216 && m as real == Ldexp(f, i)
  {
    var j: int;
    m, j :| -16777216 < m < 16777216 && x == Scaled(m, j);
    NormalBounds(f, k);
    Pow2Order(k - 1, k);
    LdexpLinear(0.0, 0.0, j);
    var (g, e) := Frexp(m as real);
    i := e;
    LdexpTwice(g, i, j);
    FrexpOf(f, k);
    FrexpOf(g, i + j);
  }

  lemma {:induction false} TruncatedOfBits(x: real, f: real, k: int)
    requires Normal(f) && x == Ldexp(f, k) && Has24Bits(x)
    ensures Truncated(f) == f
  {
    var m, i := IntegerOf(x, f, k);
    FractionExponent(f, i, m);
    var n := LdexpWhole(if m < 0 then -m else m, 24 - i);
    LdexpTwice(Abs(f), i, 24 - i);
    Ldexp24(Abs(f));
    NormalBounds(f, i);
    WholeFraction(f, n);
  }

  /** The exponent of an integer of 24 bits. */
  lemma {:induction false} FractionExponent(f: real, i: int, m: int)
    requires Normal(f) && m as real == Ldexp(f, i) && -16777216 < m < 16777216
    ensures i <= 24
  {
    NormalBounds(f, i);
    if i > 24 {
      Pow2Order(24, i - 1);
      Ldexp24(1.0);
    }
  }

  /** A number comes back unchanged exactly when it is zero or has at most 24
      significant bits and is neither cut off nor too large. */
  lemma NumberKeptIff(x: real)
    ensures Deserialise(Serialise(x)) == x <==> x == 0.0 || (Tiny() <= Abs(x) < Pow2(129) && Has24Bits(x))
  {
    TinyBounds();
    Pow2Order(-126, -126);
    if Abs(x) < Tiny() {
      SerialiseTiny(x);
      assert Deserialise(0) == 0.0;
    } else {
      var (f, k) := Frexp(x);
      Exponents(f, k);
      if k > 129 {
        OutOfRange(f, k);
      } else {
        ComesBackInRange(f, k);
        LdexpOrder(Truncated(f), f, k);
        LdexpOrder(f, Truncated(f), k);
        if Truncated(f) == f {
          BitsOfTruncated(f, k);
        }
        if Has24Bits(x) {
          TruncatedOfBits(x, f, k);
        }
      }
    }
  }

  // ----- binary32 -----------------------------------------------------------------------------------

  /** The value of a finite word in section 3.4 of IEEE 754-2008. */
  function Binary32(w: nat): real {
    var e, m := ExponentOf(w), MantissaOf(w) as real / MANTISSA_REAL;
    Ldexp(Signed(IsNegative(w), if e == 0 then m else 1.0 + m), if e == 0 then -126 else e - 127)
  }

  /** The codec agrees with binary32 on zeros and normal numbers, and on no
      subnormal one. */
  lemma AgreesWithBinary32(w: nat)
    requires IsWord(w) && ExponentOf(w) < 255
    ensures Deserialise(w) == Binary32(w) <==> ExponentOf(w) != 0 || MantissaOf(w) == 0
  {
    var e: int, m := ExponentOf(w), MantissaOf(w);
    var f := Signed(IsNegative(w), Fraction(m));
    LdexpLinear(0.0, 0.0, -126);
    if e != 0 {
      var g := Signed(IsNegative(w), 1.0 + m as real / MANTISSA_REAL);
      assert g == 2.0 * f;
      LdexpDouble(f, e - 127);
      LdexpStep(f, e - 127);
    } else if m != 0 {
      var g := Signed(IsNegative(w), m as real / MANTISSA_REAL);
      assert g != f;
      LdexpOrder(f, g, -126);
      LdexpOrder(g, f, -126);
    }
  }

  /** 1.0, -2.0 and 3.0, as binary32 writes them. */
  lemma KnownWords()
    ensures Deserialise(0x3F80_0000) == 1.0
    ensures Deserialise(0xC000_0000) == -2.0
    ensures Deserialise(0x4040_0000) == 3.0
  {
    LdexpTwo(0.5);
    LdexpTwo(-0.5);
    LdexpTwo(0.75);
    assert Fraction(0) == 0.5 && Fraction(0x40_0000) == 0.75;
    assert ExponentOf(0x3F80_0000) == 127 && MantissaOf(0x3F80_0000) == 0;
    assert ExponentOf(0xC000_0000) == 128 && MantissaOf(0xC000_0000) == 0 && IsNegative(0xC000_0000);
    assert ExponentOf(0x4040_0000) == 128 && MantissaOf(0x4040_0000) == 0x40_0000;
  }

  lemma {:induction false} LdexpTwo(f: real)
    ensures Ldexp(f, 1) == 2.0 * f && Ldexp(f, 2) == 4.0 * f
  {
    LdexpStep(f, 0);
    LdexpStep(f, 1);
  }
}
