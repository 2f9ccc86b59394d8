/** float_compare_total of c_bindings.c: a total order on 64-bit patterns, against IEEE 754 values. */
module FloatOrder {
  import opened Words

  const SIGN: nat := 0x8000_0000_0000_0000
  const FRACTION: nat := 0x10_0000_0000_0000
  const INFINITY: nat := 0x7FF0_0000_0000_0000

  // ----- The code -----

  /** Conversion of a 64-bit pattern to int64_t. */
  function ToSigned(w: Word): int { if w < SIGN then w else w - LIMIT }

  /** The pattern with the bits below the sign inverted when the sign is set. */
  function Key(x: Word): Word {
    var spread := ToSigned(x) / SIGN;  // x >> 63 on int64_t: the floor, 0 or -1
    Xor64(x, Shr(spread % LIMIT, 1))
  }

  function CompareTotal(x: Word, y: Word): (r: int) {
    if x == y then 0
    else if ToSigned(Key(x)) < ToSigned(Key(y)) then -1
    else 1
  }

  function IsNegative(x: Word): (r: Word) { Shr(x, 63) }

  // ----- What the bit operations compute -----

  /** Exclusive or with n ones turns the low n bits v into 2^n - 1 - v. */
  lemma {:induction false} XorOnes(high: nat, v: nat, n: nat)
    requires v < Pow2(n)
    ensures Xor(high * Pow2(n) + v, Pow2(n) - 1) == high * Pow2(n) + (Pow2(n) - 1 - v)
  {
    if n == 0 {
      XorZero(high);
    } else {
      var h := high * Pow2(n - 1);
      assert high * Pow2(n) == 2 * h;
      assert (2 * h + v) / 2 == h + v / 2 && (Pow2(n) - 1) / 2 == Pow2(n - 1) - 1;
      XorOnes(high, v / 2, n - 1);
    }
  }

  /** Sign-magnitude reading of a pattern. */
  function Magnitude(x: Word): (m: nat) { if x < SIGN then x else x - SIGN }

  lemma KeyValue(x: Word)
    ensures ToSigned(Key(x)) == if x < SIGN then Magnitude(x) else -1 - Magnitude(x)
  {
    if x < SIGN {
      assert Shr(0, 1) == 0;
      XorZero(x);
    } else {
      LimitIsPow2();
      assert Pow2(63) == SIGN;
      assert Shr(ONE, 1) == SIGN - 1;
      XorOnes(1, Magnitude(x), 63);
    }
  }

  /** Position of a pattern on the line of all patterns. */
  function Rank(x: Word): int { if x < SIGN then x as int else SIGN - 1 - x }

  lemma CompareByRank(x: Word, y: Word)
    ensures CompareTotal(x, y) == if Rank(x) < Rank(y) then -1 else if Rank(x) == Rank(y) then 0 else 1
    ensures Rank(x) == Rank(y) <==> x == y
  {
    KeyValue(x);
    KeyValue(y);
  }

  /** Identical patterns only compare equal; the comparison is antisymmetric and transitive. */
  lemma TotalOrder(x: Word, y: Word, z: Word)
    ensures CompareTotal(x, y) == 0 <==> x == y
    ensures CompareTotal(x, y) == -CompareTotal(y, x)
    ensures CompareTotal(x, y) <= 0 && CompareTotal(y, z) <= 0 ==> CompareTotal(x, z) <= 0
    ensures CompareTotal(x, y) < 0 && CompareTotal(y, z) <= 0 ==> CompareTotal(x, z) < 0
    ensures CompareTotal(x, y) <= 0 && CompareTotal(y, z) < 0 ==> CompareTotal(x, z) < 0
  {
    CompareByRank(x, y);
    CompareByRank(y, x);
    CompareByRank(y, z);
    CompareByRank(x, z);
  }

  // ----- The values the patterns stand for -----

  datatype Value = NaN | MinusInfinity | Finite(scaled: int) | PlusInfinity

  function Exponent(m: nat): nat { m / FRACTION }

  function Fraction(m: nat): (f: nat) { m % FRACTION }

  /** The magnitude of a finite binary64 number as a multiple of 2^-1074. */
  function Scaled(m: nat): (r: int)
    ensures r >= 0
  {
    if Exponent(m) == 0 then Fraction(m) as int else (FRACTION + Fraction(m)) * Pow2(Exponent(m) - 1)
  }

  /** The value of a pattern; a finite one is given as an exact multiple of 2^-1074. */
  function Decode(x: Word): Value {
    var m := Magnitude(x);
    if m > INFINITY then NaN
    else if m == INFINITY then (if x < SIGN then PlusInfinity else MinusInfinity)
    else if x < SIGN then Finite(Scaled(m))
    else Finite(-Scaled(m))
  }

  /**
   * In numbers: up to the smallest normal binade a magnitude is its own multiple of 2^-1074, and from there
   * on each step of the exponent doubles the value.
   */
  lemma ScaledMeaning(m: nat)
    ensures m < 0x20_0000_0000_0000 ==> Scaled(m) == m
    ensures m >= 0x10_0000_0000_0000 ==> Scaled(m + 0x10_0000_0000_0000) == 2 * Scaled(m)
  {
    if m >= FRACTION {
      assert Exponent(m + FRACTION) == Exponent(m) + 1 && Fraction(m + FRACTION) == Fraction(m);
      Doubled(FRACTION + Fraction(m), Pow2(Exponent(m) - 1));
    }
  }

  lemma Doubled(f: nat, p: nat)
    ensures f * (2 * p) == 2 * (f * p)
  {
  }

  /** In numbers: sign, infinities and NaNs of a pattern. */
  lemma DecodeMeaning(x: Word)
    ensures Decode(x) == NaN <==> 0x7FF0_0000_0000_0000 < x < 0x8000_0000_0000_0000 || 0xFFF0_0000_0000_0000 < x
    ensures Decode(x) == PlusInfinity <==> x == 0x7FF0_0000_0000_0000
    ensures Decode(x) == MinusInfinity <==> x == 0xFFF0_0000_0000_0000
    ensures x < 0x7FF0_0000_0000_0000 ==> Decode(x) == Finite(Scaled(x))
    ensures 0x8000_0000_0000_0000 <= x < 0xFFF0_0000_0000_0000 ==>
      Decode(x) == Finite(-Scaled(x - 0x8000_0000_0000_0000))
  {
  }

  predicate ValueLess(v: Value, w: Value) {
    match (v, w)
    case (MinusInfinity, Finite(_)) => true
    case (MinusInfinity, PlusInfinity) => true
    case (Finite(_), PlusInfinity) => true
    case (Finite(a), Finite(b)) => a < b
    case _ => false
  }

  lemma MulMono(a: nat, b: nat, p: nat)
    requires a < b && p > 0
    ensures a * p < b * p
  {
  }

  lemma ScaledBounds(m: nat)
    ensures Scaled(m) < FRACTION * Pow2(Exponent(m))
    ensures Exponent(m) > 0 ==> FRACTION * Pow2(Exponent(m) - 1) <= Scaled(m)
  {
    if Exponent(m) > 0 {
      MulMono(FRACTION + Fraction(m), 2 * FRACTION, Pow2(Exponent(m) - 1));
    }
  }

  lemma ScaledMono(m: nat, n: nat)
    requires m < n
    ensures Scaled(m) < Scaled(n)
  {
    var d, e := Exponent(m), Exponent(n);
    if d == e {
      assert Fraction(m) < Fraction(n);
      if d > 0 { MulMono(FRACTION + Fraction(m), FRACTION + Fraction(n), Pow2(d - 1)); }
    } else {
      ScaledBounds(m);
      ScaledBounds(n);
      if d < e - 1 { Pow2Monotone(d, e - 1); }
    }
  }

  /** On numbers the comparison is the order of the values, with -0 below +0. */
  lemma AgreesWithValues(x: Word, y: Word)
    requires Decode(x) != NaN && Decode(y) != NaN
    ensures CompareTotal(x, y) < 0 <==> ValueLess(Decode(x), Decode(y)) || (x == SIGN && y == 0)
  {
    CompareByRank(x, y);
    var m, n := Magnitude(x), Magnitude(y);
    if m < n { ScaledMono(m, n); }
    if n < m { ScaledMono(n, m); }
    if 0 < m { ScaledMono(0, m); }
    if 0 < n { ScaledMono(0, n); }
  }

  // ----- NaNs, section 5.10 of IEEE 754-2008 -----

  const QUIET: nat := 0x8_0000_0000_0000

  predicate Quiet(x: Word) { Fraction(Magnitude(x)) >= QUIET }

  function Payload(x: Word): nat { Fraction(Magnitude(x)) % QUIET }

  /** Signalling NaNs are nearer to zero than quiet ones, then smaller payloads are. */
  predicate NaNNearer(x: Word, y: Word) {
    (!Quiet(x) && Quiet(y)) || (Quiet(x) == Quiet(y) && Payload(x) < Payload(y))
  }

  /** Negative NaNs lie below all numbers, positive ones above, ordered by kind and payload. */
  lemma OrdersNaNs(x: Word, y: Word)
    requires Decode(x) == NaN
    ensures Decode(y) != NaN ==> CompareTotal(x, y) == if x < SIGN then 1 else -1
    ensures Decode(y) == NaN && x < SIGN <= y ==> CompareTotal(x, y) == 1
    ensures Decode(y) == NaN && x < SIGN && y < SIGN ==> (CompareTotal(x, y) < 0 <==> NaNNearer(x, y))
    ensures Decode(y) == NaN && SIGN <= x && SIGN <= y ==> (CompareTotal(x, y) < 0 <==> NaNNearer(y, x))
  {
    CompareByRank(x, y);
    if Decode(y) == NaN {
      NearerByMagnitude(x, y);
      NearerByMagnitude(y, x);
    }
  }

  /** Among NaNs, kind and then payload are the order of the magnitudes. */
  lemma NearerByMagnitude(x: Word, y: Word)
    requires Decode(x) == NaN && Decode(y) == NaN
    ensures NaNNearer(x, y) <==> Magnitude(x) < Magnitude(y)
  {
    NaNFraction(x);
    NaNFraction(y);
    KindAndPayload(Fraction(Magnitude(x)), Fraction(Magnitude(y)));
  }

  lemma KindAndPayload(f: nat, g: nat)
    requires f < 2 * QUIET && g < 2 * QUIET
    ensures f < g <==> (f < QUIET <= g) || ((f < QUIET <==> g < QUIET) && f % QUIET < g % QUIET)
  {
    assert f % QUIET == if f < QUIET then f else f - QUIET;
    assert g % QUIET == if g < QUIET then g else g - QUIET;
  }

  lemma NaNFraction(x: Word)
    requires Decode(x) == NaN
    ensures Magnitude(x) == INFINITY + Fraction(Magnitude(x))
  {
    assert Exponent(Magnitude(x)) == 0x7FF;
  }

  // ----- float_is_negative -----

  /** The sign test agrees with the order: exactly the patterns below +0 are negative, -0 included. */
  lemma NegativeIsBelowZero(x: Word)
    ensures IsNegative(x) == 1 <==> CompareTotal(x, 0) < 0
    ensures IsNegative(x) == 0 <==> CompareTotal(x, 0) >= 0
  {
    CompareByRank(x, 0);
    LimitIsPow2();
    assert Pow2(63) == SIGN;
    ShrBound(x, 63, 63);
    ShrBound(x, 64, 63);
  }
}
