/**
 * Common prefixes of addresses: the masks of e_acsl_bittree.h and the table-driven search for the
 * longest mask on which two addresses agree.
 */
module Prefixes {
  import opened Words

  /** A number of low bits that a mask drops. */
  type Dropped = d: nat | d <= 64

  /** The mask that drops the low d bits: entry 64 - d of the table of masks. */
  function Mask(d: Dropped): (r: Word)
    ensures r == LIMIT - Pow2(d)
  {
    LimitIsPow2();
    if d < 64 then Pow2Monotone(d, 64); LIMIT - Pow2(d) else 0
  }

  lemma MaskOrder(d: Dropped, e: Dropped)
    ensures Mask(d) > Mask(e) <==> d < e
  {
    if d < e { Pow2Monotone(d, e); } else if e < d { Pow2Monotone(e, d); }
  }

  /** The fewest low bits to drop for a and b to agree. */
  function Differing(a: Word, b: Word): nat {
    if a == b then 0 else 1 + Differing(a / 2, b / 2)
  }

  // ----- Dropping bits -----

  lemma {:induction false} ShrHalf(w: Word, k: nat)
    ensures Shr(w / 2, k) == Shr(w, k + 1)
    decreases k
  {
    if k != 0 { ShrHalf(w, k - 1); }
  }

  /** What agrees, or is in order, with k bits dropped stays so when more are dropped. */
  lemma {:induction false} ShrMore(x: Word, y: Word, k: nat, m: nat)
    requires k <= m
    ensures Shr(x, k) == Shr(y, k) ==> Shr(x, m) == Shr(y, m)
    ensures Shr(x, k) <= Shr(y, k) ==> Shr(x, m) <= Shr(y, m)
    decreases m
  {
    if k < m { ShrMore(x, y, k, m - 1); }
  }

  /** Addresses are in the order of their prefixes. */
  lemma ShrOrder(x: Word, y: Word, k: nat)
    ensures Shr(x, k) < Shr(y, k) ==> x < y
    ensures x <= y ==> Shr(x, k) <= Shr(y, k)
  {
    ShrMore(y, x, 0, k);
    ShrMore(x, y, 0, k);
  }

  lemma {:induction false} DifferingLeast(a: Word, b: Word)
    ensures Shr(a, Differing(a, b)) == Shr(b, Differing(a, b))
    ensures Differing(a, b) > 0 ==> Shr(a, Differing(a, b) - 1) != Shr(b, Differing(a, b) - 1)
    decreases a + b
  {
    if a != b {
      var d := Differing(a / 2, b / 2);
      DifferingLeast(a / 2, b / 2);
      ShrHalf(a, d);
      ShrHalf(b, d);
      if d > 0 {
        ShrHalf(a, d - 1);
        ShrHalf(b, d - 1);
      }
    }
  }

  /** a and b agree with d bits dropped exactly when d is at least their difference. */
  lemma DifferingExact(a: Word, b: Word, d: nat)
    ensures Shr(a, d) == Shr(b, d) <==> Differing(a, b) <= d
  {
    DifferingLeast(a, b);
    if Differing(a, b) <= d { ShrMore(a, b, Differing(a, b), d); }
    else { ShrMore(a, b, d, Differing(a, b) - 1); }
  }

  /** `mask`: the bits dropped by the longest mask on which a and b agree. */
  function Common(a: Word, b: Word): Dropped {
    LimitIsPow2();
    ShrBound(a, 64, 64);
    ShrBound(b, 64, 64);
    DifferingExact(a, b, 64);
    Differing(a, b)
  }

  lemma CommonExact(a: Word, b: Word, d: nat)
    ensures Shr(a, d) == Shr(b, d) <==> Common(a, b) <= d
  {
    DifferingExact(a, b, d);
  }

  lemma CommonIs(a: Word, b: Word, d: nat)
    requires 0 < d && Shr(a, d) == Shr(b, d) && Shr(a, d - 1) != Shr(b, d - 1)
    ensures Common(a, b) == d
  {
    CommonExact(a, b, d);
    CommonExact(a, b, d - 1);
  }

  /** At the first difference the lower address has a 0 and the higher one a 1. */
  lemma FirstDifference(x: Word, y: Word, d: nat)
    requires 0 < d && Shr(x, d) == Shr(y, d) && Shr(x, d - 1) != Shr(y, d - 1)
    ensures x != y
    ensures x < y ==> Shr(x, d - 1) == 2 * Shr(x, d) && Shr(y, d - 1) == 2 * Shr(x, d) + 1
    ensures y < x ==> Shr(y, d - 1) == 2 * Shr(x, d) && Shr(x, d - 1) == 2 * Shr(x, d) + 1
  {
    ShrOrder(x, y, d - 1);
    ShrOrder(y, x, d - 1);
  }

  /** Addresses with the same prefix are as similar to any address outside of it. */
  lemma SameAbove(x: Word, y: Word, p: Word, d: nat)
    requires Shr(x, d) == Shr(y, d) != Shr(p, d)
    ensures Common(x, p) == Common(y, p)
  {
    var e := Common(x, p);
    CommonExact(x, p, d);
    CommonExact(x, p, e);
    CommonExact(x, p, e - 1);
    ShrMore(x, y, d, e - 1);
    ShrMore(x, y, d, e);
    CommonIs(y, p, e);
  }

  /** Of two addresses that first differ below bit d, p is more similar to the one on its side. */
  lemma SideOf(x: Word, y: Word, p: Word, d: nat, k: nat)
    requires 0 < d && Shr(x, d - 1) == 2 * k && Shr(y, d - 1) == 2 * k + 1
    ensures Mask(Common(x, p)) > Mask(Common(y, p)) <==> Shr(p, d - 1) == 2 * k
    ensures Mask(Common(y, p)) > Mask(Common(x, p)) <==> Shr(p, d - 1) == 2 * k + 1
  {
    CommonExact(x, p, d - 1);
    CommonExact(y, p, d - 1);
    MaskOrder(Common(x, p), Common(y, p));
    MaskOrder(Common(y, p), Common(x, p));
    if Shr(p, d) != k { SameAbove(x, y, p, d); }
  }

  // ----- Masked addresses -----

  /** addr & mask. */
  function Prefix(x: Word, d: Dropped): Word { And64(x, Mask(d)) }

  lemma {:induction false} AndOnes(x: nat, n: nat)
    requires x < Pow2(n)
    ensures And(x, Pow2(n) - 1) == x
    decreases n
  {
    if n != 0 {
      AndOnes(x / 2, n - 1);
      assert (Pow2(n) - 1) / 2 == Pow2(n - 1) - 1;
    }
  }

  /** x with its low d bits cleared. */
  function Cleared(x: Word, d: nat): (r: Word)
    ensures r <= x
  {
    if d == 0 then x else 2 * Cleared(x / 2, d - 1)
  }

  lemma {:induction false} AndHigh(x: Word, n: nat, d: nat)
    requires d <= n && x < Pow2(n)
    ensures Pow2(d) <= Pow2(n) && And(x, Pow2(n) - Pow2(d)) == Cleared(x, d)
    decreases d
  {
    if d == 0 {
      AndOnes(x, n);
    } else {
      AndHigh(x / 2, n - 1, d - 1);
      assert (Pow2(n) - Pow2(d)) / 2 == Pow2(n - 1) - Pow2(d - 1);
    }
  }

  lemma {:induction false} ClearedIs(x: Word, y: Word, d: nat)
    ensures Shr(Cleared(x, d), d) == Shr(x, d)
    ensures Shr(x, d) == Shr(y, d) ==> Cleared(x, d) == Cleared(y, d)
    decreases d
  {
    if d != 0 {
      ClearedIs(x / 2, y / 2, d - 1);
      ShrHalf(x, d - 1);
      ShrHalf(y, d - 1);
      ShrHalf(Cleared(x, d), d - 1);
    }
  }

  /** Masked addresses compare as the addresses do without their low bits. */
  lemma PrefixOrder(x: Word, y: Word, d: Dropped)
    ensures Prefix(x, d) <= Prefix(y, d) <==> Shr(x, d) <= Shr(y, d)
    ensures Prefix(x, d) == Prefix(y, d) <==> Shr(x, d) == Shr(y, d)
  {
    LimitIsPow2();
    AndHigh(x, 64, d);
    AndHigh(y, 64, d);
    ClearedIs(x, y, d);
    ClearedIs(y, x, d);
    ShrOrder(Cleared(x, d), Cleared(y, d), d);
    ShrOrder(Cleared(y, d), Cleared(x, d), d);
  }

  /** Masking low bits leaves the higher ones. */
  lemma PrefixShr(x: Word, d: Dropped, e: nat)
    requires d <= e
    ensures Shr(Prefix(x, d), e) == Shr(x, e)
  {
    LimitIsPow2();
    AndHigh(x, 64, d);
    ClearedIs(x, x, d);
    ShrMore(Prefix(x, d), x, d, e);
  }

  /** The high part of a conjunction is that of both where they agree. */
  lemma {:induction false} AndShr(x: Word, y: Word, e: nat)
    requires Shr(x, e) == Shr(y, e)
    ensures Shr(And64(x, y), e) == Shr(x, e)
    decreases e
  {
    if e == 0 {
      AndSelf(x);
    } else {
      ShrHalf(x, e - 1);
      ShrHalf(y, e - 1);
      ShrHalf(And64(x, y), e - 1);
      AndShr(x / 2, y / 2, e - 1);
      assert And(x, y) / 2 == And(x / 2, y / 2);
    }
  }

  lemma {:induction false} AndSelf(x: nat)
    ensures And(x, x) == x
  {
    if x != 0 { AndSelf(x / 2); }
  }

  // ----- The search for the mask -----

  /** No difference from bit n on means agreement with n bits dropped. */
  lemma {:induction false} XorHigh(a: Word, b: Word, n: nat)
    ensures Xor(a, b) < Pow2(n) <==> Shr(a, n) == Shr(b, n)
    decreases n
  {
    if n == 0 {
      XorEqual(a, b);
    } else {
      ShrHalf(a, n - 1);
      ShrHalf(b, n - 1);
      XorHigh(a / 2, b / 2, n - 1);
      assert Xor(a, b) / 2 == Xor(a / 2, b / 2);
    }
  }

  /** The table followed when the mask of i bits fits; an entry -k stops with k bits. */
  function Teq(i: int): int
    requires 0 < i <= 64
  {
    match i
    case 1 => -1 case 2 => 3 case 3 => -3 case 4 => 6 case 5 => -5 case 6 => 7
    case 7 => -7 case 8 => 12 case 9 => -9 case 10 => 11 case 11 => -11 case 12 => 14
    case 13 => -13 case 14 => 15 case 15 => -15 case 16 => 24 case 17 => -17 case 18 => 19
    case 19 => -19 case 20 => 22 case 21 => -21 case 22 => 23 case 23 => -23 case 24 => 28
    case 25 => -25 case 26 => 27 case 27 => -27 case 28 => 30 case 29 => -29 case 30 => 31
    case 31 => -31 case 32 => 48 case 33 => -33 case 34 => 35 case 35 => -35 case 36 => 38
    case 37 => -37 case 38 => 39 case 39 => -39 case 40 => 44 case 41 => -41 case 42 => 43
    case 43 => -43 case 44 => 46 case 45 => -45 case 46 => 47 case 47 => -47 case 48 => 56
    case 49 => -49 case 50 => 51 case 51 => -51 case 52 => 54 case 53 => -53 case 54 => 55
    case 55 => -55 case 56 => 60 case 57 => -57 case 58 => 59 case 59 => -59 case 60 => 62
    case 61 => -61 case 62 => 63 case 63 => 64 case 64 => -64
  }

  /** The table followed when it does not fit. */
  function Tneq(i: int): int
    requires 0 < i <= 64
  {
    match i
    case 1 => 0 case 2 => 1 case 3 => -2 case 4 => 2 case 5 => -4 case 6 => 5
    case 7 => -6 case 8 => 4 case 9 => -8 case 10 => 9 case 11 => -10 case 12 => 10
    case 13 => -12 case 14 => 13 case 15 => -14 case 16 => 8 case 17 => -16 case 18 => 17
    case 19 => -18 case 20 => 18 case 21 => -20 case 22 => 21 case 23 => -22 case 24 => 20
    case 25 => -24 case 26 => 25 case 27 => -26 case 28 => 26 case 29 => -28 case 30 => 29
    case 31 => -30 case 32 => 16 case 33 => -32 case 34 => 33 case 35 => -34 case 36 => 34
    case 37 => -36 case 38 => 37 case 39 => -38 case 40 => 36 case 41 => -40 case 42 => 41
    case 43 => -42 case 44 => 42 case 45 => -44 case 46 => 45 case 47 => -46 case 48 => 40
    case 49 => -48 case 50 => 49 case 51 => -50 case 52 => 50 case 53 => -52 case 54 => 53
    case 55 => -54 case 56 => 52 case 57 => -56 case 58 => 57 case 59 => -58 case 60 => 58
    case 61 => -60 case 62 => 61 case 63 => -62 case 64 => -63
  }

  /** i is the middle of stretch k among the stretches of 2s positions. */
  predicate Middle(i: int, s: int, k: int) {
    && 0 < i < 64
    && match s
       case 32 => i == 32 + 64 * k
       case 16 => i == 16 + 32 * k
       case 8 => i == 8 + 16 * k
       case 4 => i == 4 + 8 * k
       case 2 => i == 2 + 4 * k
       case 1 => i == 1 + 2 * k
       case _ => false
  }

  /** The tables halve every stretch but the shortest ones. */
  lemma TeqHalves(i: int, s: int, k: int)
    requires Middle(i, s, k) && s > 1
    ensures Teq(i) == i + s / 2
  {
  }

  lemma TneqHalves(i: int, s: int, k: int)
    requires Middle(i, s, k) && s > 1
    ensures Tneq(i) == i - s / 2
  {
  }

  lemma MiddleHalves(i: int, s: int, k: int)
    requires Middle(i, s, k) && s > 1
    ensures Middle(i + s / 2, s / 2, 2 * k + 1) && Middle(i - s / 2, s / 2, 2 * k)
  {
  }

  /** There they stop, except that 64 bits are looked at after 63. */
  lemma TablesStop(i: int, k: int)
    requires Middle(i, 1, k)
    ensures Teq(i) == if i == 63 then 64 else -i
    ensures Tneq(i) == 1 - i
  {
  }

  /** The search is at i, in a stretch of 2s positions, for a mask of the given number of bits. */
  ghost predicate Searching(i: int, s: int, bits: nat) {
    || i + bits == 0
    || (i == 64 && 63 <= bits <= 64)
    || (i - s <= bits <= 64 && (bits < i + s || i + s == 64) && exists k :: Middle(i, s, k))
  }

  /** Steps that may still follow. */
  function Rank(i: int, s: int): int { if i <= 0 then 0 else if i == 64 then 1 else s + 1 }

  /** One step inside a longer stretch. */
  lemma HalvingStep(i: int, s: int, k: int, bits: nat, next: int)
    requires Middle(i, s, k) && s > 1 && i - s <= bits <= 64 && (bits < i + s || i + s == 64)
    requires next == if i <= bits then i + s / 2 else i - s / 2
    ensures Searching(next, s / 2, bits) && Rank(next, s / 2) < Rank(i, s)
  {
    MiddleHalves(i, s, k);
  }

  lemma SearchStep(i: int, s: int, bits: nat)
    requires Searching(i, s, bits) && 0 < i <= 64
    ensures var next := if i <= bits then Teq(i) else Tneq(i);
            Searching(next, s / 2, bits) && Rank(next, s / 2) < Rank(i, s)
  {
    if i < 64 {
      var k :| Middle(i, s, k);
      if s > 1 {
        TeqHalves(i, s, k);
        TneqHalves(i, s, k);
        HalvingStep(i, s, k, bits, if i <= bits then i + s / 2 else i - s / 2);
      } else {
        TablesStop(i, k);
      }
    }
  }

  lemma MaskFits(a: Word, b: Word, i: int)
    requires 0 <= i <= 64
    ensures Not(Xor64(a, b)) >= Mask(64 - i) <==> i <= 64 - Common(a, b)
  {
    XorHigh(a, b, 64 - i);
    CommonExact(a, b, 64 - i);
  }

  /** The longest mask on which a and b agree. */
  ghost predicate Longest(a: Word, b: Word, m: Word) {
    && And64(a, m) == And64(b, m)
    && (exists d: Dropped :: m == Mask(d))
    && (forall e: Dropped :: Prefix(a, e) == Prefix(b, e) ==> m >= Mask(e))
  }

  lemma CommonLongest(a: Word, b: Word)
    ensures Longest(a, b, Mask(Common(a, b)))
  {
    var d := Common(a, b);
    CommonExact(a, b, d);
    PrefixOrder(a, b, d);
    forall e: Dropped | Prefix(a, e) == Prefix(b, e) ensures Mask(d) >= Mask(e) {
      CommonExact(a, b, e);
      PrefixOrder(a, b, e);
      MaskOrder(e, d);
    }
  }

  /** `mask`: the tables lead to the longest mask on which a and b agree. */
  method LongestMask(a: Word, b: Word) returns (r: Word)
    ensures Longest(a, b, r)
    ensures r == Mask(Common(a, b))
  {
    var nxor := Not(Xor64(a, b));
    var i: int := 32;
    ghost var s: int, bits := 32, 64 - Common(a, b);
    assert Middle(32, 32, 0);
    while i > 0
      invariant -64 <= i <= 64 && Searching(i, s, bits)
      decreases Rank(i, s)
    {
      MaskFits(a, b, i);
      SearchStep(i, s, bits);
      i := if nxor >= Mask(64 - i) then Teq(i) else Tneq(i);
      s := s / 2;
    }
    r := Mask(64 + i);
    CommonLongest(a, b);
  }
}
