/**
 * Unsigned machine words as natural numbers, with the bitwise operators of C defined bit by bit.
 */
module Words {
  function Pow2(n: nat): (r: nat)
    ensures r > 0
  {
    if n == 0 then 1 else 2 * Pow2(n - 1)
  }

  const LIMIT: nat := 0x1_0000_0000_0000_0000

  /** A value of uint64_t. */
  type Word = w: nat | w < LIMIT

  const ONE: Word := LIMIT - 1
  const ZERO: Word := 0

  lemma {:induction false} Pow2Monotone(m: nat, n: nat)
    requires m < n
    ensures Pow2(m) < Pow2(n)
    decreases n
  {
    if m < n - 1 { Pow2Monotone(m, n - 1); }
  }

  lemma Pow2Plus8(n: nat)
    ensures Pow2(n + 8) == 256 * Pow2(n)
  {
    assert Pow2(n + 2) == 4 * Pow2(n);
    assert Pow2(n + 4) == 4 * Pow2(n + 2);
    assert Pow2(n + 6) == 4 * Pow2(n + 4);
  }

  lemma LimitIsPow2()
    ensures Pow2(64) == LIMIT
  {
    Pow2Plus8(0);
    Pow2Plus8(8);
    Pow2Plus8(16);
    Pow2Plus8(24);
    Pow2Plus8(32);
    Pow2Plus8(40);
    Pow2Plus8(48);
    Pow2Plus8(56);
  }

  /** Bit j, the least significant one first. */
  predicate TestBit(w: nat, j: nat)
    decreases j
  {
    if j == 0 then w % 2 == 1 else TestBit(w / 2, j - 1)
  }

  /** The same, as a name to quantify over. */
  predicate Bit(w: nat, j: nat) { TestBit(w, j) }

  function Or(a: nat, b: nat): nat {
    if a == 0 && b == 0 then 0
    else 2 * Or(a / 2, b / 2) + if a % 2 == 1 || b % 2 == 1 then 1 else 0
  }

  function And(a: nat, b: nat): nat {
    if a == 0 && b == 0 then 0
    else 2 * And(a / 2, b / 2) + if a % 2 == 1 && b % 2 == 1 then 1 else 0
  }

  function Xor(a: nat, b: nat): nat {
    if a == 0 && b == 0 then 0
    else 2 * Xor(a / 2, b / 2) + if a % 2 != b % 2 then 1 else 0
  }

  /** ~w on 64 bits. */
  function Not(w: Word): Word { ONE - w }

  /** w << k and w >> k as k shifts by one place. */
  function Shl(w: Word, k: nat): Word { if k == 0 then w else (2 * Shl(w, k - 1)) % LIMIT }

  function Shr(w: Word, k: nat): Word { if k == 0 then w else Shr(w, k - 1) / 2 }

  // ----- What the operators do to each bit -----

  lemma {:induction false} BitOr(a: nat, b: nat, j: nat)
    ensures TestBit(Or(a, b), j) <==> TestBit(a, j) || TestBit(b, j)
    decreases j
  {
    assert Or(a, b) / 2 == Or(a / 2, b / 2) && (Or(a, b) % 2 == 1 <==> a % 2 == 1 || b % 2 == 1);
    if j != 0 { BitOr(a / 2, b / 2, j - 1); }
  }

  lemma {:induction false} BitAnd(a: nat, b: nat, j: nat)
    ensures TestBit(And(a, b), j) <==> TestBit(a, j) && TestBit(b, j)
    decreases j
  {
    assert And(a, b) / 2 == And(a / 2, b / 2) && (And(a, b) % 2 == 1 <==> a % 2 == 1 && b % 2 == 1);
    if j != 0 { BitAnd(a / 2, b / 2, j - 1); }
  }

  /** Subtracting from n ones flips the low n bits. */
  lemma {:induction false} BitFlip(w: nat, n: nat, j: nat)
    requires w < Pow2(n) && j < n
    ensures TestBit(Pow2(n) - 1 - w, j) <==> !TestBit(w, j)
    decreases j
  {
    if j != 0 {
      assert (Pow2(n) - 1 - w) / 2 == Pow2(n - 1) - 1 - w / 2;
      BitFlip(w / 2, n - 1, j - 1);
    }
  }

  lemma {:induction false} BitHigh(w: nat, n: nat, j: nat)
    requires w < Pow2(n) && n <= j
    ensures !TestBit(w, j)
    decreases j
  {
    if n != 0 { BitHigh(w / 2, n - 1, j - 1); } else if j != 0 { BitHigh(0, 0, j - 1); }
  }

  lemma BitNot(w: Word, j: nat)
    requires j < 64
    ensures TestBit(Not(w), j) <==> !TestBit(w, j)
  {
    LimitIsPow2();
    BitFlip(w, 64, j);
  }

  lemma {:induction false} BitsOfZero(j: nat)
    ensures !TestBit(0, j)
  {
    if j != 0 { BitsOfZero(j - 1); }
  }

  lemma BitsOfOne(j: nat)
    requires j < 64
    ensures TestBit(ONE, j)
  {
    BitsOfZero(j);
    BitNot(0, j);
  }

  lemma {:induction false} BitShr(w: Word, k: nat, j: nat)
    ensures TestBit(Shr(w, k), j) <==> TestBit(w, j + k)
    decreases k
  {
    if k != 0 { BitShr(w, k - 1, j + 1); }
  }

  /** Adding 2^n leaves the bits below n alone. */
  lemma {:induction false} BitAddPow(w: nat, n: nat, j: nat)
    requires j < n
    ensures TestBit(w + Pow2(n), j) <==> TestBit(w, j)
    decreases j
  {
    if j != 0 {
      assert (w + Pow2(n)) / 2 == w / 2 + Pow2(n - 1);
      BitAddPow(w / 2, n - 1, j - 1);
    }
  }

  lemma BitDouble(x: Word, j: nat)
    requires j < 64
    ensures TestBit((2 * x) % LIMIT, j) <==> 0 < j && TestBit(x, j - 1)
  {
    var d := if 2 * x < LIMIT then 2 * x else 2 * x - LIMIT;
    assert (2 * x) % LIMIT == d;
    LimitIsPow2();
    if 0 < j && 2 * x >= LIMIT {
      assert d / 2 == x - Pow2(63);
      BitAddPow(x - Pow2(63), 63, j - 1);
    }
  }

  lemma {:induction false} BitShl(w: Word, k: nat, j: nat)
    requires j < 64
    ensures TestBit(Shl(w, k), j) <==> k <= j && TestBit(w, j - k)
    decreases k
  {
    if k != 0 {
      BitDouble(Shl(w, k - 1), j);
      if 0 < j { BitShl(w, k - 1, j - 1); }
    }
  }

  /** Words with the same bits are equal. */
  lemma {:induction false} SameBits(a: nat, b: nat, n: nat)
    requires a < Pow2(n) && b < Pow2(n)
    requires forall j :: 0 <= j < n ==> Bit(a, j) == Bit(b, j)
    ensures a == b
  {
    if n != 0 {
      assert Bit(a, 0) == Bit(b, 0);
      forall j | 0 <= j < n - 1
        ensures Bit(a / 2, j) == Bit(b / 2, j)
      {
        assert Bit(a, j + 1) == Bit(b, j + 1);
      }
      SameBits(a / 2, b / 2, n - 1);
    }
  }

  lemma {:induction false} BitwiseBound(a: nat, b: nat, n: nat)
    requires a < Pow2(n) && b < Pow2(n)
    ensures Or(a, b) < Pow2(n) && And(a, b) < Pow2(n) && Xor(a, b) < Pow2(n)
  {
    if n != 0 { BitwiseBound(a / 2, b / 2, n - 1); }
  }

  function Or64(a: Word, b: Word): Word { LimitIsPow2(); BitwiseBound(a, b, 64); Or(a, b) }

  function And64(a: Word, b: Word): Word { LimitIsPow2(); BitwiseBound(a, b, 64); And(a, b) }

  function Xor64(a: Word, b: Word): Word { LimitIsPow2(); BitwiseBound(a, b, 64); Xor(a, b) }

  lemma {:induction false} XorZero(a: nat)
    ensures Xor(a, 0) == a
  {
    if a != 0 { XorZero(a / 2); }
  }

  lemma {:induction false} XorEqual(a: nat, b: nat)
    ensures Xor(a, b) == 0 <==> a == b
    decreases a + b
  {
    if a != 0 || b != 0 { XorEqual(a / 2, b / 2); }
  }

  /** A word has n bits exactly when n - k of them are left after a shift by k. */
  lemma {:induction false} ShrBound(w: Word, n: nat, k: nat)
    requires k <= n
    ensures w < Pow2(n) <==> Shr(w, k) < Pow2(n - k)
  {
    if k != 0 { ShrBound(w, n, k - 1); }
  }
}
