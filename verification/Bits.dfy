/** The bit runs of e_acsl_bits.h over arrays of 64-bit words, against one long sequence of bits. */
module Bits {
  import opened Words

  // ----- The 64-bit macros -----

  /** ~(ONE << k) and ~(ONE >> k), the masks of the first and of the last k bits. */
  function FirstMask(k: nat): Word { Not(Shl(ONE, k)) }

  function LastMask(k: nat): Word { Not(Shr(ONE, k)) }

  lemma FirstMaskBits(k: nat, j: nat)
    requires j < 64
    ensures Bit(FirstMask(k), j) <==> j < k
    ensures Bit(Shl(ONE, k), j) <==> k <= j
  {
    BitShl(ONE, k, j);
    BitNot(Shl(ONE, k), j);
    if k <= j { BitsOfOne(j - k); }
  }

  lemma LastMaskBits(k: nat, j: nat)
    requires j < 64
    ensures Bit(LastMask(k), j) <==> 64 <= j + k
    ensures Bit(Shr(ONE, k), j) <==> j + k < 64
  {
    BitShr(ONE, k, j);
    BitNot(Shr(ONE, k), j);
    if j + k < 64 { BitsOfOne(j + k); } else { LimitIsPow2(); BitHigh(ONE, 64, j + k); }
  }

  predicate CheckBits64(k: nat, w: Word) { And64(w, FirstMask(k)) == FirstMask(k) }

  lemma CheckBits64Meaning(k: nat, w: Word)
    requires k < 64
    ensures CheckBits64(k, w) <==> forall j :: 0 <= j < k ==> Bit(w, j)
  {
    forall j | 0 <= j < 64
      ensures Bit(And64(w, FirstMask(k)), j) <==> Bit(w, j) && j < k
      ensures Bit(FirstMask(k), j) <==> j < k
    {
      BitAnd(w, FirstMask(k), j);
      FirstMaskBits(k, j);
    }
    if CheckBits64(k, w) {
      forall j | 0 <= j < k
        ensures Bit(w, j)
      {
        assert Bit(And64(w, FirstMask(k)), j) <==> Bit(w, j) && j < k;
      }
    }
    if forall j :: 0 <= j < k ==> Bit(w, j) {
      LimitIsPow2();
      SameBits(And64(w, FirstMask(k)), FirstMask(k), 64);
    }
  }

  // ----- The words as one sequence of bits -----

  /** Bit t of the array, counted from its first word. */
  predicate BitAt(ws: seq<Word>, t: nat)
    requires t < 64 * |ws|
  {
    Bit(ws[t / 64], t % 64)
  }

  /** Bits lo to hi-1 of `now` are `value`, all other bits are those of `was`. */
  ghost predicate RunWritten(was: seq<Word>, now: seq<Word>, lo: int, hi: int, value: bool) {
    |now| == |was| &&
    forall t :: 0 <= t < 64 * |was| ==> BitAt(now, t) == if lo <= t < hi then value else BitAt(was, t)
  }

  /** Sets the first `size` bits from word `ptr` on. */
  method SetBits(size: nat, a: array<Word>, ptr: nat)
    requires ptr + size / 64 < a.Length
    modifies a
    ensures RunWritten(old(a[..]), a[..], 64 * ptr, 64 * ptr + size, true)
  {
    var i := 0;
    while i < size / 64
      invariant i <= size / 64
      invariant forall k :: 0 <= k < a.Length ==> a[k] == old(if ptr <= k < ptr + i then Or64(a[k], ONE) else a[k])
    {
      a[ptr + i] := Or64(a[ptr + i], ONE);
      i := i + 1;
    }
    a[ptr + i] := Or64(a[ptr + i], FirstMask(size % 64));
    forall t | 0 <= t < 64 * a.Length
      ensures BitAt(a[..], t) <==> 64 * ptr <= t < 64 * ptr + size || BitAt(old(a[..]), t)
    {
      var k, j := t / 64, t % 64;
      BitsOfOne(j);
      BitOr(old(a[k]), ONE, j);
      BitOr(old(a[k]), FirstMask(size % 64), j);
      FirstMaskBits(size % 64, j);
    }
  }

  /** Clears the first `size` bits from word `ptr` on. */
  method ClearBits(size: nat, a: array<Word>, ptr: nat)
    requires ptr + size / 64 < a.Length
    modifies a
    ensures RunWritten(old(a[..]), a[..], 64 * ptr, 64 * ptr + size, false)
  {
    var i := 0;
    while i < size / 64
      invariant i <= size / 64
      invariant forall k :: 0 <= k < a.Length ==> a[k] == old(if ptr <= k < ptr + i then And64(a[k], ZERO) else a[k])
    {
      a[ptr + i] := And64(a[ptr + i], ZERO);
      i := i + 1;
    }
    a[ptr + i] := And64(a[ptr + i], Shl(ONE, size % 64));
    forall t | 0 <= t < 64 * a.Length
      ensures BitAt(a[..], t) <==> !(64 * ptr <= t < 64 * ptr + size) && BitAt(old(a[..]), t)
    {
      var k, j := t / 64, t % 64;
      BitsOfZero(j);
      BitAnd(old(a[k]), ZERO, j);
      BitAnd(old(a[k]), Shl(ONE, size % 64), j);
      FirstMaskBits(size % 64, j);
    }
  }

  /** 1 exactly when the first `size` bits from word `ptr` on are all set. */
  method CheckBits(size: nat, a: array<Word>, ptr: nat) returns (r: int)
    requires ptr + size / 64 < a.Length
    ensures r == 0 || r == 1
    ensures r == 1 <==> forall t :: 64 * ptr <= t < 64 * ptr + size ==> BitAt(a[..], t)
  {
    var i := 0;
    while i < size / 64
      invariant i <= size / 64
      invariant forall k :: ptr <= k < ptr + i ==> a[k] == ONE
    {
      if a[ptr + i] != ONE {
        NotAllOnes(a[..], ptr + i);
        return 0;
      }
      i := i + 1;
    }
    LastWordDecides(size, a[..], ptr);
    return if CheckBits64(size % 64, a[ptr + i]) then 1 else 0;
  }

  lemma NotAllOnes(ws: seq<Word>, k: nat)
    requires k < |ws| && ws[k] != ONE
    ensures exists t :: 64 * k <= t < 64 * k + 64 && !BitAt(ws, t)
  {
    if forall j :: 0 <= j < 64 ==> Bit(ws[k], j) == Bit(ONE, j) {
      LimitIsPow2();
      SameBits(ws[k], ONE, 64);
    }
    var j :| 0 <= j < 64 && Bit(ws[k], j) != Bit(ONE, j);
    BitsOfOne(j);
    var t := 64 * k + j;
    assert t / 64 == k && t % 64 == j && !BitAt(ws, t);
  }

  lemma LastWordDecides(size: nat, ws: seq<Word>, ptr: nat)
    requires ptr + size / 64 < |ws|
    requires forall k :: ptr <= k < ptr + size / 64 ==> ws[k] == ONE
    ensures CheckBits64(size % 64, ws[ptr + size / 64])
       <==> forall t :: 64 * ptr <= t < 64 * ptr + size ==> BitAt(ws, t)
  {
    var last := ptr + size / 64;
    CheckBits64Meaning(size % 64, ws[last]);
    forall t | 64 * ptr <= t < 64 * ptr + size
      ensures t / 64 < last ==> BitAt(ws, t)
      ensures t / 64 <= last && (t / 64 == last ==> t % 64 < size % 64)
    {
      BitsOfOne(t % 64);
    }
    forall j {:trigger Bit(ws[last], j)} | 0 <= j < size % 64
      ensures 64 * ptr <= 64 * last + j < 64 * ptr + size
      ensures BitAt(ws, 64 * last + j) <==> Bit(ws[last], j)
    {
      assert (64 * last + j) / 64 == last && (64 * last + j) % 64 == j;
    }
  }

  /** Sets the last `size` bits before word `ptr`. */
  method SetBitsRight(size: nat, a: array<Word>, ptr: nat)
    requires size / 64 < ptr <= a.Length
    modifies a
    ensures RunWritten(old(a[..]), a[..], 64 * ptr - size, 64 * ptr, true)
  {
    var i, lp := 0, ptr - 1;
    while i < size / 64
      invariant i <= size / 64
      invariant forall k :: 0 <= k < a.Length ==> a[k] == old(if ptr - i <= k < ptr then Or64(a[k], ONE) else a[k])
    {
      a[lp - i] := Or64(a[lp - i], ONE);
      i := i + 1;
    }
    a[lp - i] := Or64(a[lp - i], LastMask(size % 64));
    forall t | 0 <= t < 64 * a.Length
      ensures BitAt(a[..], t) <==> 64 * ptr - size <= t < 64 * ptr || BitAt(old(a[..]), t)
    {
      var k, j := t / 64, t % 64;
      BitsOfOne(j);
      BitOr(old(a[k]), ONE, j);
      BitOr(old(a[k]), LastMask(size % 64), j);
      LastMaskBits(size % 64, j);
    }
  }

  /** Clears the last `size` bits before word `ptr`. */
  method ClearBitsRight(size: nat, a: array<Word>, ptr: nat)
    requires size / 64 < ptr <= a.Length
    modifies a
    ensures RunWritten(old(a[..]), a[..], 64 * ptr - size, 64 * ptr, false)
  {
    var i, lp := 0, ptr - 1;
    while i < size / 64
      invariant i <= size / 64
      invariant forall k :: 0 <= k < a.Length ==> a[k] == old(if ptr - i <= k < ptr then And64(a[k], ZERO) else a[k])
    {
      a[lp - i] := And64(a[lp - i], ZERO);
      i := i + 1;
    }
    a[lp - i] := And64(a[lp - i], Shr(ONE, size % 64));
    forall t | 0 <= t < 64 * a.Length
      ensures BitAt(a[..], t) <==> !(64 * ptr - size <= t < 64 * ptr) && BitAt(old(a[..]), t)
    {
      var k, j := t / 64, t % 64;
      BitsOfZero(j);
      BitAnd(old(a[k]), ZERO, j);
      BitAnd(old(a[k]), Shr(ONE, size % 64), j);
      LastMaskBits(size % 64, j);
    }
  }

  /** Clearing a run that has just been set restores the words, if the run was clear before. */
  lemma ClearUndoesSet(was: seq<Word>, mid: seq<Word>, now: seq<Word>, lo: int, hi: int)
    requires RunWritten(was, mid, lo, hi, true) && RunWritten(mid, now, lo, hi, false)
    requires forall t :: 0 <= t < 64 * |was| && lo <= t < hi ==> !BitAt(was, t)
    ensures now == was
  {
    forall k | 0 <= k < |was|
      ensures now[k] == was[k]
    {
      forall j | 0 <= j < 64
        ensures Bit(now[k], j) == Bit(was[k], j)
      {
        var t := 64 * k + j;
        assert t / 64 == k && t % 64 == j;
        assert BitAt(now, t) == BitAt(was, t);
      }
      LimitIsPow2();
      SameBits(now[k], was[k], 64);
    }
  }
}
