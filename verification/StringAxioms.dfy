/**
 * The ACSL axiomatics of share/libc/__fc_string_axiomatic.h over an unbounded memory: which axioms
 * follow from which, for every function that may interpret strlen, and whether the C loops meet them.
 */
module StringAxioms {
  import opened CMemory
  import opened StringCompare
  import opened StringSearch

  /** The memory of a logic label: every address holds a byte. */
  type Memory = int -> Byte

  // ----- Axiomatic StrLen -----

  predicate ZeroAt(m: Memory, s: int, i: int) { 0 <= i && m(s + i) == 0 }

  ghost predicate Terminates(m: Memory, s: int) { exists i :: ZeroAt(m, s, i) }

  ghost predicate LeastZero(m: Memory, s: int, i: int) {
    ZeroAt(m, s, i) && forall j :: 0 <= j < i ==> !ZeroAt(m, s, j)
  }

  lemma LeastZeroExists(m: Memory, s: int, i: int)
    requires ZeroAt(m, s, i)
    ensures exists j :: LeastZero(m, s, j)
    decreases i
  {
    if j :| 0 <= j < i && ZeroAt(m, s, j) {
      LeastZeroExists(m, s, j);
    } else {
      assert LeastZero(m, s, i);
    }
  }

  lemma LeastZeroUnique(m: Memory, s: int, i: int, j: int)
    requires LeastZero(m, s, i) && LeastZero(m, s, j)
    ensures i == j
  {
  }

  /** The axioms strlen_pos_or_null and strlen_neg for a candidate strlen `len` of memory m. */
  ghost predicate MeetsStrLenAxioms(m: Memory, len: int -> int) {
    && (forall s, i :: LeastZero(m, s, i) ==> len(s) == i)
    && (forall s :: !Terminates(m, s) ==> len(s) < 0)
  }

  /** Such a strlen is the least NUL offset, and some negative number where there is no NUL. */
  lemma LenIs(m: Memory, len: int -> int, s: int)
    requires MeetsStrLenAxioms(m, len)
    ensures Terminates(m, s) ==> LeastZero(m, s, len(s))
    ensures 0 <= len(s) <==> Terminates(m, s)
  {
    if i :| ZeroAt(m, s, i) {
      LeastZeroExists(m, s, i);
    }
  }

  /** The other axioms on strlen alone follow from these two, whatever function interprets strlen. */
  lemma StrLenAxioms(m: Memory, len: int -> int, s: int, i: int, k: int)
    requires MeetsStrLenAxioms(m, len)
    ensures 0 <= i < len(s) ==> m(s + i) != 0
    ensures 0 <= len(s) ==> m(s + len(s)) == 0
    ensures 0 <= i <= len(s) && m(s + i) != 0 ==> i < len(s)
    ensures 0 <= i <= len(s) && m(s + i) == 0 ==> i == len(s)
    ensures 0 <= i && m(s + i) == 0 ==> 0 <= len(s) <= i
    ensures 0 <= i <= len(s) ==> len(s + i) == len(s) - i
    ensures 0 <= k <= i && m(s + i) == 0 ==> 0 <= len(s + k) <= i - k
  {
    LenIs(m, len, s);
    assert 0 <= i < len(s) ==> !ZeroAt(m, s, i);
    assert 0 <= i && m(s + i) == 0 ==> ZeroAt(m, s, i);
    if 0 <= i <= len(s) {
      Shifted(m, len, s, i);
    }
    if 0 <= k <= i && m(s + i) == 0 {
      assert ZeroAt(m, s + k, i - k);
      LenIs(m, len, s + k);
    }
  }

  lemma Shifted(m: Memory, len: int -> int, s: int, i: int)
    requires MeetsStrLenAxioms(m, len) && 0 <= i <= len(s)
    ensures len(s + i) == len(s) - i
  {
    LenIs(m, len, s);
    LenIs(m, len, s + i);
    var rest := len(s) - i;
    assert s + i + rest == s + len(s);
    assert ZeroAt(m, s + i, rest);
    var j := len(s + i);
    assert s + i + j == s + (i + j);
    assert ZeroAt(m, s, i + j);
  }

  /** A strlen that tells unterminated strings apart by their addresses. */
  ghost function Apart(m: Memory): int -> int {
    s => if i :| LeastZero(m, s, i) then i else if s >= 0 then -1 - 2 * s else 2 * s
  }

  /** A strlen that is -1 for every unterminated string. */
  ghost function Alike(m: Memory): int -> int {
    s => if i :| LeastZero(m, s, i) then i else -1
  }

  /** Both meet the two axioms. */
  lemma BothAreStrLen(m: Memory)
    ensures MeetsStrLenAxioms(m, Apart(m)) && MeetsStrLenAxioms(m, Alike(m))
  {
    forall s, i | LeastZero(m, s, i)
      ensures Apart(m)(s) == i && Alike(m)(s) == i
    {
      LeastZeroUnique(m, s, i, Apart(m)(s));
      LeastZeroUnique(m, s, i, Alike(m)(s));
    }
  }

  /** Both depend only on the bytes from s on. */
  lemma ReadsFromString(m: Memory, m': Memory, s: int)
    requires forall q :: s <= q ==> m(q) == m'(q)
    ensures Apart(m)(s) == Apart(m')(s) && Alike(m)(s) == Alike(m')(s)
  {
    assert forall i :: ZeroAt(m, s, i) <==> ZeroAt(m', s, i);
    assert forall i :: LeastZero(m, s, i) <==> LeastZero(m', s, i);
  }

  // ----- Axiomatic MemCmp and its links to strlen -----

  predicate SameAt(m1: Memory, s1: int, m2: Memory, s2: int, i: int) { m1(s1 + i) == m2(s2 + i) }

  /** logic integer memcmp{L1,L2}: the difference at the first position that differs. */
  function LogicMemCmp(m1: Memory, m2: Memory, s1: int, s2: int, n: int): int
    decreases n
  {
    if n <= 0 then 0
    else if m1(s1) != m2(s2) then m1(s1) - m2(s2)
    else LogicMemCmp(m1, m2, s1 + 1, s2 + 1, n - 1)
  }

  lemma {:induction false} MemCmpZero(m1: Memory, m2: Memory, s1: int, s2: int, n: int)
    ensures LogicMemCmp(m1, m2, s1, s2, n) == 0 <==> forall i :: 0 <= i < n ==> SameAt(m1, s1, m2, s2, i)
    decreases n
  {
    if n > 0 {
      MemCmpZero(m1, m2, s1 + 1, s2 + 1, n - 1);
      assert SameAt(m1, s1, m2, s2, 0) <==> m1(s1) == m2(s2);
      forall i {:trigger SameAt(m1, s1 + 1, m2, s2 + 1, i)} | 0 <= i < n - 1
        ensures SameAt(m1, s1 + 1, m2, s2 + 1, i) <==> SameAt(m1, s1, m2, s2, i + 1)
      {
        assert s1 + 1 + i == s1 + (i + 1) && s2 + 1 + i == s2 + (i + 1);
      }
      forall i | 0 < i < n
        ensures SameAt(m1, s1 + 1, m2, s2 + 1, i - 1) <==> SameAt(m1, s1, m2, s2, i)
      {
        assert s1 + 1 + (i - 1) == s1 + i && s2 + 1 + (i - 1) == s2 + i;
      }
    }
  }

  /** One instance of the axiom memcmp_strlen_left, for a candidate strlen `len` of memory m. */
  ghost predicate MemCmpStrLenLeft(m: Memory, len: int -> int, s1: int, s2: int, n: int) {
    LogicMemCmp(m, m, s1, s2, n) == 0 && len(s1) < n ==> len(s1) == len(s2)
  }

  /** One instance of the axiom memcmp_strlen_shift_left. */
  ghost predicate MemCmpStrLenShiftLeft(m: Memory, len: int -> int, s1: int, s2: int, k: int, n: int) {
    LogicMemCmp(m, m, s1, s2 + k, n) == 0 && 0 <= k && len(s1) < n ==> 0 <= len(s2) <= k + len(s1)
  }

  /** One instance of the axiom memcmp_strlen_right. */
  ghost predicate MemCmpStrLenRight(m: Memory, len: int -> int, s1: int, s2: int, n: int) {
    LogicMemCmp(m, m, s1, s2, n) == 0 && len(s2) < n ==> len(s1) == len(s2)
  }

  /** One instance of the axiom memcmp_strlen_shift_right. */
  ghost predicate MemCmpStrLenShiftRight(m: Memory, len: int -> int, s1: int, s2: int, k: int, n: int) {
    LogicMemCmp(m, m, s1 + k, s2, n) == 0 && 0 <= k && len(s2) < n ==> 0 <= len(s1) <= k + len(s2)
  }

  /** The right-hand axioms are the left-hand ones with the strings swapped, for any strlen. */
  lemma RightIsLeft(m: Memory, len: int -> int, s1: int, s2: int, k: int, n: int)
    ensures MemCmpStrLenRight(m, len, s1, s2, n) <==> MemCmpStrLenLeft(m, len, s2, s1, n)
    ensures MemCmpStrLenShiftRight(m, len, s1, s2, k, n) <==> MemCmpStrLenShiftLeft(m, len, s2, s1, k, n)
  {
    MemCmpSwap(m, s1, s2, n);
    MemCmpSwap(m, s1 + k, s2, n);
  }

  lemma MemCmpSwap(m: Memory, s1: int, s2: int, n: int)
    ensures LogicMemCmp(m, m, s1, s2, n) == 0 <==> LogicMemCmp(m, m, s2, s1, n) == 0
  {
    MemCmpZero(m, m, s1, s2, n);
    MemCmpZero(m, m, s2, s1, n);
    assert forall i :: SameAt(m, s1, m, s2, i) <==> SameAt(m, s2, m, s1, i);
  }

  /** Both left-hand axioms hold of a terminated s1. */
  lemma MemCmpStrLenGuarded(m: Memory, len: int -> int, s1: int, s2: int, k: int, n: int)
    requires MeetsStrLenAxioms(m, len) && 0 <= len(s1)
    ensures MemCmpStrLenLeft(m, len, s1, s2, n)
    ensures MemCmpStrLenShiftLeft(m, len, s1, s2, k, n)
  {
    var i := len(s1);
    LenIs(m, len, s1);
    LenIs(m, len, s2);
    if LogicMemCmp(m, m, s1, s2 + k, n) == 0 && 0 <= k && i < n {
      MemCmpZero(m, m, s1, s2 + k, n);
      assert SameAt(m, s1, m, s2 + k, i);
      assert s2 + k + i == s2 + (k + i);
      assert ZeroAt(m, s2, k + i);
    }
    if LogicMemCmp(m, m, s1, s2, n) == 0 && i < n {
      MemCmpZero(m, m, s1, s2, n);
      assert SameAt(m, s1, m, s2, i);
      assert ZeroAt(m, s2, i);
      forall j | 0 <= j < i
        ensures !ZeroAt(m, s2, j)
      {
        assert SameAt(m, s1, m, s2, j) && !ZeroAt(m, s1, j);
      }
    }
  }

  /**
   * The unguarded memcmp_strlen_left contradicts strlen_pos_or_null and strlen_neg, whatever
   * function interprets strlen, in every memory with one string that ends and one that does not.
   */
  lemma MemCmpStrLenInconsistent(m: Memory, len: int -> int, s1: int, s2: int)
    requires !Terminates(m, s1) && Terminates(m, s2)
    requires MeetsStrLenAxioms(m, len)
    ensures !MemCmpStrLenLeft(m, len, s1, s2, 0)
  {
    LenIs(m, len, s2);
  }

  ghost predicate LeftAxiom(m: Memory, len: int -> int) {
    forall s1, s2, n :: MemCmpStrLenLeft(m, len, s1, s2, n)
  }

  ghost predicate ShiftLeftAxiom(m: Memory, len: int -> int) {
    forall s1, s2, k, n :: MemCmpStrLenShiftLeft(m, len, s1, s2, k, n)
  }

  /** A memory where both kinds of strings exist. */
  lemma UnguardedFails(m: Memory, len: int -> int)
    requires (forall q :: m(q) == if q == 0 then 0 else 1) && MeetsStrLenAxioms(m, len)
    ensures !LeftAxiom(m, len) && !ShiftLeftAxiom(m, len)
  {
    assert !Terminates(m, 1);
    assert ZeroAt(m, 0, 0);
    LenIs(m, len, 0);
    assert !MemCmpStrLenLeft(m, len, 1, 0, 0);
    assert !MemCmpStrLenShiftLeft(m, len, 1, 1, 0, 0);
  }

  /**
   * memcmp_strlen_left holds in a memory exactly when all strings end there, or none does and strlen
   * is the same number for all of them.
   */
  lemma LeftAxiomExact(m: Memory, len: int -> int)
    requires MeetsStrLenAxioms(m, len)
    ensures LeftAxiom(m, len)
       <==> || (forall s :: Terminates(m, s))
            || ((forall s :: !Terminates(m, s)) && forall s1, s2 :: len(s1) == len(s2))
  {
    if s1, s2 :| !Terminates(m, s1) && len(s1) != len(s2) {
      assert !MemCmpStrLenLeft(m, len, s1, s2, 0);
    } else {
      forall s1, s2, n
        ensures MemCmpStrLenLeft(m, len, s1, s2, n)
      {
        LenIs(m, len, s1);
        if Terminates(m, s1) {
          MemCmpStrLenGuarded(m, len, s1, s2, 0, n);
        }
      }
      if s1 :| !Terminates(m, s1) {
        forall s2 ensures !Terminates(m, s2) && len(s1) == len(s2) { LenIs(m, len, s2); }
      }
    }
  }

  /** memcmp_strlen_shift_left holds in a memory exactly when all strings end there. */
  lemma ShiftLeftAxiomExact(m: Memory, len: int -> int)
    requires MeetsStrLenAxioms(m, len)
    ensures ShiftLeftAxiom(m, len) <==> forall s :: Terminates(m, s)
  {
    if s :| !Terminates(m, s) {
      assert !MemCmpStrLenShiftLeft(m, len, s, s, 0, 0);
    } else {
      forall s1, s2, k, n
        ensures MemCmpStrLenShiftLeft(m, len, s1, s2, k, n)
      {
        LenIs(m, len, s1);
        MemCmpStrLenGuarded(m, len, s1, s2, k, n);
      }
    }
  }

  // ----- Axiomatics StrCmp and StrNCmp -----

  /** The position i stops the comparison loop: the bytes differ or both are NUL. */
  predicate StopsAt(m: Memory, s1: int, s2: int, i: int) {
    0 <= i && (!SameAt(m, s1, m, s2, i) || m(s1 + i) == 0)
  }

  ghost predicate FirstStop(m: Memory, s1: int, s2: int, i: int) {
    StopsAt(m, s1, s2, i) && forall j :: 0 <= j < i ==> !StopsAt(m, s1, s2, j)
  }

  lemma FirstStopExists(m: Memory, s1: int, s2: int, i: int) returns (j: int)
    requires StopsAt(m, s1, s2, i)
    ensures FirstStop(m, s1, s2, j) && j <= i
    decreases i
  {
    if k :| 0 <= k < i && StopsAt(m, s1, s2, k) {
      j := FirstStopExists(m, s1, s2, k);
    } else {
      j := i;
    }
  }

  /** What the loop of strcmp returns on m: the byte difference at the first stop, nothing without one. */
  ghost function LoopStrCmp(m: Memory, s1: int, s2: int): (r: Option<int>) {
    if i :| FirstStop(m, s1, s2, i) then Some(m(s1 + i) - m(s2 + i)) else None
  }

  /** What the loop of strncmp returns on m: the same if the first stop comes before n, else 0. */
  ghost function LoopStrNCmp(m: Memory, s1: int, s2: int, n: int): (r: int) {
    if i :| FirstStop(m, s1, s2, i) && i < n then m(s1 + i) - m(s2 + i) else 0
  }

  /** Right-hand side of the axiom strcmp_zero. */
  ghost predicate SameStrings(m: Memory, len: int -> int, s1: int, s2: int) {
    len(s1) == len(s2) && forall i :: 0 <= i <= len(s1) ==> SameAt(m, s1, m, s2, i)
  }

  ghost predicate DifferWithin(m: Memory, s1: int, s2: int, n: int) {
    exists i :: 0 <= i < n && !SameAt(m, s1, m, s2, i)
  }

  /** Right-hand side of the axiom strncmp_zero, with strcmp == 0 read through strcmp_zero. */
  ghost predicate SameUpTo(m: Memory, len: int -> int, s1: int, s2: int, n: int) {
    (len(s1) < n && SameStrings(m, len, s1, s2)) || !DifferWithin(m, s1, s2, n)
  }

  /** Neither string ends, and strlen gives both the same negative number. */
  ghost predicate Confused(m: Memory, len: int -> int, s1: int, s2: int) {
    !Terminates(m, s1) && !Terminates(m, s2) && len(s1) == len(s2)
  }

  /** What the first stop says about the two strings. */
  lemma FirstStopFacts(m: Memory, len: int -> int, s1: int, s2: int, i: int)
    requires MeetsStrLenAxioms(m, len) && FirstStop(m, s1, s2, i)
    ensures SameAt(m, s1, m, s2, i) ==> len(s1) == i && Terminates(m, s1) && SameStrings(m, len, s1, s2)
    ensures !SameAt(m, s1, m, s2, i) ==> (SameStrings(m, len, s1, s2) <==> Confused(m, len, s1, s2))
  {
    LenIs(m, len, s1);
    LenIs(m, len, s2);
    forall j | 0 <= j < i
      ensures SameAt(m, s1, m, s2, j) && !ZeroAt(m, s1, j) && !ZeroAt(m, s2, j)
    {
      assert !StopsAt(m, s1, s2, j);
    }
    if SameAt(m, s1, m, s2, i) {
      assert LeastZero(m, s1, i) && LeastZero(m, s2, i);
    } else if Terminates(m, s1) {
      assert len(s1) >= i;
    }
  }

  /**
   * The loop of strcmp returns unless neither string ends and they never differ.  When it returns,
   * the result meets strcmp_zero unless the two strings do not end and have the same strlen: then
   * the axiom calls them equal while the loop has found a difference.
   */
  lemma StrCmpZeroExact(m: Memory, len: int -> int, s1: int, s2: int)
    requires MeetsStrLenAxioms(m, len)
    ensures LoopStrCmp(m, s1, s2) == None
       <==> !Terminates(m, s1) && !Terminates(m, s2) && forall n :: !DifferWithin(m, s1, s2, n)
    ensures LoopStrCmp(m, s1, s2).Some? ==>
      ((LoopStrCmp(m, s1, s2).value == 0 <==> SameStrings(m, len, s1, s2)) <==> !Confused(m, len, s1, s2))
  {
    if i :| StopsAt(m, s1, s2, i) {
      var j := FirstStopExists(m, s1, s2, i);
      FirstStopFacts(m, len, s1, s2, j);
      assert !SameAt(m, s1, m, s2, j) ==> DifferWithin(m, s1, s2, j + 1);
    } else {
      NeverStops(m, s1, s2);
    }
  }

  lemma NeverStops(m: Memory, s1: int, s2: int)
    requires forall i :: !StopsAt(m, s1, s2, i)
    ensures !Terminates(m, s1) && !Terminates(m, s2) && forall n :: !DifferWithin(m, s1, s2, n)
  {
    forall i | 0 <= i
      ensures SameAt(m, s1, m, s2, i) && !ZeroAt(m, s1, i) && !ZeroAt(m, s2, i)
    {
      assert !StopsAt(m, s1, s2, i);
    }
  }

  /** The loop of strncmp meets strncmp_zero unless such strings differ below n. */
  lemma StrNCmpZeroExact(m: Memory, len: int -> int, s1: int, s2: int, n: int)
    requires MeetsStrLenAxioms(m, len)
    ensures (LoopStrNCmp(m, s1, s2, n) == 0 <==> SameUpTo(m, len, s1, s2, n))
       <==> !(Confused(m, len, s1, s2) && DifferWithin(m, s1, s2, n))
  {
    if i :| StopsAt(m, s1, s2, i) && i < n {
      var j := FirstStopExists(m, s1, s2, i);
      FirstStopFacts(m, len, s1, s2, j);
    } else {
      forall i | 0 <= i < n
        ensures SameAt(m, s1, m, s2, i)
      {
        assert !StopsAt(m, s1, s2, i);
      }
    }
  }

  /** On these arguments both loops meet their axioms; strcmp where it returns. */
  ghost predicate LoopsMeetAxioms(m: Memory, len: int -> int, s1: int, s2: int) {
    && (LoopStrCmp(m, s1, s2).Some? ==>
         (LoopStrCmp(m, s1, s2).value == 0 <==> SameStrings(m, len, s1, s2)))
    && (forall n :: LoopStrNCmp(m, s1, s2, n) == 0 <==> SameUpTo(m, len, s1, s2, n))
  }

  /** They do so exactly unless the strings do not end, have the same strlen and differ. */
  lemma LoopsMeetExact(m: Memory, len: int -> int, s1: int, s2: int)
    requires MeetsStrLenAxioms(m, len)
    ensures LoopsMeetAxioms(m, len, s1, s2)
       <==> !(Confused(m, len, s1, s2) && exists n :: DifferWithin(m, s1, s2, n))
  {
    StrCmpZeroExact(m, len, s1, s2);
    forall n
      ensures (LoopStrNCmp(m, s1, s2, n) == 0 <==> SameUpTo(m, len, s1, s2, n))
         <==> !(Confused(m, len, s1, s2) && DifferWithin(m, s1, s2, n))
    {
      StrNCmpZeroExact(m, len, s1, s2, n);
    }
  }

  /** In every memory, a strlen that meets its axioms and with which the loops meet theirs everywhere. */
  lemma AxiomsAreMet(m: Memory)
    ensures MeetsStrLenAxioms(m, Apart(m))
    ensures forall s1, s2 :: LoopsMeetAxioms(m, Apart(m), s1, s2)
  {
    BothAreStrLen(m);
    forall s1, s2
      ensures LoopsMeetAxioms(m, Apart(m), s1, s2)
    {
      LoopsMeetExact(m, Apart(m), s1, s2);
      if Confused(m, Apart(m), s1, s2) { ApartIsInjective(m, s1, s2); }
    }
  }

  lemma ApartIsInjective(m: Memory, s1: int, s2: int)
    requires Confused(m, Apart(m), s1, s2)
    ensures s1 == s2
  {
  }

  /** With a strlen that is the same for both strings, the axioms ask for 0 where the loops return -1. */
  lemma UnterminatedFails(m: Memory, len: int -> int)
    requires (forall q :: m(q) == if q == 0 then 1 else 2) && MeetsStrLenAxioms(m, len) && len(0) == len(1)
    ensures LoopStrCmp(m, 0, 1) == Some(-1) && SameStrings(m, len, 0, 1)
    ensures LoopStrNCmp(m, 0, 1, 1) == -1 && SameUpTo(m, len, 0, 1, 1)
  {
    assert !Terminates(m, 0) && !Terminates(m, 1);
    assert !SameAt(m, 0, m, 1, 0);
    assert FirstStop(m, 0, 1, 0);
  }

  /** The unguarded memcmp_strlen_left forces such a strlen on all strings that do not end. */
  lemma UnguardedConfuses(m: Memory, len: int -> int, s1: int, s2: int, n: int)
    requires MeetsStrLenAxioms(m, len) && LeftAxiom(m, len)
    requires !Terminates(m, s1) && !Terminates(m, s2) && DifferWithin(m, s1, s2, n)
    ensures !LoopsMeetAxioms(m, len, s1, s2)
  {
    assert MemCmpStrLenLeft(m, len, s1, s2, 0);
    LoopsMeetExact(m, len, s1, s2);
  }

  // ----- The C loops meet the axioms -----

  /** The unbounded memory m agrees with the flat memory of the C routines. */
  ghost predicate Extends(m: Memory, mem: seq<Byte>) {
    forall q :: 0 <= q < |mem| ==> m(q) == mem[q]
  }

  /** On a terminated string the loop returns what any strlen must be. */
  lemma StrLenMeetsAxioms(m: Memory, len: int -> int, mem: seq<Byte>, s: nat)
    requires MeetsStrLenAxioms(m, len) && Extends(m, mem) && Terminated(mem, s)
    ensures Terminates(m, s) && len(s) == Run(mem, s)
  {
    forall j | 0 <= j < Run(mem, s)
      ensures !ZeroAt(m, s, j)
    {
      assert m(s + j) == mem[s + j];
    }
    assert LeastZero(m, s, Run(mem, s));
  }

  /** x is the string of m at s, cut off after n bytes. */
  ghost predicate HoldsString(m: Memory, s: int, x: seq<Byte>, n: nat) {
    && |x| <= n
    && (forall k :: 0 <= k < |x| ==> x[k] == m(s + k) && x[k] != 0)
    && (|x| < n ==> m(s + |x|) == 0)
  }

  lemma {:induction false} StrNCmpLoop(m: Memory, s1: int, s2: int, n: nat, x: seq<Byte>, y: seq<Byte>, i: nat)
    requires HoldsString(m, s1, x, n) && HoldsString(m, s2, y, n)
    requires i <= |x| && i <= |y| && forall j :: 0 <= j < i ==> !StopsAt(m, s1, s2, j)
    ensures Compare(x[i..], y[i..]) == LoopStrNCmp(m, s1, s2, n)
    decreases n - i
  {
    if i < n {
      if StopsAt(m, s1, s2, i) {
        assert FirstStop(m, s1, s2, i);
      } else {
        assert x[i..][1..] == x[i + 1..] && y[i..][1..] == y[i + 1..];
        StrNCmpLoop(m, s1, s2, n, x, y, i + 1);
      }
    }
  }

  lemma CStrNHolds(m: Memory, mem: seq<Byte>, s: nat, n: nat)
    requires Extends(m, mem) && ReadableNString(mem, s, n, AnyAddress)
    ensures HoldsString(m, s, CStrN(mem, s, n), n)
  {
  }

  lemma StrNCmpOnArray(m: Memory, mem: seq<Byte>, s1: nat, s2: nat, n: nat)
    requires Extends(m, mem)
    requires ReadableNString(mem, s1, n, AnyAddress) && ReadableNString(mem, s2, n, AnyAddress)
    ensures Compare(CStrN(mem, s1, n), CStrN(mem, s2, n)) == LoopStrNCmp(m, s1, s2, n)
  {
    var x, y := CStrN(mem, s1, n), CStrN(mem, s2, n);
    CStrNHolds(m, mem, s1, n);
    CStrNHolds(m, mem, s2, n);
    StrNCmpLoop(m, s1, s2, n, x, y, 0);
    assert x[0..] == x && y[0..] == y;
  }

  /** The result of strncmp on n readable bytes or a string, against the axiom strncmp_zero. */
  lemma StrNCmpMeetsAxiom(m: Memory, len: int -> int, mem: seq<Byte>, s1: nat, s2: nat, n: nat)
    requires MeetsStrLenAxioms(m, len) && Extends(m, mem)
    requires ReadableNString(mem, s1, n, AnyAddress) && ReadableNString(mem, s2, n, AnyAddress)
    ensures (Compare(CStrN(mem, s1, n), CStrN(mem, s2, n)) == 0 <==> SameUpTo(m, len, s1, s2, n))
       <==> !(Confused(m, len, s1, s2) && DifferWithin(m, s1, s2, n))
  {
    StrNCmpOnArray(m, mem, s1, s2, n);
    StrNCmpZeroExact(m, len, s1, s2, n);
  }

  /** The loop on the flat memory is the one on m: it returns the value of `Compare`. */
  lemma StrCmpLoop(m: Memory, mem: seq<Byte>, s1: nat, s2: nat)
    requires Extends(m, mem) && Terminated(mem, s1) && Terminated(mem, s2)
    ensures LoopStrCmp(m, s1, s2) == Some(Compare(CStr(mem, s1), CStr(mem, s2)))
  {
    var n := |mem|;
    StrNCmpOnArray(m, mem, s1, s2, n);
    StrNCmpIsStrCmp(mem, s1, s2, n);
    LoopsAgree(m, s1, s2, Run(mem, s1), n);
  }

  /** A NUL of s1 below n stops both loops at the same place. */
  lemma LoopsAgree(m: Memory, s1: int, s2: int, len: nat, n: int)
    requires ZeroAt(m, s1, len) && len < n
    ensures LoopStrCmp(m, s1, s2) == Some(LoopStrNCmp(m, s1, s2, n))
  {
    assert StopsAt(m, s1, s2, len);
    var j := FirstStopExists(m, s1, s2, len);
  }

  /** strcmp on terminated strings meets the axiom strcmp_zero. */
  lemma StrCmpMeetsAxiom(m: Memory, len: int -> int, mem: seq<Byte>, s1: nat, s2: nat)
    requires MeetsStrLenAxioms(m, len) && Extends(m, mem) && Terminated(mem, s1) && Terminated(mem, s2)
    ensures Compare(CStr(mem, s1), CStr(mem, s2)) == 0 <==> SameStrings(m, len, s1, s2)
  {
    StrCmpLoop(m, mem, s1, s2);
    StrLenMeetsAxioms(m, len, mem, s1);
    StrCmpZeroExact(m, len, s1, s2);
  }

  predicate ByteAt(m: Memory, s: int, i: int, b: Byte) { m(s + i) == b }

  /** strchr on a terminated string finds a byte exactly when strchr_def says it is there. */
  lemma StrChrMeetsAxiom(m: Memory, len: int -> int, mem: seq<Byte>, s: nat, c: int)
    requires MeetsStrLenAxioms(m, len) && Extends(m, mem) && Terminated(mem, s)
    ensures First(mem, s, s + Run(mem, s) + 1, ToByte(c)).Some?
       <==> exists i :: 0 <= i <= len(s) && ByteAt(m, s, i, ToByte(c))
  {
    StrLenMeetsAxioms(m, len, mem, s);
    var found := First(mem, s, s + Run(mem, s) + 1, ToByte(c));
    if found.Some? {
      assert ByteAt(m, s, found.value - s, ToByte(c));
    } else {
      forall i | 0 <= i <= Run(mem, s)
        ensures !ByteAt(m, s, i, ToByte(c))
      {
        assert m(s + i) == mem[s + i];
      }
    }
  }
}
