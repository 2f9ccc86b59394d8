/** The comparison routines of share/libc/string.c, as orders on string values. */
module StringCompare {
  import opened CMemory

  function Sign(x: int): int { if x < 0 then -1 else if x == 0 then 0 else 1 }

  function Prefix(x: seq<Byte>, n: nat): (r: seq<Byte>) { if n <= |x| then x[..n] else x }

  // ----- Byte-wise comparison of strings (strcmp, strncmp) -----

  /** Difference at the first position where two terminated strings differ. */
  function Compare(x: seq<Byte>, y: seq<Byte>): (r: int) {
    if x == [] then (if y == [] then 0 else -y[0])
    else if y == [] then x[0]
    else if x[0] != y[0] then x[0] - y[0]
    else Compare(x[1..], y[1..])
  }

  /** x and y agree on their first k bytes, and there x ends or has the smaller byte. */
  predicate LessAt(x: seq<Byte>, y: seq<Byte>, k: nat) {
    k <= |x| && k < |y| && x[..k] == y[..k] && (k == |x| || x[k] < y[k])
  }

  /** Lexicographic order on unsigned bytes. */
  ghost predicate LexLess(x: seq<Byte>, y: seq<Byte>) {
    exists k: nat :: LessAt(x, y, k)
  }

  lemma {:induction false} CompareNegative(x: seq<Byte>, y: seq<Byte>) returns (k: nat)
    requires ZeroFree(y) && Compare(x, y) < 0
    ensures LessAt(x, y, k)
  {
    if x == [] || x[0] != y[0] {
      return 0;
    }
    k := CompareNegative(x[1..], y[1..]);
    k := k + 1;
    assert x[..k] == [x[0]] + x[1..][..k - 1] == y[..k];
  }

  lemma {:induction false} CompareLessAt(x: seq<Byte>, y: seq<Byte>, k: nat)
    requires ZeroFree(y) && LessAt(x, y, k)
    ensures Compare(x, y) < 0
    decreases k
  {
    if k != 0 {
      assert x[..k][0] == y[..k][0];
      assert x[1..][..k - 1] == x[..k][1..] == y[..k][1..] == y[1..][..k - 1];
      CompareLessAt(x[1..], y[1..], k - 1);
    }
  }

  lemma {:induction false} CompareZero(x: seq<Byte>, y: seq<Byte>)
    requires ZeroFree(x) && ZeroFree(y)
    ensures Compare(x, y) == 0 <==> x == y
  {
    if x != [] && y != [] && x[0] == y[0] {
      CompareZero(x[1..], y[1..]);
      assert x == [x[0]] + x[1..] && y == [y[0]] + y[1..];
    }
  }

  lemma {:induction false} CompareSwap(x: seq<Byte>, y: seq<Byte>)
    ensures Compare(x, y) == -Compare(y, x)
  {
    if x != [] && y != [] && x[0] == y[0] {
      CompareSwap(x[1..], y[1..]);
    }
  }

  lemma {:induction false} CompareTransitive(x: seq<Byte>, y: seq<Byte>, z: seq<Byte>)
    requires ZeroFree(x) && ZeroFree(y) && ZeroFree(z)
    requires Compare(x, y) <= 0 && Compare(y, z) <= 0
    ensures Compare(x, z) <= 0
    ensures Compare(x, y) < 0 || Compare(y, z) < 0 ==> Compare(x, z) < 0
  {
    if x != [] && y != [] && z != [] && x[0] == y[0] == z[0] {
      CompareTransitive(x[1..], y[1..], z[1..]);
    }
  }

  /** The sign of strcmp is the lexicographic order, a strict total order on strings. */
  lemma StrCmpOrder(x: seq<Byte>, y: seq<Byte>)
    requires ZeroFree(x) && ZeroFree(y)
    ensures Compare(x, y) < 0 <==> LexLess(x, y)
    ensures Compare(x, y) > 0 <==> LexLess(y, x)
    ensures Compare(x, y) == 0 <==> x == y
  {
    CompareSwap(x, y);
    CompareZero(x, y);
    if Compare(x, y) < 0 { var k := CompareNegative(x, y); }
    if Compare(y, x) < 0 { var k := CompareNegative(y, x); }
    if k: nat :| LessAt(x, y, k) { CompareLessAt(x, y, k); }
    if k: nat :| LessAt(y, x, k) { CompareLessAt(y, x, k); }
  }

  /** The same for two strings in memory. */
  lemma StrCmpSign(mem: seq<Byte>, s1: nat, s2: nat)
    requires Terminated(mem, s1) && Terminated(mem, s2)
    ensures var x, y, r := CStr(mem, s1), CStr(mem, s2), Compare(CStr(mem, s1), CStr(mem, s2));
      (r < 0 <==> LexLess(x, y)) && (r > 0 <==> LexLess(y, x)) && (r == 0 <==> x == y)
  {
    CStrZeroFree(mem, s1);
    CStrZeroFree(mem, s2);
    StrCmpOrder(CStr(mem, s1), CStr(mem, s2));
  }

  lemma {:induction false} BoundedCompare(x: seq<Byte>, y: seq<Byte>, n: nat)
    requires n > |x| || n > |y|
    ensures Compare(Prefix(x, n), Prefix(y, n)) == Compare(x, y)
    decreases n
  {
    if x != [] && y != [] && x[0] == y[0] {
      assert Prefix(x, n)[1..] == Prefix(x[1..], n - 1) && Prefix(y, n)[1..] == Prefix(y[1..], n - 1);
      BoundedCompare(x[1..], y[1..], n - 1);
    }
  }

  /** strncmp with a bound above the shorter length is strcmp. */
  lemma StrNCmpIsStrCmp(mem: seq<Byte>, s1: nat, s2: nat, n: nat)
    requires Terminated(mem, s1) && Terminated(mem, s2)
    requires n > Run(mem, s1) || n > Run(mem, s2)
    ensures Compare(CStrN(mem, s1, n), CStrN(mem, s2, n)) == Compare(CStr(mem, s1), CStr(mem, s2))
  {
    var x, y := CStr(mem, s1), CStr(mem, s2);
    assert CStrN(mem, s1, n) == Prefix(x, n) && CStrN(mem, s2, n) == Prefix(y, n);
    BoundedCompare(x, y, n);
  }

  /** The byte of a string at i, its terminator included. */
  function At(x: seq<Byte>, i: nat): Byte { if i < |x| then x[i] else 0 }

  /** Strings that agree below i and part there: the comparison is decided at i. */
  lemma {:induction false} CompareDecided(x: seq<Byte>, y: seq<Byte>, i: nat)
    requires i <= |x| && i <= |y| && forall k :: 0 <= k < i ==> x[k] == y[k]
    requires i == |x| || i == |y| || x[i] != y[i]
    ensures Compare(x, y) == At(x, i) - At(y, i)
    decreases i
  {
    if i != 0 { CompareDecided(x[1..], y[1..], i - 1); }
  }

  method StrCmp(a: array<Byte>, s1: nat, s2: nat, ghost ok: iset<int>) returns (r: int)
    requires ReadableString(a[..], s1, ok) && ReadableString(a[..], s2, ok)
    ensures r == Compare(CStr(a[..], s1), CStr(a[..], s2))
  {
    ghost var x, y := CStr(a[..], s1), CStr(a[..], s2);
    var i := 0;
    while Load(a, ok, s1 + i) == Load(a, ok, s2 + i)
      invariant i <= |x| && i <= |y| && forall k :: 0 <= k < i ==> x[k] == y[k]
      decreases |x| - i
    {
      if Load(a, ok, s1 + i) == 0 {
        CompareDecided(x, y, i);
        return 0;
      }
      i := i + 1;
    }
    CompareDecided(x, y, i);
    return Load(a, ok, s1 + i) - Load(a, ok, s2 + i);
  }

  method StrNCmp(a: array<Byte>, s1: nat, s2: nat, n: nat, ghost ok: iset<int>) returns (r: int)
    requires ReadableNString(a[..], s1, n, ok) && ReadableNString(a[..], s2, n, ok)
    ensures r == Compare(CStrN(a[..], s1, n), CStrN(a[..], s2, n))
  {
    ghost var x, y := CStrN(a[..], s1, n), CStrN(a[..], s2, n);
    for i := 0 to n
      invariant i <= |x| && i <= |y| && forall k :: 0 <= k < i ==> x[k] == y[k]
    {
      assert Load(a, ok, s1 + i) == At(x, i) && Load(a, ok, s2 + i) == At(y, i);
      if Load(a, ok, s1 + i) != Load(a, ok, s2 + i) {
        CompareDecided(x, y, i);
        return Load(a, ok, s1 + i) - Load(a, ok, s2 + i);
      }
      if Load(a, ok, s1 + i) == 0 {
        CompareDecided(x, y, i);
        return 0;
      }
    }
    CompareDecided(x, y, n);
    return 0;
  }

  // ----- Fixed-length comparison (memcmp) -----

  function CompareBytes(x: seq<Byte>, y: seq<Byte>): (r: int)
    requires |x| == |y|
  {
    if x == [] then 0
    else if x[0] != y[0] then x[0] - y[0]
    else CompareBytes(x[1..], y[1..])
  }

  lemma {:induction false} CompareBytesZero(x: seq<Byte>, y: seq<Byte>)
    requires |x| == |y|
    ensures CompareBytes(x, y) == 0 <==> x == y
  {
    if x != [] && x[0] == y[0] {
      CompareBytesZero(x[1..], y[1..]);
      assert x == [x[0]] + x[1..] && y == [y[0]] + y[1..];
    }
  }

  /** Comparing one byte more than the shorter string, terminators included, is strcmp. */
  lemma {:induction false} CompareBytesOfStrings(x: seq<Byte>, y: seq<Byte>, n: nat)
    requires n == 1 + if |x| < |y| then |x| else |y|
    ensures CompareBytes((x + [0])[..n], (y + [0])[..n]) == Compare(x, y)
    decreases n
  {
    var u, v := (x + [0])[..n], (y + [0])[..n];
    if x != [] && y != [] && x[0] == y[0] {
      assert u[1..] == (x[1..] + [0])[..n - 1] && v[1..] == (y[1..] + [0])[..n - 1];
      CompareBytesOfStrings(x[1..], y[1..], n - 1);
    } else {
      assert u[1..] == [] || u[0] != v[0];
    }
  }

  /** memcmp over min(strlen(s1), strlen(s2)) + 1 bytes equals strcmp. */
  lemma MemCmpIsStrCmp(mem: seq<Byte>, s1: nat, s2: nat, n: nat)
    requires Terminated(mem, s1) && Terminated(mem, s2)
    requires n == 1 + if Run(mem, s1) < Run(mem, s2) then Run(mem, s1) else Run(mem, s2)
    ensures CompareBytes(mem[s1..s1 + n], mem[s2..s2 + n]) == Compare(CStr(mem, s1), CStr(mem, s2))
  {
    var x, y := CStr(mem, s1), CStr(mem, s2);
    assert mem[s1..s1 + n] == (x + [0])[..n] && mem[s2..s2 + n] == (y + [0])[..n];
    CompareBytesOfStrings(x, y, n);
  }

  lemma {:induction false} CompareBytesDecided(x: seq<Byte>, y: seq<Byte>, i: nat)
    requires |x| == |y| && i <= |x| && forall k :: 0 <= k < i ==> x[k] == y[k]
    requires i == |x| || x[i] != y[i]
    ensures CompareBytes(x, y) == At(x, i) - At(y, i)
    decreases i
  {
    if i != 0 { CompareBytesDecided(x[1..], y[1..], i - 1); }
  }

  method MemCmp(a: array<Byte>, s1: nat, s2: nat, n: nat, ghost ok: iset<int>) returns (r: int)
    requires s1 + n <= a.Length && s2 + n <= a.Length
    requires Readable(ok, s1, s1 + n) && Readable(ok, s2, s2 + n)
    ensures r == CompareBytes(a[s1..s1 + n], a[s2..s2 + n])
  {
    ghost var x, y := a[s1..s1 + n], a[s2..s2 + n];
    for i := 0 to n
      invariant forall k :: 0 <= k < i ==> x[k] == y[k]
    {
      if Load(a, ok, s1 + i) != Load(a, ok, s2 + i) {
        CompareBytesDecided(x, y, i);
        return Load(a, ok, s1 + i) - Load(a, ok, s2 + i);
      }
    }
    CompareBytesDecided(x, y, n);
    return 0;
  }

  // ----- Comparison ignoring case (strcasecmp) -----

  /** ASCII lower case, as char_equal_ignore_case computes it. */
  function Fold(c: Byte): Byte {
    if 'A' as int <= c <= 'Z' as int then c - ('A' as int - 'a' as int) else c
  }

  /** On a mismatch the first byte is subtracted from the second. */
  function CharEqualIgnoreCase(c1: Byte, c2: Byte): (r: int) {
    Fold(c2) - Fold(c1)
  }

  function FoldAll(x: seq<Byte>): (r: seq<Byte>)
    ensures |r| == |x| && forall i :: 0 <= i < |x| ==> r[i] == Fold(x[i])
  {
    if x == [] then [] else [Fold(x[0])] + FoldAll(x[1..])
  }

  /** strcasecmp as written: the first mismatch decides, else the shorter string is smaller. */
  function CaseCompare(x: seq<Byte>, y: seq<Byte>): (r: int) {
    if x == [] then (if y == [] then 0 else -1)
    else if y == [] then 1
    else if Fold(x[0]) != Fold(y[0]) then CharEqualIgnoreCase(x[0], y[0])
    else CaseCompare(x[1..], y[1..])
  }

  lemma {:induction false} CaseCompareZero(x: seq<Byte>, y: seq<Byte>)
    ensures CaseCompare(x, y) == 0 <==> FoldAll(x) == FoldAll(y)
  {
    if x != [] && y != [] && Fold(x[0]) == Fold(y[0]) {
      CaseCompareZero(x[1..], y[1..]);
      assert FoldAll(x)[1..] == FoldAll(x[1..]) && FoldAll(y)[1..] == FoldAll(y[1..]);
    } else if x != [] && y != [] {
      assert FoldAll(x)[0] != FoldAll(y)[0];
    }
  }

  lemma {:induction false} CaseCompareSwap(x: seq<Byte>, y: seq<Byte>)
    ensures CaseCompare(x, y) == -CaseCompare(y, x)
  {
    if x != [] && y != [] && Fold(x[0]) == Fold(y[0]) {
      CaseCompareSwap(x[1..], y[1..]);
    }
  }

  lemma {:induction false} CaseCompareTransitive(x: seq<Byte>, y: seq<Byte>, z: seq<Byte>)
    requires CaseCompare(x, y) <= 0 && CaseCompare(y, z) <= 0
    ensures CaseCompare(x, z) <= 0
    ensures CaseCompare(x, y) < 0 || CaseCompare(y, z) < 0 ==> CaseCompare(x, z) < 0
  {
    if x != [] && y != [] && z != [] && Fold(x[0]) == Fold(y[0]) == Fold(z[0]) {
      CaseCompareTransitive(x[1..], y[1..], z[1..]);
    }
  }

  /** Equal strings stay equal when case is ignored. */
  lemma EqualIgnoringCase(x: seq<Byte>, y: seq<Byte>)
    requires ZeroFree(x) && ZeroFree(y) && Compare(x, y) == 0
    ensures CaseCompare(x, y) == 0
  {
    CompareZero(x, y);
    CaseCompareZero(x, y);
  }

  /**
   * POSIX asks for the sign of strcmp on the lower-cased strings.  The code gives that sign
   * exactly when one folded string is a prefix of the other, and the opposite sign otherwise.
   */
  lemma {:induction false} CaseCompareSign(x: seq<Byte>, y: seq<Byte>)
    requires ZeroFree(x) && ZeroFree(y)
    ensures var posix := Sign(Compare(FoldAll(x), FoldAll(y)));
      && (Sign(CaseCompare(x, y)) == posix <==> FoldAll(x) <= FoldAll(y) || FoldAll(y) <= FoldAll(x))
      && (Sign(CaseCompare(x, y)) == posix || Sign(CaseCompare(x, y)) == -posix)
  {
    var u, v := FoldAll(x), FoldAll(y);
    if x != [] && y != [] && Fold(x[0]) == Fold(y[0]) {
      CaseCompareSign(x[1..], y[1..]);
      assert u[1..] == FoldAll(x[1..]) && v[1..] == FoldAll(y[1..]);
      assert u <= v <==> u[1..] <= v[1..];
      assert v <= u <==> v[1..] <= u[1..];
    }
  }

  /** "a" against "b" gives a positive result, where POSIX asks for a negative one. */
  lemma CaseCompareReversed()
    ensures CaseCompare(['a' as int], ['b' as int]) > 0 > Compare(['a' as int], ['b' as int])
  {
  }

  /** Result of the comparison at the position i that decides it. */
  function CaseAt(x: seq<Byte>, y: seq<Byte>, i: nat): int
    requires i <= |x| && i <= |y|
  {
    if i < |x| && i < |y| then CharEqualIgnoreCase(x[i], y[i]) else if i < |x| then 1 else if i < |y| then -1 else 0
  }

  lemma {:induction false} CaseCompareDecided(x: seq<Byte>, y: seq<Byte>, i: nat)
    requires i <= |x| && i <= |y| && forall k :: 0 <= k < i ==> Fold(x[k]) == Fold(y[k])
    requires i == |x| || i == |y| || Fold(x[i]) != Fold(y[i])
    ensures CaseCompare(x, y) == CaseAt(x, y, i)
    decreases i
  {
    if i != 0 { CaseCompareDecided(x[1..], y[1..], i - 1); }
  }

  /** Two bytes are the same letter up to case, in numbers. */
  lemma FoldMeaning(a: Byte, b: Byte)
    ensures Fold(a) == Fold(b) <==>
      a == b || (65 <= a <= 90 && b == a + 32) || (65 <= b <= 90 && a == b + 32)
  {
  }

  /**
   * In numbers: zero exactly for strings of the same length whose bytes are pairwise equal, or a capital
   * and its small letter.
   */
  lemma CaseCompareZeroMeaning(x: seq<Byte>, y: seq<Byte>)
    ensures CaseCompare(x, y) == 0 <==>
      && |x| == |y|
      && forall i :: 0 <= i < |x| ==>
           x[i] == y[i] || (65 <= x[i] <= 90 && y[i] == x[i] + 32) || (65 <= y[i] <= 90 && x[i] == y[i] + 32)
  {
    CaseCompareZero(x, y);
    forall i | 0 <= i < |x| && i < |y|
      ensures FoldAll(x)[i] == FoldAll(y)[i] <==>
        x[i] == y[i] || (65 <= x[i] <= 90 && y[i] == x[i] + 32) || (65 <= y[i] <= 90 && x[i] == y[i] + 32)
    {
      FoldMeaning(x[i], y[i]);
    }
  }

  /**
   * In numbers: the first position i where this fails decides by the small letters, the second minus the
   * first; without one the shorter string is smaller.
   */
  lemma CaseCompareMeaning(x: seq<Byte>, y: seq<Byte>, i: nat)
    requires i <= |x| && i <= |y|
    requires forall k :: 0 <= k < i ==>
      x[k] == y[k] || (65 <= x[k] <= 90 && y[k] == x[k] + 32) || (65 <= y[k] <= 90 && x[k] == y[k] + 32)
    ensures i == |x| < |y| ==> CaseCompare(x, y) == -1
    ensures i == |y| < |x| ==> CaseCompare(x, y) == 1
    ensures i < |x| && i < |y|
      && x[i] != y[i] && !(65 <= x[i] <= 90 && y[i] == x[i] + 32) && !(65 <= y[i] <= 90 && x[i] == y[i] + 32)
      ==> CaseCompare(x, y) == (if 65 <= y[i] <= 90 then y[i] + 32 else y[i]) as int
                             - (if 65 <= x[i] <= 90 then x[i] + 32 else x[i]) as int
  {
    forall k | 0 <= k < i ensures Fold(x[k]) == Fold(y[k]) { FoldMeaning(x[k], y[k]); }
    if i < |x| && i < |y| { FoldMeaning(x[i], y[i]); }
    if i == |x| || i == |y| || Fold(x[i]) != Fold(y[i]) { CaseCompareDecided(x, y, i); }
  }

  method StrCaseCmp(a: array<Byte>, s1: nat, s2: nat, ghost ok: iset<int>) returns (r: int)
    requires ReadableString(a[..], s1, ok) && ReadableString(a[..], s2, ok)
    ensures r == CaseCompare(CStr(a[..], s1), CStr(a[..], s2))
  {
    ghost var x, y := CStr(a[..], s1), CStr(a[..], s2);
    var i := 0;
    while Load(a, ok, s1 + i) != 0 && Load(a, ok, s2 + i) != 0
      invariant i <= |x| && i <= |y| && forall k :: 0 <= k < i ==> Fold(x[k]) == Fold(y[k])
      decreases |x| - i
    {
      var res := CharEqualIgnoreCase(Load(a, ok, s1 + i), Load(a, ok, s2 + i));
      if res != 0 {
        CaseCompareDecided(x, y, i);
        return res;
      }
      i := i + 1;
    }
    assert Load(a, ok, s1 + i) == At(x, i) && Load(a, ok, s2 + i) == At(y, i);
    CaseCompareDecided(x, y, i);
    if Load(a, ok, s1 + i) == 0 && Load(a, ok, s2 + i) == 0 {
      return 0;
    } else if Load(a, ok, s1 + i) == 0 {
      return -1;
    } else {
      return 1;
    }
  }
}
