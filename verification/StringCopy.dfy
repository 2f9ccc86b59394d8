/** The copying routines of share/libc/string.c, on overlapping memory. */
module StringCopy {
  import opened CMemory
  import opened StringSearch

  // ----- Reference: the move as one indivisible step -----

  /** r is mem with the n bytes at dest replaced by those at src. */
  ghost predicate IsMoved(mem: seq<Byte>, dest: nat, src: nat, n: nat, r: seq<Byte>)
    requires dest + n <= |mem| && src + n <= |mem|
  {
    && |r| == |mem|
    && (forall q :: dest <= q < dest + n ==> r[q] == mem[q - dest + src])
    && (forall q :: 0 <= q < |mem| && !(dest <= q < dest + n) ==> r[q] == mem[q])
  }

  /** Memory after the `n` bytes at `src` have been moved to `dest` all at once. */
  ghost function Moved(mem: seq<Byte>, dest: nat, src: nat, n: nat): (r: seq<Byte>)
    requires dest + n <= |mem| && src + n <= |mem|
    ensures IsMoved(mem, dest, src, n, r)
  {
    assert IsMoved(mem, dest, src, n, mem[..dest] + mem[src..src + n] + mem[dest + n..]);
    var r :| IsMoved(mem, dest, src, n, r);
    r
  }

  // ----- Byte-at-a-time copying -----

  /** Memory after `i` rounds of the ascending copy. */
  function CopyUp(mem: seq<Byte>, dest: nat, src: nat, i: nat): (r: seq<Byte>)
    requires dest + i <= |mem| && src + i <= |mem|
    ensures |r| == |mem|
  {
    if i == 0 then mem else
      var m := CopyUp(mem, dest, src, i - 1);
      m[dest + i - 1 := m[src + i - 1]]
  }

  /** Memory after the descending loop has written the positions n-1, ..., n-i. */
  function CopyDown(mem: seq<Byte>, dest: nat, src: nat, n: nat, i: nat): (r: seq<Byte>)
    requires i <= n && dest + n <= |mem| && src + n <= |mem|
    ensures |r| == |mem|
  {
    if i == 0 then mem else
      var m := CopyDown(mem, dest, src, n, i - 1);
      m[dest + n - i := m[src + n - i]]
  }

  lemma MovedStep(mem: seq<Byte>, dest: nat, src: nat, i: nat)
    requires dest + i < |mem| && src + i < |mem|
    ensures Moved(mem, dest, src, i)[dest + i := mem[src + i]] == Moved(mem, dest, src, i + 1)
  {
  }

  lemma {:induction false} CopyUpMoves(mem: seq<Byte>, dest: nat, src: nat, n: nat)
    requires dest + n <= |mem| && src + n <= |mem|
    requires !(src < dest < src + n)
    ensures CopyUp(mem, dest, src, n) == Moved(mem, dest, src, n)
  {
    if n != 0 {
      CopyUpMoves(mem, dest, src, n - 1);
      MovedStep(mem, dest, src, n - 1);
    }
  }

  lemma {:induction false} CopyDownMoves(mem: seq<Byte>, dest: nat, src: nat, n: nat, i: nat)
    requires i <= n && dest + n <= |mem| && src + n <= |mem|
    requires !(dest < src < dest + n)
    ensures CopyDown(mem, dest, src, n, i) == Moved(mem, dest + n - i, src + n - i, i)
  {
    if i != 0 {
      CopyDownMoves(mem, dest, src, n, i - 1);
    }
  }

  /**
   * Copying up onto a range that starts above the source leaves memory periodic: every byte
   * written repeats the byte dest-src positions below it.
   */
  lemma {:induction false} CopyUpSmears(mem: seq<Byte>, dest: nat, src: nat, n: nat)
    requires src < dest && dest + n <= |mem|
    ensures var r := CopyUp(mem, dest, src, n);
      && r[..dest] == mem[..dest]
      && forall q :: dest <= q < dest + n ==> r[q] == r[q - (dest - src)]
  {
    if n != 0 {
      CopyUpSmears(mem, dest, src, n - 1);
    }
  }

  /** A memory content that the ascending copy does not move when dest is strictly inside src. */
  lemma CopyUpFails(size: nat, dest: nat, src: nat, n: nat) returns (mem: seq<Byte>)
    requires dest + n <= size && src < dest < src + n
    ensures |mem| == size
    ensures CopyUp(mem, dest, src, n) != Moved(mem, dest, src, n)
  {
    mem := seq(size, q => if q == src then 1 else 0);
    CopyUpSmears(mem, dest, src, n);
    var up := CopyUp(mem, dest, src, n);
    var q := dest + (dest - src);
    assert up[q] == up[dest] == up[src];
    assert up[..dest][src] == 1;
  }

  /**
   * The ascending copy is a move for every memory content exactly when the destination does
   * not start strictly inside the source.
   */
  lemma CopyUpExact(size: nat, dest: nat, src: nat, n: nat)
    requires dest + n <= size && src + n <= size
    ensures (forall mem: seq<Byte> | |mem| == size :: CopyUp(mem, dest, src, n) == Moved(mem, dest, src, n))
       <==> !(src < dest < src + n)
  {
    if src < dest < src + n {
      var mem := CopyUpFails(size, dest, src, n);
    } else {
      forall mem: seq<Byte> | |mem| == size
        ensures CopyUp(mem, dest, src, n) == Moved(mem, dest, src, n)
      {
        CopyUpMoves(mem, dest, src, n);
      }
    }
  }

  // ----- memcpy, memoverlap, memmove -----

  const UINTPTR_LIMIT: nat := 0x1_0000_0000_0000_0000

  /** share/libc/string.c memoverlap, with the wrap-around of uintptr_t written out. */
  function MemOverlap(p: nat, q: nat, n: nat): (r: int) {
    var p2, q2 := (p + n) % UINTPTR_LIMIT, (q + n) % UINTPTR_LIMIT;
    if p <= q && p2 > q then -1
    else if q <= p && q2 > p then 1
    else 0
  }

  predicate Within(x: int, p: int, n: int) {
    p <= x < p + n
  }

  /** No address lies in both ranges. */
  ghost predicate Separated(p: int, n: int, q: int, m: int) {
    forall x :: !(Within(x, p, n) && Within(x, q, m))
  }

  /** Ranges that do not wrap around: the result names overlap and order, and only those. */
  lemma MemOverlapMeaning(p: nat, q: nat, n: nat)
    requires p + n < UINTPTR_LIMIT && q + n < UINTPTR_LIMIT
    ensures MemOverlap(p, q, n) == 0 <==> Separated(p, n, q, n)
    ensures MemOverlap(p, q, n) == -1 <==> !Separated(p, n, q, n) && p <= q
    ensures MemOverlap(p, q, n) == 1 <==> !Separated(p, n, q, n) && q < p
  {
    if p <= q < p + n {
      assert Within(q, p, n) && Within(q, q, n);
    } else if q <= p < q + n {
      assert Within(p, p, n) && Within(p, q, n);
    }
  }

  /** memmove copies up exactly where the ascending copy is a move for every memory content. */
  lemma DirectionExact(size: nat, dest: nat, src: nat, n: nat)
    requires dest + n <= size && src + n <= size < UINTPTR_LIMIT
    ensures MemOverlap(dest, src, n) <= 0
       <==> forall mem: seq<Byte> | |mem| == size :: CopyUp(mem, dest, src, n) == Moved(mem, dest, src, n)
  {
    CopyUpExact(size, dest, src, n);
  }

  method MemCpy(a: array<Byte>, dest: nat, src: nat, n: nat)
    requires dest + n <= a.Length && src + n <= a.Length
    modifies a
    ensures a[..] == CopyUp(old(a[..]), dest, src, n)
    ensures !(src < dest < src + n) ==> a[..] == Moved(old(a[..]), dest, src, n)
  {
    ghost var was := a[..];
    for i := 0 to n
      invariant a[..] == CopyUp(was, dest, src, i)
    {
      a[dest + i] := a[src + i];
    }
    if !(src < dest < src + n) {
      CopyUpMoves(was, dest, src, n);
    }
  }

  method MemMove(a: array<Byte>, dest: nat, src: nat, n: nat)
    requires dest + n <= a.Length && src + n <= a.Length < UINTPTR_LIMIT
    modifies a
    ensures a[..] == Moved(old(a[..]), dest, src, n)
  {
    ghost var was := a[..];
    if n == 0 {
      return;
    }
    var overlap := MemOverlap(dest, src, n);
    assert overlap <= 0 <==> !(src < dest < src + n);
    if overlap <= 0 {
      for i := 0 to n
        invariant a[..] == CopyUp(was, dest, src, i)
      {
        a[dest + i] := a[src + i];
      }
      CopyUpMoves(was, dest, src, n);
    } else {
      var i := n - 1;
      while i > 0
        invariant 0 <= i < n
        invariant a[..] == CopyDown(was, dest, src, n, n - 1 - i)
      {
        a[dest + i] := a[src + i];
        i := i - 1;
      }
      a[dest] := a[src];
      CopyDownMoves(was, dest, src, n, n);
    }
  }

  // ----- strcpy and strcat -----

  /**
   * The string copy from index `i` on: byte by byte upwards until a NUL is read, which is written
   * too.  None for an access outside memory.
   */
  function CopyString(mem: seq<Byte>, dest: nat, src: nat, i: nat): (r: Option<seq<Byte>>)
    decreases |mem| - (src + i)
  {
    if src + i >= |mem| || dest + i >= |mem| then None
    else if mem[src + i] == 0 then Some(mem[dest + i := 0])
    else CopyString(mem[dest + i := mem[src + i]], dest, src, i + 1)
  }

  /** Enough room, and the destination does not start inside the source or on its terminator. */
  ghost predicate CopyStringSafe(mem: seq<Byte>, dest: nat, src: nat) {
    && Terminated(mem, src)
    && dest + Run(mem, src) < |mem|
    && !(src < dest <= src + Run(mem, src))
  }

  lemma {:induction false} CopyStringMoves(mem: seq<Byte>, dest: nat, src: nat, i: nat)
    requires CopyStringSafe(mem, dest, src) && i <= Run(mem, src)
    ensures CopyString(Moved(mem, dest, src, i), dest, src, i) == Some(Moved(mem, dest, src, Run(mem, src) + 1))
    decreases Run(mem, src) - i
  {
    var m := Moved(mem, dest, src, i);
    MovedStep(mem, dest, src, i);
    assert m[src + i] == mem[src + i];
    if i < Run(mem, src) {
      assert CopyString(m, dest, src, i) == CopyString(m[dest + i := m[src + i]], dest, src, i + 1);
      CopyStringMoves(mem, dest, src, i + 1);
    } else {
      assert CopyString(m, dest, src, i) == Some(m[dest + i := m[src + i]]);
    }
  }

  /** Once no NUL lies in [src+i, dest+i) the loop carries that gap along and never stops. */
  lemma {:induction false} CopyStringRunsOff(mem: seq<Byte>, dest: nat, src: nat, i: nat)
    requires src < dest
    requires forall q :: src + i <= q < dest + i && q < |mem| ==> mem[q] != 0
    ensures CopyString(mem, dest, src, i) == None
    decreases |mem| - (src + i)
  {
    if dest + i < |mem| {
      CopyStringRunsOff(mem[dest + i := mem[src + i]], dest, src, i + 1);
    }
  }

  /** If no NUL lies below an index the loop cannot reach inside memory, it leaves memory. */
  lemma {:induction false} CopyStringLeaves(mem: seq<Byte>, dest: nat, src: nat, i: nat, stop: nat)
    requires i <= stop && (src + stop >= |mem| || dest + stop >= |mem|)
    requires forall q :: src + i <= q < src + stop && q < |mem| ==> mem[q] != 0
    ensures CopyString(mem, dest, src, i) == None
    decreases |mem| - (src + i)
  {
    if src + i < |mem| && dest + i < |mem| {
      CopyStringLeaves(mem[dest + i := mem[src + i]], dest, src, i + 1, stop);
    }
  }

  /**
   * strcpy(dest, src) finishes exactly when src is terminated, the copy fits and dest does not
   * start strictly above src within src's bytes; and then it is the move of strlen(src)+1 bytes.
   */
  lemma StrCpyExact(mem: seq<Byte>, dest: nat, src: nat)
    ensures CopyString(mem, dest, src, 0).Some? <==> CopyStringSafe(mem, dest, src)
    ensures CopyStringSafe(mem, dest, src) ==>
      CopyString(mem, dest, src, 0) == Some(Moved(mem, dest, src, Run(mem, src) + 1))
  {
    if CopyStringSafe(mem, dest, src) {
      assert Moved(mem, dest, src, 0) == mem;
      CopyStringMoves(mem, dest, src, 0);
    } else if src <= |mem| && dest <= |mem| {
      var len := Run(mem, src);
      if src < dest <= src + len {
        CopyStringRunsOff(mem, dest, src, 0);
      } else {
        CopyStringLeaves(mem, dest, src, 0, len);
      }
    }
  }

  lemma MovedSlice(mem: seq<Byte>, start: nat, dest: nat, src: nat, len: nat)
    requires start <= dest && dest + len < |mem| && src + len < |mem|
    ensures Moved(mem, dest, src, len + 1)[start..dest + len] == mem[start..dest] + mem[src..src + len]
  {
  }

  lemma MovedRun(mem: seq<Byte>, start: nat, dest: nat, src: nat, len: nat)
    requires start <= dest && dest + len < |mem| && src + len < |mem|
    requires mem[src + len] == 0 && forall q :: src <= q < src + len ==> mem[q] != 0
    requires forall q :: start <= q < dest ==> mem[q] != 0
    ensures Run(Moved(mem, dest, src, len + 1), start) == dest + len - start
  {
    RunIs(Moved(mem, dest, src, len + 1), start, dest + len - start);
  }

  lemma SliceIsString(r: seq<Byte>, start: nat, end: nat, s: seq<Byte>)
    requires start <= end < |r| && Run(r, start) == end - start && r[start..end] == s
    ensures Terminated(r, start) && CStr(r, start) == s
  {
  }

  /** The string at `start` after the bytes of src and its terminator have been moved to `dest`. */
  lemma MovedString(mem: seq<Byte>, start: nat, dest: nat, src: nat, len: nat)
    requires start <= dest && dest + len < |mem| && src + len < |mem|
    requires mem[src + len] == 0 && forall q :: src <= q < src + len ==> mem[q] != 0
    requires forall q :: start <= q < dest ==> mem[q] != 0
    ensures var r := Moved(mem, dest, src, len + 1);
      Terminated(r, start) && CStr(r, start) == mem[start..dest] + mem[src..src + len]
  {
    MovedRun(mem, start, dest, src, len);
    MovedSlice(mem, start, dest, src, len);
    SliceIsString(Moved(mem, dest, src, len + 1), start, dest + len, mem[start..dest] + mem[src..src + len]);
  }

  /** The loop that strcpy and strcat share, in place, for a source string of length `len`. */
  method CopyTerminated(a: array<Byte>, dest: nat, src: nat, ghost len: nat)
    requires src + len < a.Length && dest + len < a.Length
    requires a[src + len] == 0 && forall q :: src <= q < src + len ==> a[q] != 0
    requires !(src < dest <= src + len)
    modifies a
    ensures a[..] == Moved(old(a[..]), dest, src, len + 1)
  {
    var i := 0;
    while a[src + i] != 0
      invariant i <= len
      invariant forall q :: 0 <= q < a.Length ==>
        a[q] == old(if dest <= q < dest + i then a[q - dest + src] else a[q])
      decreases len - i
    {
      assert a[src + i] == old(a[src + i]);
      a[dest + i] := a[src + i];
      i := i + 1;
    }
    a[dest + i] := 0;
  }

  /** After strcpy the string at dest is the string that was at src. */
  lemma StrCpyString(mem: seq<Byte>, dest: nat, src: nat)
    requires CopyStringSafe(mem, dest, src)
    ensures var r := Moved(mem, dest, src, Run(mem, src) + 1);
      Terminated(r, dest) && CStr(r, dest) == CStr(mem, src)
  {
    MovedString(mem, dest, dest, src, Run(mem, src));
  }

  method StrCpy(a: array<Byte>, dest: nat, src: nat)
    requires CopyStringSafe(a[..], dest, src)
    modifies a
    ensures a[..] == Moved(old(a[..]), dest, src, old(Run(a[..], src)) + 1)
  {
    CopyTerminated(a, dest, src, Run(a[..], src));
  }

  /** The room strcat needs, and no terminator shared with a non-empty src. */
  ghost predicate StrCatSafe(mem: seq<Byte>, dest: nat, src: nat) {
    && Terminated(mem, dest) && Terminated(mem, src)
    && dest + Run(mem, dest) + Run(mem, src) < |mem|
    && (dest + Run(mem, dest) != src + Run(mem, src) || Run(mem, src) == 0)
  }

  /**
   * For terminated arguments, the loop of strcat finishes exactly when there is room and the
   * two strings do not share their terminator (an empty src aside).  Any other overlap is harmless.
   */
  lemma StrCatExact(mem: seq<Byte>, dest: nat, src: nat)
    requires Terminated(mem, dest) && Terminated(mem, src)
    ensures CopyStringSafe(mem, dest + Run(mem, dest), src) <==> StrCatSafe(mem, dest, src)
    ensures CopyString(mem, dest + Run(mem, dest), src, 0).Some? <==> StrCatSafe(mem, dest, src)
  {
    StrCpyExact(mem, dest + Run(mem, dest), src);
  }

  /** After strcat the string at dest is the old dest followed by the old src. */
  lemma StrCatString(mem: seq<Byte>, dest: nat, src: nat)
    requires StrCatSafe(mem, dest, src)
    ensures var r := Moved(mem, dest + Run(mem, dest), src, Run(mem, src) + 1);
      Terminated(r, dest) && CStr(r, dest) == CStr(mem, dest) + CStr(mem, src)
  {
    MovedString(mem, dest, dest + Run(mem, dest), src, Run(mem, src));
  }

  method StrCat(a: array<Byte>, dest: nat, src: nat)
    requires StrCatSafe(a[..], dest, src)
    modifies a
    ensures a[..] == Moved(old(a[..]), dest + old(Run(a[..], dest)), src, old(Run(a[..], src)) + 1)
  {
    var n := StrLen(a, dest, AnyAddress);
    assert a[..] == old(a[..]);
    CopyTerminated(a, dest + n, src, Run(a[..], src));
  }

  // ----- strncpy -----

  /** The n bytes at dest are the `len` bytes at src and NULs; all other bytes are as before. */
  ghost predicate Padded(was: seq<Byte>, now: seq<Byte>, dest: nat, src: nat, n: nat, len: nat)
    requires src + len <= |was|
  {
    |now| == |was| &&
    forall q {:trigger now[q]} :: 0 <= q < |was| ==>
      now[q] == if !(dest <= q < dest + n) then was[q] else if q - dest < len then was[q - dest + src] else 0
  }

  function Zeroed(mem: seq<Byte>, lo: nat, hi: nat): (r: seq<Byte>)
    requires lo <= hi <= |mem|
    ensures |r| == |mem|
    ensures forall q :: 0 <= q < |mem| ==> r[q] == if lo <= q < hi then 0 else mem[q]
  {
    mem[..lo] + seq(hi - lo, _ => 0) + mem[hi..]
  }

  /**
   * The bounded copy from index `i` on: byte by byte upwards until n bytes are written or a NUL is
   * copied, and then NULs up to n bytes.  None for an access outside memory.
   */
  function CopyBounded(mem: seq<Byte>, dest: nat, src: nat, n: nat, i: nat): (r: Option<seq<Byte>>)
    decreases n - i
  {
    if i >= n then Some(mem)
    else if src + i >= |mem| || dest + i >= |mem| then None
    else
      var m := mem[dest + i := mem[src + i]];
      if m[src + i] != 0 then CopyBounded(m, dest, src, n, i + 1)
      else if dest + n <= |m| then Some(Zeroed(m, dest + i, dest + n))
      else None
  }

  /** The first loop of strncpy; i is where it stops, at n or at a NUL that it has copied. */
  method CopyUpToNul(a: array<Byte>, dest: nat, src: nat, n: nat) returns (i: nat)
    requires CopyBounded(a[..], dest, src, n, 0).Some?
    modifies a
    ensures i <= n && (i < n ==> dest + n <= a.Length)
    ensures CopyBounded(old(a[..]), dest, src, n, 0)
         == Some(if i < n then Zeroed(a[..], dest + i, dest + n) else a[..])
  {
    ghost var run := CopyBounded(a[..], dest, src, n, 0);
    i := 0;
    while i < n
      invariant i <= n && run == CopyBounded(a[..], dest, src, n, i)
    {
      ghost var was := a[..];
      a[dest + i] := a[src + i];
      assert a[..] == was[dest + i := was[src + i]];
      if a[src + i] == 0 {
        break;
      }
      i := i + 1;
    }
  }

  method StrNCpy(a: array<Byte>, dest: nat, src: nat, n: nat)
    requires CopyBounded(a[..], dest, src, n, 0).Some?
    modifies a
    ensures CopyBounded(old(a[..]), dest, src, n, 0) == Some(a[..])
  {
    var i := CopyUpToNul(a, dest, src, n);
    ghost var copied, stop := a[..], i;
    while i < n
      invariant stop <= i <= n
      invariant a[..] == if stop < n then Zeroed(copied, dest + stop, dest + i) else copied
    {
      a[dest + i] := 0;
      i := i + 1;
    }
  }

  /** Bytes that `strncpy` has to copy: the string at src, cut off after n bytes. */
  ghost function Cut(mem: seq<Byte>, src: nat, n: nat): (len: nat)
    requires src <= |mem|
    ensures len == |CStrN(mem, src, n)|
  {
    if n <= Run(mem, src) then n else Run(mem, src)
  }

  /** The n bytes at src repeat with the distance from src to dest. */
  ghost predicate Repeats(mem: seq<Byte>, dest: nat, src: nat, n: nat)
    requires src <= dest && src + n <= |mem|
  {
    forall q :: dest <= q < src + n ==> mem[q] == mem[q - (dest - src)]
  }

  /**
   * Room for n bytes, n bytes or a string to read, and a destination that does not start above src
   * in the bytes that are read, unless all n are copied and repeat in the same way anyhow.
   */
  ghost predicate CopyBoundedSafe(mem: seq<Byte>, dest: nat, src: nat, n: nat)
    requires src <= |mem|
  {
    && dest + n <= |mem| && ReadableNString(mem, src, n, AnyAddress)
    && (!(src < dest < src + n && dest <= src + Run(mem, src))
        || (n <= Run(mem, src) && Repeats(mem, dest, src, n)))
  }

  lemma {:induction false} CopyBoundedMoves(mem: seq<Byte>, dest: nat, src: nat, n: nat, i: nat)
    requires src <= |mem| && dest + n <= |mem| && ReadableNString(mem, src, n, AnyAddress)
    requires !(src < dest < src + n && dest <= src + Run(mem, src))
    requires i <= Cut(mem, src, n)
    ensures var r := CopyBounded(Moved(mem, dest, src, i), dest, src, n, i);
      r.Some? && Padded(mem, r.value, dest, src, n, Cut(mem, src, n))
    decreases n - i
  {
    if i < n {
      var m := Moved(mem, dest, src, i);
      assert m[src + i] == mem[src + i];
      MovedStep(mem, dest, src, i);
      if mem[src + i] != 0 {
        CopyBoundedMoves(mem, dest, src, n, i + 1);
      }
    }
  }

  /** An ascending copy of bytes that are not NUL onto a higher start spreads only such bytes. */
  lemma {:induction false} CopyUpNoZero(mem: seq<Byte>, dest: nat, src: nat, i: nat)
    requires src < dest && dest + i <= |mem| && forall q :: src <= q < dest ==> mem[q] != 0
    ensures forall q :: src <= q < dest + i ==> CopyUp(mem, dest, src, i)[q] != 0
  {
    if i != 0 {
      CopyUpNoZero(mem, dest, src, i - 1);
    }
  }

  /** So a bounded copy onto the bytes still to be read goes on up to n. */
  lemma {:induction false} CopyBoundedSmears(mem: seq<Byte>, dest: nat, src: nat, n: nat, i: nat)
    requires src < dest && dest + n <= |mem| && i <= n && forall q :: src <= q < dest ==> mem[q] != 0
    ensures CopyBounded(CopyUp(mem, dest, src, i), dest, src, n, i) == Some(CopyUp(mem, dest, src, n))
    decreases n - i
  {
    if i < n {
      CopyUpNoZero(mem, dest, src, i);
      var m := CopyUp(mem, dest, src, i);
      assert m[dest + i := m[src + i]] == CopyUp(mem, dest, src, i + 1);
      CopyBoundedSmears(mem, dest, src, n, i + 1);
    }
  }

  lemma SmearedAt(mem: seq<Byte>, dest: nat, src: nat, n: nat, q: nat)
    requires src < dest <= q < dest + n <= |mem|
    ensures CopyUp(mem, dest, src, n)[q] == CopyUp(mem, dest, src, n)[q - (dest - src)]
  {
    CopyUpSmears(mem, dest, src, n);
  }

  /** Two bytes of src that differ where r has the same byte twice. */
  lemma SmearWrong(mem: seq<Byte>, r: seq<Byte>, dest: nat, src: nat, n: nat, q: nat)
    requires src < dest <= q < src + n && dest + n <= |mem| == |r|
    requires r[q] == r[q + (dest - src)] && mem[q] != mem[q - (dest - src)]
    ensures !Padded(mem, r, dest, src, n, n)
  {
  }

  lemma NoRepeatsWrong(mem: seq<Byte>, dest: nat, src: nat, n: nat)
    requires src < dest && dest + n <= |mem| && !Repeats(mem, dest, src, n)
    ensures !Padded(mem, CopyUp(mem, dest, src, n), dest, src, n, n)
  {
    var q: nat :| dest <= q < src + n && mem[q] != mem[q - (dest - src)];
    SmearedAt(mem, dest, src, n, q + (dest - src));
    SmearWrong(mem, CopyUp(mem, dest, src, n), dest, src, n, q);
  }

  /** A NUL in the source is overwritten before it is read, so that it never arrives. */
  lemma NulOverwritten(mem: seq<Byte>, dest: nat, src: nat, n: nat, len: nat)
    requires src < dest <= src + len && len < n && dest + n <= |mem|
    requires forall q :: src <= q < dest ==> mem[q] != 0
    ensures !Padded(mem, CopyUp(mem, dest, src, n), dest, src, n, len)
  {
    CopyUpNoZero(mem, dest, src, n);
    assert CopyUp(mem, dest, src, n)[dest + len] != 0;
  }

  /** What it leaves is right exactly when all n bytes are copied and repeat. */
  lemma SmearExact(mem: seq<Byte>, dest: nat, src: nat, n: nat)
    requires src < dest < src + n && dest + n <= |mem| && dest <= src + Run(mem, src)
    ensures Padded(mem, CopyUp(mem, dest, src, n), dest, src, n, Cut(mem, src, n))
       <==> n <= Run(mem, src) && Repeats(mem, dest, src, n)
  {
    if Run(mem, src) < n {
      NulOverwritten(mem, dest, src, n, Run(mem, src));
    } else if Repeats(mem, dest, src, n) {
      RepeatsCopied(mem, dest, src, n);
    } else {
      NoRepeatsWrong(mem, dest, src, n);
    }
  }

  lemma RepeatsCopied(mem: seq<Byte>, dest: nat, src: nat, n: nat)
    requires src < dest && dest + n <= |mem| && Repeats(mem, dest, src, n)
    ensures Padded(mem, CopyUp(mem, dest, src, n), dest, src, n, n)
  {
    CopyUpSmears(mem, dest, src, n);
    SmearKeeps(mem, CopyUp(mem, dest, src, n), dest, src, n, src + n);
    CopyUpFrame(mem, dest, src, n);
  }

  lemma {:induction false} SmearKeeps(mem: seq<Byte>, r: seq<Byte>, dest: nat, src: nat, n: nat, hi: nat)
    requires src < dest && dest + n <= |mem| == |r| && hi <= src + n && Repeats(mem, dest, src, n)
    requires r[..dest] == mem[..dest]
    requires forall q :: dest <= q < dest + n ==> r[q] == r[q - (dest - src)]
    ensures forall q :: src <= q < hi ==> r[q] == mem[q]
  {
    if hi > dest {
      SmearKeeps(mem, r, dest, src, n, hi - 1);
      assert r[hi - 1] == r[hi - 1 - (dest - src)];
    } else {
      assert forall q :: src <= q < hi ==> r[q] == r[..dest][q];
    }
  }

  lemma {:induction false} CopyUpFrame(mem: seq<Byte>, dest: nat, src: nat, n: nat)
    requires dest + n <= |mem| && src + n <= |mem|
    ensures forall q :: 0 <= q < |mem| && !(dest <= q < dest + n) ==> CopyUp(mem, dest, src, n)[q] == mem[q]
  {
    if n != 0 {
      CopyUpFrame(mem, dest, src, n - 1);
    }
  }

  lemma {:induction false} CopyBoundedNeedsRoom(mem: seq<Byte>, dest: nat, src: nat, n: nat, i: nat)
    requires i < n && dest + n > |mem|
    ensures CopyBounded(mem, dest, src, n, i) == None
    decreases n - i
  {
    if src + i < |mem| && dest + i < |mem| {
      if i + 1 < n { CopyBoundedNeedsRoom(mem[dest + i := mem[src + i]], dest, src, n, i + 1); }
    }
  }

  lemma {:induction false} CopyBoundedLeaves(mem: seq<Byte>, dest: nat, src: nat, n: nat, i: nat)
    requires dest <= src && src + i <= |mem| < src + n && forall q :: src + i <= q < |mem| ==> mem[q] != 0
    ensures CopyBounded(mem, dest, src, n, i) == None
    decreases n - i
  {
    if src + i < |mem| {
      CopyBoundedLeaves(mem[dest + i := mem[src + i]], dest, src, n, i + 1);
    }
  }

  /** `strncpy` stays in memory and leaves the cut-off, padded string exactly in these cases. */
  lemma StrNCpyExact(mem: seq<Byte>, dest: nat, src: nat, n: nat)
    requires dest <= |mem| && src <= |mem|
    ensures var r := CopyBounded(mem, dest, src, n, 0);
      r.Some? && Padded(mem, r.value, dest, src, n, Cut(mem, src, n)) <==> CopyBoundedSafe(mem, dest, src, n)
  {
    var len := Run(mem, src);
    if dest + n > |mem| {
      CopyBoundedNeedsRoom(mem, dest, src, n, 0);
    } else if src < dest < src + n && dest <= src + len {
      CopyBoundedSmears(mem, dest, src, n, 0);
      SmearExact(mem, dest, src, n);
    } else if ReadableNString(mem, src, n, AnyAddress) {
      CopyBoundedMoves(mem, dest, src, n, 0);
      assert Moved(mem, dest, src, 0) == mem;
    } else {
      CopyBoundedLeaves(mem, dest, src, n, 0);
    }
  }

  /** A source shorter than n is copied as a string; a longer one leaves no NUL in the n bytes. */
  lemma StrNCpyString(was: seq<Byte>, now: seq<Byte>, dest: nat, src: nat, n: nat)
    requires dest + n <= |was| && ReadableNString(was, src, n, AnyAddress)
    requires Padded(was, now, dest, src, n, Cut(was, src, n))
    ensures Run(was, src) < n ==> Terminated(now, dest) && CStr(now, dest) == CStr(was, src)
    ensures n <= Run(was, src) ==> now[dest..dest + n] == was[src..src + n] && n <= Run(now, dest)
  {
    var len := Run(was, src);
    if len < n {
      PaddedRun(was, now, dest, src, n, len);
      SliceIsString(now, dest, dest + len, CStr(was, src));
    } else {
      assert forall q :: dest <= q < dest + n ==> now[q] == was[q - dest + src];
    }
  }

  lemma PaddedRun(was: seq<Byte>, now: seq<Byte>, dest: nat, src: nat, n: nat, len: nat)
    requires dest + n <= |was| && src + len <= |was| && len < n && Padded(was, now, dest, src, n, len)
    requires forall q :: src <= q < src + len ==> was[q] != 0
    ensures Run(now, dest) == len && now[dest..dest + len] == was[src..src + len]
  {
    RunIs(now, dest, len);
  }
}
