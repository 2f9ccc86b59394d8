/**
 * The guarded drop-in replacements of e_acsl_libc_replacements.h over a table of tracked blocks.
 * An abort of the monitored program is a result value.
 */
module Guards {
  import opened CMemory
  import opened StringCopy

  // ----- Tracked blocks -----

  datatype Block = Block(base: nat, length: nat, readonly: bool) {
    /** An address of the block; an empty block is known by its base address. */
    predicate Holds(p: nat) { base <= p < base + length || (length == 0 && p == base) }

    function End(): nat { base + length }
  }

  /** Blocks lie in memory, away from NULL, and no address belongs to two of them. */
  ghost predicate Tracked(t: seq<Block>, size: nat) {
    && (forall i :: 0 <= i < |t| ==> 0 < t[i].base && t[i].End() <= size)
    && (forall i, j, p: nat :: 0 <= i < j < |t| ==> !(t[i].Holds(p) && t[j].Holds(p)))
  }

  /** The block that holds p, if p is tracked. */
  function Find(t: seq<Block>, p: nat): (r: Option<Block>)
    ensures r == None ==> forall i :: 0 <= i < |t| ==> !t[i].Holds(p)
    ensures r.Some? ==> r.value in t && r.value.Holds(p)
  {
    if t == [] then None
    else if t[0].Holds(p) then Some(t[0])
    else
      var r := Find(t[1..], p);
      assert r == None ==> forall i :: 0 < i < |t| ==> t[i] == t[1..][i - 1];
      r
  }

  /** `allocated`: n bytes from p on lie in the block that holds p. */
  predicate Allocated(t: seq<Block>, p: nat, n: nat) {
    match Find(t, p) case Some(b) => n <= b.End() - p case None => false
  }

  predicate Readonly(t: seq<Block>, p: nat) {
    match Find(t, p) case Some(b) => b.readonly case None => false
  }

  predicate Writeable(t: seq<Block>, p: nat, n: nat) {
    Allocated(t, p, n) && !Readonly(t, p)
  }

  // ----- Validity clauses of the libc contracts, read in the block table -----

  /** \valid_read(p + (lo..hi)), in the block of p. */
  ghost predicate ValidRead(t: seq<Block>, p: nat, lo: int, hi: int) {
    hi < lo || exists b :: b in t && b.Holds(p) && b.base <= p + lo && p + hi < b.End()
  }

  /** \valid(p + (lo..hi)), in the block of p. */
  ghost predicate Valid(t: seq<Block>, p: nat, lo: int, hi: int) {
    hi < lo || exists b :: b in t && b.Holds(p) && b.base <= p + lo && p + hi < b.End() && !b.readonly
  }

  ghost predicate EmptyBlock(t: seq<Block>, p: nat) {
    exists b :: b in t && b.length == 0 && b.base == p
  }

  ghost predicate ValidOrEmpty(t: seq<Block>, p: nat, n: nat) {
    (EmptyBlock(t, p) || ValidRead(t, p, 0, 0)) && Valid(t, p, 0, n - 1)
  }

  /** As in string.h, where the second range starts at 1. */
  ghost predicate ValidReadOrEmpty(t: seq<Block>, p: nat, n: nat) {
    (EmptyBlock(t, p) || ValidRead(t, p, 0, 0)) && ValidRead(t, p, 1, n - 1)
  }

  ghost predicate ValidReadString(t: seq<Block>, mem: seq<Byte>, s: nat) {
    Terminated(mem, s) && ValidRead(t, s, 0, Run(mem, s))
  }

  ghost predicate ValidString(t: seq<Block>, mem: seq<Byte>, s: nat) {
    Terminated(mem, s) && Valid(t, s, 0, Run(mem, s))
  }

  lemma FindIs(t: seq<Block>, size: nat, p: nat, b: Block)
    requires Tracked(t, size) && b in t && b.Holds(p)
    ensures Find(t, p) == Some(b)
  {
    var i :| 0 <= i < |t| && t[i] == b;
    assert Find(t, p).Some?;
    var j :| 0 <= j < |t| && t[j] == Find(t, p).value;
    assert t[i].Holds(p) && t[j].Holds(p);
  }

  /** The runtime test for n > 0 bytes is the clause \valid_read, and \valid with the write test. */
  lemma AllocatedMeaning(t: seq<Block>, size: nat, p: nat, n: nat)
    requires Tracked(t, size)
    ensures n > 0 ==> (Allocated(t, p, n) <==> ValidRead(t, p, 0, n - 1))
    ensures n > 0 ==> (Writeable(t, p, n) <==> Valid(t, p, 0, n - 1))
    ensures Allocated(t, p, 0) <==> EmptyBlock(t, p) || ValidRead(t, p, 0, 0)
    ensures Allocated(t, p, n) ==> p + n <= size
  {
    if b :| b in t && b.Holds(p) {
      FindIs(t, size, p, b);
      forall c | c in t && c.Holds(p) ensures c == b { FindIs(t, size, p, c); }
      assert b.length == 0 ==> EmptyBlock(t, p);
    } else {
      assert forall b :: b in t ==> !b.Holds(p);
    }
  }

  // ----- Separation -----

  function DisjointSpaces(s1: nat, n1: nat, s2: nat, n2: nat): (r: bool) {
    (s1 + n1) % UINTPTR_LIMIT <= s2 || (s2 + n2) % UINTPTR_LIMIT <= s1
  }

  /** An empty range strictly inside the other one: separated, and yet refused by the code. */
  predicate EmptyInside(s1: nat, n1: nat, s2: nat, n2: nat) {
    n1 == 0 && s2 < s1 < s2 + n2
  }

  /** Without wrap-around the test is separation exactly unless one range is empty inside the other. */
  lemma DisjointMeaning(s1: nat, n1: nat, s2: nat, n2: nat)
    requires s1 + n1 < UINTPTR_LIMIT && s2 + n2 < UINTPTR_LIMIT
    ensures (DisjointSpaces(s1, n1, s2, n2) <==> Separated(s1, n1, s2, n2))
       <==> !EmptyInside(s1, n1, s2, n2) && !EmptyInside(s2, n2, s1, n1)
  {
    if n1 > 0 && n2 > 0 && !DisjointSpaces(s1, n1, s2, n2) {
      var x := if s1 <= s2 then s2 else s1;
      assert Within(x, s1, n1) && Within(x, s2, n2);
    }
  }

  /** An empty range at 12 inside the five bytes at 10. */
  lemma EmptyRangeRefused()
    ensures Separated(12, 0, 10, 5) && !DisjointSpaces(12, 0, 10, 5)
  {
  }

  /** p's range reaches q without wrapping, while q's range wraps around to p or below. */
  predicate WrapsBelow(p: nat, q: nat, n: nat) {
    p <= q < p + n < UINTPTR_LIMIT <= q + n <= p + UINTPTR_LIMIT
  }

  /** The two overlap tests of the repository agree exactly unless one range wraps around so. */
  lemma DisjointIsNoOverlap(p: nat, q: nat, n: nat)
    requires p < UINTPTR_LIMIT && q < UINTPTR_LIMIT && n < UINTPTR_LIMIT
    ensures (DisjointSpaces(p, n, q, n) <==> MemOverlap(p, q, n) == 0)
       <==> !WrapsBelow(p, q, n) && !WrapsBelow(q, p, n)
  {
    assert (p + n) % UINTPTR_LIMIT == if p + n < UINTPTR_LIMIT then p + n else p + n - UINTPTR_LIMIT;
    assert (q + n) % UINTPTR_LIMIT == if q + n < UINTPTR_LIMIT then q + n else q + n - UINTPTR_LIMIT;
  }

  // ----- String validation -----

  /** Bytes from s to the end of its block. */
  function Tail(t: seq<Block>, s: nat): (r: nat)
    requires Allocated(t, s, 1)
    ensures r > 0
  {
    Find(t, s).value.End() - s
  }

  const UNALLOCATED := -1
  const NOT_WRITABLE := -2
  const TOO_SHORT := -3
  const NOT_TERMINATED := -4

  method ValidNString(a: array<Byte>, t: seq<Block>, s: nat, n: int, wrtbl: bool) returns (r: int)
    requires Tracked(t, a.Length)
    ensures n == 0 ==> r == 0
    ensures n != 0 ==> (r == UNALLOCATED <==> !Allocated(t, s, 1))
    ensures n != 0 ==> (r == NOT_WRITABLE <==> Allocated(t, s, 1) && wrtbl && Readonly(t, s))
    ensures n != 0 && Allocated(t, s, 1) && !(wrtbl && Readonly(t, s)) ==>
      var unterminated := Run(a[..], s) >= Tail(t, s);
      && (r == TOO_SHORT <==> unterminated && n > Tail(t, s))
      && (r == NOT_TERMINATED <==> unterminated && n < 0)
      && (r >= 0 && n > 0 ==> r == |CStrN(a[..], s, n)|)
      && (r >= 0 && n < 0 ==> Terminated(a[..], s) && r == Run(a[..], s))
    ensures -4 <= r
  {
    if n == 0 {
      return n;
    }
    if Allocated(t, s, 1) {
      if wrtbl && Readonly(t, s) {
        return NOT_WRITABLE;
      }
      var size := Tail(t, s);
      AllocatedMeaning(t, a.Length, s, size);
      var i := 0;
      while i < size
        invariant i <= size && i <= Run(a[..], s) && (n >= 0 ==> i <= n)
      {
        if a[s + i] == 0 || n == i {
          return i;
        }
        i := i + 1;
      }
      if n == size {
        return n;
      }
      if n > size {
        return TOO_SHORT;
      }
      return NOT_TERMINATED;
    }
    return UNALLOCATED;
  }

  datatype Reason = Unallocated | NotWritable | TooShort | NotTerminated | NoSpace | Overlap

  /** The outcome of a guard, or of a whole guarded call: a size, or an abort of the program. */
  datatype Checked = Ok(size: nat) | Abort(reason: Reason) {
    predicate IsFailure() { Abort? }

    function PropagateFailure(): Checked
      requires Abort?
    {
      this
    }

    function Extract(): nat
      requires Ok?
    {
      size
    }
  }

  lemma StringInBlock(t: seq<Block>, mem: seq<Byte>, s: nat)
    requires Tracked(t, |mem|)
    ensures ValidReadString(t, mem, s) <==> Allocated(t, s, 1) && s <= |mem| && Run(mem, s) < Tail(t, s)
    ensures ValidString(t, mem, s) <==> ValidReadString(t, mem, s) && !Readonly(t, s)
  {
    AllocatedMeaning(t, |mem|, s, 1);
    if s <= |mem| {
      AllocatedMeaning(t, |mem|, s, Run(mem, s) + 1);
      if Allocated(t, s, 1) {
        AllocatedMeaning(t, |mem|, s, Tail(t, s));
      }
    }
  }

  /**
   * Each abort exactly in its case.  For an unbounded string the guard passes exactly when the
   * contract's validity clause holds.
   */
  method ValidateString(a: array<Byte>, t: seq<Block>, s: nat, n: int, wrtbl: bool) returns (r: Checked)
    requires Tracked(t, a.Length)
    ensures n < 0 ==> (r.Ok? <==> if wrtbl then ValidString(t, a[..], s) else ValidReadString(t, a[..], s))
    ensures n < 0 && r.Ok? ==> r.size == Run(a[..], s)
    ensures n == 0 ==> r == Ok(0)
    ensures n != 0 ==> (r == Abort(Unallocated) <==> !Allocated(t, s, 1))
    ensures n != 0 ==> (r == Abort(NotWritable) <==> Allocated(t, s, 1) && wrtbl && Readonly(t, s))
    ensures n != 0 && Allocated(t, s, 1) && !(wrtbl && Readonly(t, s)) ==>
      var unterminated := Run(a[..], s) >= Tail(t, s);
      && (r == Abort(TooShort) <==> unterminated && n > Tail(t, s))
      && (r == Abort(NotTerminated) <==> unterminated && n < 0)
      && (r.Ok? && n > 0 ==> r.size == |CStrN(a[..], s, n)|)
    ensures r.Abort? ==> r.reason != NoSpace && r.reason != Overlap
  {
    var size := ValidNString(a, t, s, n, wrtbl);
    StringInBlock(t, a[..], s);
    match size
    case -1 => return Abort(Unallocated);
    case -2 => return Abort(NotWritable);
    case -3 => return Abort(TooShort);
    case -4 => return Abort(NotTerminated);
    case _ => return Ok(size);
  }

  method ValidateAllocatedSpace(t: seq<Block>, p: nat, n: nat) returns (r: Checked)
    ensures r.Ok? <==> Allocated(t, p, n)
  {
    return if Allocated(t, p, n) then Ok(n) else Abort(Unallocated);
  }

  method ValidateWriteableSpace(t: seq<Block>, p: nat, n: nat) returns (r: Checked)
    ensures r.Ok? <==> Writeable(t, p, n)
    ensures r == Abort(NoSpace) <==> !Writeable(t, p, n) && Writeable(t, p, 1)
  {
    if Writeable(t, p, n) {
      return Ok(n);
    }
    return if Writeable(t, p, 1) then Abort(NoSpace) else Abort(NotWritable);
  }

  method ValidateOverlappingSpaces(s1: nat, n1: nat, s2: nat, n2: nat) returns (r: Checked)
    ensures r == if DisjointSpaces(s1, n1, s2, n2) then Ok(0) else Abort(Overlap)
    ensures s1 + n1 < UINTPTR_LIMIT && s2 + n2 < UINTPTR_LIMIT ==>
      ((r.Ok? <==> Separated(s1, n1, s2, n2)) <==> !EmptyInside(s1, n1, s2, n2) && !EmptyInside(s2, n2, s1, n1))
  {
    if s1 + n1 < UINTPTR_LIMIT && s2 + n2 < UINTPTR_LIMIT {
      DisjointMeaning(s1, n1, s2, n2);
    }
    return if DisjointSpaces(s1, n1, s2, n2) then Ok(0) else Abort(Overlap);
  }

  // ----- Guarded calls -----

  /** The clauses of the contract of strcpy. */
  ghost predicate StrCpyContract(t: seq<Block>, mem: seq<Byte>, dest: nat, src: nat) {
    && ValidReadString(t, mem, src)
    && Valid(t, dest, 0, Run(mem, src))
    && Separated(dest, Run(mem, src) + 1, src, Run(mem, src) + 1)
  }

  lemma StrCpyContractSafe(t: seq<Block>, mem: seq<Byte>, dest: nat, src: nat)
    requires Tracked(t, |mem|) && StrCpyContract(t, mem, dest, src)
    ensures CopyStringSafe(mem, dest, src)
  {
    AllocatedMeaning(t, |mem|, dest, Run(mem, src) + 1);
    if src < dest <= src + Run(mem, src) {
      assert Within(dest, dest, Run(mem, src) + 1) && Within(dest, src, Run(mem, src) + 1);
    }
  }

  /** Proceeds exactly under the contract of strcpy; then src has been moved to dest, else nothing changed. */
  method BuiltinStrCpy(a: array<Byte>, t: seq<Block>, dest: nat, src: nat) returns (r: Checked)
    requires Tracked(t, a.Length) && a.Length < UINTPTR_LIMIT
    modifies a
    ensures r.Ok? <==> old(StrCpyContract(t, a[..], dest, src))
    ensures r.Ok? ==> a[..] == Moved(old(a[..]), dest, src, old(Run(a[..], src)) + 1)
    ensures r.Abort? ==> a[..] == old(a[..])
  {
    var size :- ValidateString(a, t, src, -1, false);
    AllocatedMeaning(t, a.Length, dest, size + 1);
    var _ :- ValidateWriteableSpace(t, dest, size + 1);
    var _ :- ValidateOverlappingSpaces(dest, size + 1, src, size + 1);
    assert a[..] == old(a[..]);
    StrCpyContractSafe(t, a[..], dest, src);
    StrCpy(a, dest, src);
    return Ok(0);
  }

  /** The clauses of the contract of memcpy. */
  ghost predicate MemCpyContract(t: seq<Block>, dest: nat, src: nat, n: nat) {
    ValidOrEmpty(t, dest, n) && ValidReadOrEmpty(t, src, n) && Separated(dest, n, src, n)
  }

  /**
   * Proceeds exactly under the contract of memcpy, except for two calls the contract allows and
   * the guard refuses: no byte into a read-only block, and one byte from an empty block.
   */
  method BuiltinMemCpy(a: array<Byte>, t: seq<Block>, dest: nat, src: nat, n: nat) returns (r: Checked)
    requires Tracked(t, a.Length) && a.Length < UINTPTR_LIMIT
    modifies a
    ensures r.Ok? <==>
      (MemCpyContract(t, dest, src, n) && !(n == 0 && Readonly(t, dest)) && !(n == 1 && EmptyBlock(t, src)))
    ensures r.Ok? ==> dest + n <= a.Length && src + n <= a.Length && a[..] == Moved(old(a[..]), dest, src, n)
    ensures r.Abort? ==> a[..] == old(a[..])
  {
    MemCpyGuards(t, a.Length, dest, src, n);
    var _ :- ValidateAllocatedSpace(t, src, n);
    var _ :- ValidateWriteableSpace(t, dest, n);
    var _ :- ValidateOverlappingSpaces(src, n, dest, n);
    assert !(src < dest < src + n) by {
      if src < dest < src + n { assert Within(dest, src, n) && Within(dest, dest, n); }
    }
    assert a[..] == old(a[..]);
    MemCpy(a, dest, src, n);
    return Ok(0);
  }

  lemma MemCpyGuards(t: seq<Block>, size: nat, dest: nat, src: nat, n: nat)
    requires Tracked(t, size)
    ensures Allocated(t, src, n) <==> ValidReadOrEmpty(t, src, n) && !(n == 1 && EmptyBlock(t, src))
    ensures Writeable(t, dest, n) <==> ValidOrEmpty(t, dest, n) && !(n == 0 && Readonly(t, dest))
    ensures Allocated(t, src, n) ==> src + n <= size
    ensures Writeable(t, dest, n) ==> dest + n <= size
    ensures Separated(src, n, dest, n) <==> Separated(dest, n, src, n)
  {
    AllocatedMeaning(t, size, src, n);
    AllocatedMeaning(t, size, dest, n);
    forall b | b in t && b.Holds(src) ensures Find(t, src) == Some(b) { FindIs(t, size, src, b); }
    forall b | b in t && b.Holds(dest) ensures Find(t, dest) == Some(b) { FindIs(t, size, dest, b); }
  }

  /** What the guard of strcat asks for. */
  ghost predicate StrCatGuard(t: seq<Block>, mem: seq<Byte>, dest: nat, src: nat) {
    && ValidReadString(t, mem, src) && ValidString(t, mem, dest)
    && Valid(t, dest, 0, Run(mem, dest) + Run(mem, src))
    && Separated(src, Run(mem, src) + 1, dest, Run(mem, dest) + 1)
  }

  lemma StrCatGuardSafe(t: seq<Block>, mem: seq<Byte>, dest: nat, src: nat)
    requires Tracked(t, |mem|) && StrCatGuard(t, mem, dest, src)
    ensures StrCatSafe(mem, dest, src)
  {
    var n, len := Run(mem, dest), Run(mem, src);
    AllocatedMeaning(t, |mem|, dest, n + len + 1);
    if dest + n == src + len {
      assert Within(dest + n, src, len + 1) && Within(dest + n, dest, n + 1);
    }
  }

  /** The checks of the guarded strcat, in its order. */
  method CheckStrCat(a: array<Byte>, t: seq<Block>, dest: nat, src: nat) returns (r: Checked)
    requires Tracked(t, a.Length) && a.Length < UINTPTR_LIMIT
    ensures r.Ok? <==> StrCatGuard(t, a[..], dest, src)
  {
    ghost var mem := a[..];
    var srcSize :- ValidateString(a, t, src, -1, false);
    assert a[..] == mem;
    var destSize :- ValidateString(a, t, dest, -1, true);
    assert a[..] == mem;
    StringInBlock(t, mem, dest);
    StringInBlock(t, mem, src);
    AllocatedMeaning(t, a.Length, dest, destSize + srcSize + 1);
    var avail := Tail(t, dest);
    if !(avail >= srcSize + destSize + 1) {
      return Abort(NoSpace);
    }
    r := ValidateOverlappingSpaces(src, srcSize + 1, dest, destSize + 1);
    assert a[..] == mem;
  }

  /**
   * In every layout the guard accepts, src just above dest in the same block included, the result of
   * the move is old dest followed by old src, and the bytes written lie in the block of dest.
   */
  lemma GuardedStrCat(t: seq<Block>, mem: seq<Byte>, dest: nat, src: nat)
    requires Tracked(t, |mem|) && StrCatGuard(t, mem, dest, src)
    ensures StrCatSafe(mem, dest, src)
    ensures var r := Moved(mem, dest + Run(mem, dest), src, Run(mem, src) + 1);
      Terminated(r, dest) && CStr(r, dest) == CStr(mem, dest) + CStr(mem, src)
    ensures exists b :: b in t && b.Holds(dest) && !b.readonly && dest + Run(mem, dest) + Run(mem, src) < b.End()
  {
    StrCatGuardSafe(t, mem, dest, src);
    StrCatString(mem, dest, src);
  }

  /** Proceeds exactly when its guard holds; then src is moved to the end of dest, else nothing changes. */
  method BuiltinStrCat(a: array<Byte>, t: seq<Block>, dest: nat, src: nat) returns (r: Checked)
    requires Tracked(t, a.Length) && a.Length < UINTPTR_LIMIT
    modifies a
    ensures r.Ok? <==> old(StrCatGuard(t, a[..], dest, src))
    ensures r.Ok? ==> a[..] == Moved(old(a[..]), dest + old(Run(a[..], dest)), src, old(Run(a[..], src)) + 1)
    ensures r.Abort? ==> a[..] == old(a[..])
  {
    var _ :- CheckStrCat(a, t, dest, src);
    assert a[..] == old(a[..]);
    StrCatGuardSafe(t, a[..], dest, src);
    StrCat(a, dest, src);
    return Ok(0);
  }

  /** The contract of strcat, which asks for no separation. */
  ghost predicate StrCatContract(t: seq<Block>, mem: seq<Byte>, dest: nat, src: nat) {
    && ValidReadString(t, mem, src) && ValidString(t, mem, dest)
    && Valid(t, dest, 0, Run(mem, dest) + Run(mem, src))
  }

  /** Under that contract strcat finishes exactly when no non-empty src shares the terminator of dest. */
  lemma StrCatContractExact(t: seq<Block>, mem: seq<Byte>, dest: nat, src: nat)
    requires Tracked(t, |mem|) && StrCatContract(t, mem, dest, src)
    ensures CopyString(mem, dest + Run(mem, dest), src, 0).Some?
       <==> dest + Run(mem, dest) != src + Run(mem, src) || Run(mem, src) == 0
  {
    AllocatedMeaning(t, |mem|, dest, Run(mem, dest) + Run(mem, src) + 1);
    StrCatExact(mem, dest, src);
  }

  /** "AB" appended with its own tail "B": allowed by the contract, and the loop runs off memory. */
  lemma StrCatContractGap()
    ensures var t, mem := [Block(1, 8, false)], [0, 65, 66, 0, 0, 0, 0, 0, 0];
      && Tracked(t, |mem|) && StrCatContract(t, mem, 1, 2)
      && CopyString(mem, 1 + Run(mem, 1), 2, 0) == None
  {
    var t, mem: seq<Byte> := [Block(1, 8, false)], [0, 65, 66, 0, 0, 0, 0, 0, 0];
    RunIs(mem, 1, 2);
    RunIs(mem, 2, 1);
    assert t[0] in t && t[0].Holds(1) && t[0].Holds(2);
    StrCatContractExact(t, mem, 1, 2);
  }

  /** No byte into a read-only block: allowed by the contract of memcpy and refused by its guard. */
  lemma MemCpyReadonlyGap()
    ensures var t := [Block(1, 4, true), Block(5, 4, false)];
      Tracked(t, 9) && MemCpyContract(t, 1, 5, 0) && Readonly(t, 1) && !Writeable(t, 1, 0)
  {
    var t := [Block(1, 4, true), Block(5, 4, false)];
    assert t[0] in t && t[1] in t && t[0].Holds(1) && t[1].Holds(5);
  }

  /** One byte from an empty block: allowed by the contract of memcpy and refused by its guard. */
  lemma MemCpyEmptyGap()
    ensures var t := [Block(5, 4, false), Block(9, 0, false)];
      Tracked(t, 9) && MemCpyContract(t, 5, 9, 1) && EmptyBlock(t, 9) && !Allocated(t, 9, 1)
  {
    var t := [Block(5, 4, false), Block(9, 0, false)];
    assert t[0] in t && t[1] in t && t[0].Holds(5) && t[1].Holds(9);
  }

  // ----- The clauses, in addresses -----

  /** In addresses: a readable string is bytes other than 0 and then a 0, all inside one block. */
  lemma StringAt(t: seq<Block>, mem: seq<Byte>, s: nat)
    requires Tracked(t, |mem|)
    ensures ValidReadString(t, mem, s) <==>
      exists b, len: nat :: b in t && b.base <= s && s + len < b.base + b.length && ReadsAs(mem, s, len)
    ensures forall len: nat :: ReadsAs(mem, s, len) ==> Run(mem, s) == len
  {
    forall len: nat | ReadsAs(mem, s, len) ensures Run(mem, s) == len { RunIs(mem, s, len); }
    if ValidReadString(t, mem, s) {
      assert ReadsAs(mem, s, Run(mem, s));
    }
  }

  /** The bytes at s are len bytes other than 0 and then a 0. */
  predicate ReadsAs(mem: seq<Byte>, s: nat, len: nat) {
    s + len < |mem| && mem[s + len] == 0 && forall q :: s <= q < s + len ==> mem[q] != 0
  }

  lemma Apart(p: nat, n: nat, q: nat, m: nat)
    requires n > 0 && m > 0
    ensures Separated(p, n, q, m) <==> p + n <= q || q + m <= p
  {
    var x := if p <= q then q else p;
    assert Separated(p, n, q, m) ==> !(Within(x, p, n) && Within(x, q, m));
  }

  /**
   * In addresses: strcpy is allowed exactly if src is a string of some length inside a block, and the
   * bytes from dest on lie in a writable block and apart from it.
   */
  lemma StrCpyContractMeaning(t: seq<Block>, mem: seq<Byte>, dest: nat, src: nat)
    requires Tracked(t, |mem|)
    ensures StrCpyContract(t, mem, dest, src) <==>
      exists b, c, len: nat ::
        && b in t && b.base <= src && src + len < b.base + b.length && ReadsAs(mem, src, len)
        && c in t && c.base <= dest && dest + len < c.base + c.length && !c.readonly
        && (dest + len < src || src + len < dest)
  {
    StringAt(t, mem, src);
    if src <= |mem| {
      var len := Run(mem, src);
      Apart(dest, len + 1, src, len + 1);
    }
  }

  /** In addresses: the same for strcat, with room behind the string at dest. */
  lemma StrCatGuardMeaning(t: seq<Block>, mem: seq<Byte>, dest: nat, src: nat)
    requires Tracked(t, |mem|)
    ensures StrCatGuard(t, mem, dest, src) <==>
      exists b, c, n: nat, len: nat ::
        && b in t && b.base <= src && src + len < b.base + b.length && ReadsAs(mem, src, len)
        && c in t && c.base <= dest && dest + n + len < c.base + c.length && !c.readonly && ReadsAs(mem, dest, n)
        && (dest + n < src || src + len < dest)
  {
    StringAt(t, mem, src);
    StringAt(t, mem, dest);
    if src <= |mem| && dest <= |mem| {
      Apart(src, Run(mem, src) + 1, dest, Run(mem, dest) + 1);
    }
  }

  /** In addresses: memcpy proceeds exactly if both ranges lie in blocks, dest's writable, and apart. */
  lemma MemCpyGuardMeaning(t: seq<Block>, size: nat, dest: nat, src: nat, n: nat)
    requires Tracked(t, size)
    ensures MemCpyContract(t, dest, src, n) && !(n == 0 && Readonly(t, dest)) && !(n == 1 && EmptyBlock(t, src)) <==>
      exists b, c ::
        && b in t && src + n <= b.base + b.length
        && (b.base <= src < b.base + b.length || (b.length == 0 && src == b.base))
        && c in t && dest + n <= c.base + c.length && !c.readonly
        && (c.base <= dest < c.base + c.length || (c.length == 0 && dest == c.base))
        && (n == 0 || src + n <= dest || dest + n <= src)
  {
    MemCpyGuards(t, size, dest, src, n);
    forall b | b in t && b.Holds(src) ensures Find(t, src) == Some(b) { FindIs(t, size, src, b); }
    forall b | b in t && b.Holds(dest) ensures Find(t, dest) == Some(b) { FindIs(t, size, dest, b); }
    if n > 0 { Apart(dest, n, src, n); }
  }
}
