/**
 * Flat byte memory shared by the models of the C library routines.
 *
 * A pointer is an index into one array of bytes, so two pointers may overlap in any way.
 * `Load` reads a byte only when its address is in a given set `ok`.  A routine that only reads
 * takes `ok` as a ghost argument and demands just the addresses its own contract lists, so that it
 * reads no other address.
 */
module CMemory {
  type Byte = b: int | 0 <= b < 256

  const INT_MIN: int := -0x8000_0000
  const INT_MAX: int := 0x7FFF_FFFF

  /** Conversion of an int argument to unsigned char. */
  function ToByte(c: int): (r: Byte)
    ensures (c - r) % 256 == 0
  {
    c % 256
  }

  datatype Option<+T> = None | Some(value: T)

  /** From p on there are r bytes without a NUL, and then a NUL or the end of memory. */
  ghost predicate IsRun(mem: seq<Byte>, p: nat, r: nat) {
    && p + r <= |mem|
    && (forall q :: p <= q < p + r ==> mem[q] != 0)
    && (p + r < |mem| ==> mem[p + r] == 0)
  }

  lemma {:induction false} RunExists(mem: seq<Byte>, p: nat, i: nat)
    requires p + i <= |mem| && forall q :: p <= q < p + i ==> mem[q] != 0
    ensures exists r: nat :: IsRun(mem, p, r)
    decreases |mem| - i
  {
    if p + i < |mem| && mem[p + i] != 0 {
      RunExists(mem, p, i + 1);
    } else {
      assert IsRun(mem, p, i);
    }
  }

  /** Number of bytes from `p` up to the first NUL, or up to the end of memory if there is none. */
  ghost function Run(mem: seq<Byte>, p: nat): (r: nat)
    requires p <= |mem|
    ensures IsRun(mem, p, r)
  {
    RunExists(mem, p, 0);
    var r: nat :| IsRun(mem, p, r);
    r
  }

  /** `p` points to a NUL-terminated string. */
  ghost predicate Terminated(mem: seq<Byte>, p: nat) {
    p <= |mem| && p + Run(mem, p) < |mem|
  }

  /** The bytes of the string at `p`, without its terminator. */
  ghost function CStr(mem: seq<Byte>, p: nat): (s: seq<Byte>)
    requires p <= |mem|
  {
    mem[p..p + Run(mem, p)]
  }

  /** The bytes of the string at `p`, cut off after `n` bytes. */
  ghost function CStrN(mem: seq<Byte>, p: nat, n: nat): (s: seq<Byte>)
    requires p <= |mem|
  {
    if n <= Run(mem, p) then mem[p..p + n] else CStr(mem, p)
  }

  predicate ZeroFree(s: seq<Byte>) {
    forall i :: 0 <= i < |s| ==> s[i] != 0
  }

  lemma CStrZeroFree(mem: seq<Byte>, p: nat)
    requires p <= |mem|
    ensures ZeroFree(CStr(mem, p))
  {
  }

  /** A run of non-NUL bytes that ends in a NUL is the run `Run` denotes. */
  lemma RunIs(mem: seq<Byte>, p: nat, r: nat)
    requires p + r < |mem| && mem[p + r] == 0
    requires forall q :: p <= q < p + r ==> mem[q] != 0
    ensures Run(mem, p) == r
  {
    assert Run(mem, p) >= r;
  }

  ghost const AnyAddress: iset<int> := iset q: int | InAddressSpace(q)

  predicate InAddressSpace(q: int) { true }

  ghost predicate Readable(ok: iset<int>, lo: int, hi: int) {
    forall q :: lo <= q < hi ==> q in ok
  }

  /** A terminated string all of whose bytes, terminator included, may be read. */
  ghost predicate ReadableString(mem: seq<Byte>, p: nat, ok: iset<int>) {
    Terminated(mem, p) && Readable(ok, p, p + Run(mem, p) + 1)
  }

  /** A terminated string or `n` bytes, whichever is shorter, that may be read. */
  ghost predicate ReadableNString(mem: seq<Byte>, p: nat, n: nat, ok: iset<int>) {
    p <= |mem| &&
    if n <= Run(mem, p) then Readable(ok, p, p + n) else ReadableString(mem, p, ok)
  }

  function Load(a: array<Byte>, ghost ok: iset<int>, p: int): (b: Byte)
    requires 0 <= p < a.Length && p in ok
    reads a
  {
    a[p]
  }
}
