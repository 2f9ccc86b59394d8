/** The scanning routines of share/libc/string.c. */
module StringSearch {
  import opened CMemory

  method StrLen(a: array<Byte>, s: nat, ghost ok: iset<int>) returns (r: nat)
    requires ReadableString(a[..], s, ok)
    ensures r == Run(a[..], s)
  {
    r := 0;
    while Load(a, ok, s + r) != 0
      invariant r <= Run(a[..], s)
      decreases Run(a[..], s) - r
    {
      r := r + 1;
    }
  }

  method StrNLen(a: array<Byte>, s: nat, maxlen: nat, ghost ok: iset<int>) returns (r: nat)
    requires ReadableNString(a[..], s, maxlen, ok)
    ensures r == |CStrN(a[..], s, maxlen)|
  {
    r := 0;
    while r < maxlen && Load(a, ok, s + r) != 0
      invariant r <= Run(a[..], s) && r <= maxlen
    {
      r := r + 1;
    }
  }

  // ----- Occurrences of a byte -----

  /** The lowest address in [lo, hi) that holds `b`. */
  function First(mem: seq<Byte>, lo: nat, hi: nat, b: Byte): (r: Option<nat>)
    requires lo <= hi <= |mem|
    ensures r == None ==> forall q :: lo <= q < hi ==> mem[q] != b
    ensures r.Some? ==> lo <= r.value < hi && mem[r.value] == b
    ensures r.Some? ==> forall q :: lo <= q < r.value ==> mem[q] != b
    decreases hi - lo
  {
    if lo == hi then None
    else if mem[lo] == b then Some(lo)
    else First(mem, lo + 1, hi, b)
  }

  /** The highest address in [lo, hi) that holds `b`. */
  function Last(mem: seq<Byte>, lo: nat, hi: nat, b: Byte): (r: Option<nat>)
    requires lo <= hi <= |mem|
    ensures r == None ==> forall q :: lo <= q < hi ==> mem[q] != b
    ensures r.Some? ==> lo <= r.value < hi && mem[r.value] == b
    ensures r.Some? ==> forall q :: r.value < q < hi ==> mem[q] != b
    decreases hi - lo
  {
    if lo == hi then None
    else if mem[hi - 1] == b then Some(hi - 1)
    else Last(mem, lo, hi - 1, b)
  }

  /** The address below which a scan for `b` over [s, s+n) stops. */
  function ScanEnd(mem: seq<Byte>, s: nat, n: nat, b: Byte): (r: nat)
    requires s + n <= |mem|
  {
    match First(mem, s, s + n, b) case Some(q) => q + 1 case None => s + n
  }

  method StrChr(a: array<Byte>, s: nat, c: int, ghost ok: iset<int>) returns (r: Option<nat>)
    requires ReadableString(a[..], s, ok)
    ensures r == First(a[..], s, s + Run(a[..], s) + 1, ToByte(c))
  {
    var ch := ToByte(c);
    ghost var end := s + Run(a[..], s) + 1;
    var i := 0;
    while Load(a, ok, s + i) != ch
      invariant s + i < end
      invariant First(a[..], s + i, end, ch) == First(a[..], s, end, ch)
      decreases end - i
    {
      if Load(a, ok, s + i) == 0 {
        return None;
      }
      i := i + 1;
    }
    return Some(s + i);
  }

  method StrRChr(a: array<Byte>, s: nat, c: int, ghost ok: iset<int>) returns (r: Option<nat>)
    requires ReadableString(a[..], s, ok)
    ensures r == Last(a[..], s, s + Run(a[..], s) + 1, ToByte(c))
  {
    var ch := ToByte(c);
    var len := StrLen(a, s, ok);
    var i := len + 1;
    while i > 0
      invariant 0 <= i <= len + 1
      invariant Last(a[..], s, s + i, ch) == Last(a[..], s, s + len + 1, ch)
    {
      if Load(a, ok, s + i - 1) == ch {
        return Some(s + i - 1);
      }
      i := i - 1;
    }
    return None;
  }

  method MemChr(a: array<Byte>, s: nat, c: int, n: nat, ghost ok: iset<int>) returns (r: Option<nat>)
    requires s + n <= a.Length && Readable(ok, s, ScanEnd(a[..], s, n, ToByte(c)))
    ensures r == First(a[..], s, s + n, ToByte(c))
  {
    var ch := ToByte(c);
    for i := 0 to n
      invariant First(a[..], s + i, s + n, ch) == First(a[..], s, s + n, ch)
    {
      if Load(a, ok, s + i) == ch {
        return Some(s + i);
      }
    }
    return None;
  }

  method MemRChr(a: array<Byte>, s: nat, c: int, n: nat, ghost ok: iset<int>) returns (r: Option<nat>)
    requires s + n <= a.Length && Readable(ok, s, s + n)
    ensures r == Last(a[..], s, s + n, ToByte(c))
  {
    var ch := ToByte(c);
    var i := n;
    while i > 0
      invariant 0 <= i <= n
      invariant Last(a[..], s, s + i, ch) == Last(a[..], s, s + n, ch)
    {
      if Load(a, ok, s + i - 1) == ch {
        return Some(s + i - 1);
      }
      i := i - 1;
    }
    return None;
  }

  /** First and last occurrence exist together, and coincide exactly for a single occurrence. */
  lemma FirstLast(mem: seq<Byte>, lo: nat, hi: nat, b: Byte)
    requires lo <= hi <= |mem|
    ensures First(mem, lo, hi, b) == None <==> Last(mem, lo, hi, b) == None
    ensures First(mem, lo, hi, b).Some? ==> First(mem, lo, hi, b).value <= Last(mem, lo, hi, b).value
    ensures First(mem, lo, hi, b) == Last(mem, lo, hi, b)
       <==> forall q, q' :: lo <= q < q' < hi ==> !(mem[q] == b && mem[q'] == b)
  {
  }

  // ----- Occurrences of a string -----

  predicate OccursAt(h: seq<Byte>, needle: seq<Byte>, i: nat) {
    i + |needle| <= |h| && forall k :: 0 <= k < |needle| ==> needle[k] == h[i + k]
  }

  lemma OccursMeaning(h: seq<Byte>, needle: seq<Byte>, i: nat)
    ensures OccursAt(h, needle, i) <==> i + |needle| <= |h| && h[i..i + |needle|] == needle
  {
    if OccursAt(h, needle, i) {
      assert forall k :: 0 <= k < |needle| ==> h[i..i + |needle|][k] == needle[k];
    } else if i + |needle| <= |h| {
      var k :| 0 <= k < |needle| && needle[k] != h[i + k];
      assert h[i..i + |needle|][k] == h[i + k];
    }
  }

  /** The inner loop: how far the needle matches from position i of the haystack on. */
  method MatchLength(a: array<Byte>, haystack: nat, needle: nat, i: nat, ghost ok: iset<int>) returns (j: nat)
    requires ReadableString(a[..], haystack, ok) && ReadableString(a[..], needle, ok)
    requires i <= Run(a[..], haystack)
    ensures j <= Run(a[..], needle)
    ensures OccursAt(CStr(a[..], haystack), CStr(a[..], needle), i) <==> j == Run(a[..], needle)
  {
    ghost var h, n := CStr(a[..], haystack), CStr(a[..], needle);
    j := 0;
    while Load(a, ok, haystack + i + j) != 0
      invariant i + j <= |h| && j <= |n|
      invariant forall k :: 0 <= k < j ==> n[k] == h[i + k]
      decreases |h| - j
    {
      if Load(a, ok, haystack + i + j) != Load(a, ok, needle + j) {
        break;
      }
      j := j + 1;
    }
  }

  /** Least match, or no match at all, reading neither string past its terminator. */
  method StrStr(a: array<Byte>, haystack: nat, needle: nat, ghost ok: iset<int>) returns (r: Option<nat>)
    requires ReadableString(a[..], haystack, ok) && ReadableString(a[..], needle, ok)
    ensures r.Some? ==>
      haystack <= r.value && OccursAt(CStr(a[..], haystack), CStr(a[..], needle), r.value - haystack)
    ensures r.Some? ==>
      forall k :: 0 <= k < r.value - haystack ==> !OccursAt(CStr(a[..], haystack), CStr(a[..], needle), k)
    ensures r == None ==> forall k :: 0 <= k ==> !OccursAt(CStr(a[..], haystack), CStr(a[..], needle), k)
  {
    ghost var h, n := CStr(a[..], haystack), CStr(a[..], needle);
    if Load(a, ok, needle) == 0 {
      return Some(haystack);
    }
    var i := 0;
    while Load(a, ok, haystack + i) != 0
      invariant a[..] == old(a[..]) && i <= |h|
      invariant forall k :: 0 <= k < i ==> !OccursAt(h, n, k)
      decreases |h| - i
    {
      var j := MatchLength(a, haystack, needle, i, ok);
      if Load(a, ok, needle + j) == 0 {
        return Some(haystack + i);
      }
      i := i + 1;
    }
    return None;
  }
}
