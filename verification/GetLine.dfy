/** getline of share/libc/stdio.c: one call, and the run of calls up to the first -1. */
module GetLine {
  import opened CMemory

  const EOF := -1
  const NEWLINE: Byte := 10
  const FOLDED: Byte := 255  // the byte that, as a signed char, equals EOF
  const SSIZE_MAX: nat := 0x7FFF_FFFF_FFFF_FFFF

  /** Conversion of an int to signed char, for the values fgetc returns. */
  function ToChar(c: int): int { if c > 127 then c - 256 else c }

  // ----- Reference: one call as a function of the unread bytes -----

  predicate Stops(b: Byte) { b == NEWLINE || b == FOLDED }

  /** The call examines `rest` up to position e: a newline, a folded byte, or the end of the file. */
  ghost predicate IsEnd(rest: seq<Byte>, e: nat) {
    e <= |rest| && (forall i :: 0 <= i < e ==> !Stops(rest[i])) && (e < |rest| ==> Stops(rest[e]))
  }

  lemma {:induction false} EndExists(rest: seq<Byte>, i: nat)
    requires i <= |rest| && forall j :: 0 <= j < i ==> !Stops(rest[j])
    ensures exists e: nat :: IsEnd(rest, e)
    decreases |rest| - i
  {
    if i < |rest| && !Stops(rest[i]) {
      EndExists(rest, i + 1);
    } else {
      assert IsEnd(rest, i);
    }
  }

  ghost function End(rest: seq<Byte>): (e: nat)
    ensures IsEnd(rest, e)
  {
    EndExists(rest, 0);
    var e: nat :| IsEnd(rest, e);
    e
  }

  /** The largest buffer getline can work with when it starts with n bytes. */
  function Cap(n: nat, limit: nat): (k: nat) {
    var most := if limit < SSIZE_MAX then limit else SSIZE_MAX;
    if n < most then most else n
  }

  datatype Step = Step(result: int, line: seq<Byte>, rest: seq<Byte>, eof: bool)

  /** Result, line, unread bytes and end-of-file mark after a call that finds enough memory. */
  ghost function Finish(rest: seq<Byte>): (s: Step) {
    var e := End(rest);
    if e == |rest| then Step(if e == 0 then -1 else e, rest, [], true)
    else if rest[e] == NEWLINE then Step(e + 1, rest[..e + 1], rest[e + 1..], false)
    else Step(if e == 0 then -1 else e, rest[..e], rest[e + 1..], false)
  }

  /** A call needs room for the bytes before the end, the byte there and a terminator. */
  ghost predicate Enough(rest: seq<Byte>, k: nat) { End(rest) + 2 <= k }

  /** The same for every call: without enough memory the bytes that filled the buffer are lost. */
  ghost function Next(rest: seq<Byte>, k: nat): (s: Step)
    requires 1 <= k
  {
    if Enough(rest, k) then Finish(rest) else Step(-1, [], rest[k - 1..], false)
  }

  /**
   * A call on a buffer of n bytes returns the line whole if its bytes, the byte that ends it and a
   * terminator fit the buffer, or the memory there is and SSIZE_MAX; otherwise it returns -1, and all
   * bytes that the largest buffer could take are lost.
   */
  lemma CallMeaning(rest: seq<Byte>, n: nat, limit: nat)
    requires 1 <= n <= 0x7FFF_FFFF_FFFF_FFFF
    ensures var s, e := Next(rest, Cap(n, limit)), End(rest);
      if e + 2 <= n || (e + 2 <= limit && e + 2 <= 0x7FFF_FFFF_FFFF_FFFF) then
        && (e < |rest| && rest[e] == 10 ==> s == Step(e + 1, rest[..e + 1], rest[e + 1..], false))
        && (e < |rest| && rest[e] == 255 ==> s == Step(if e == 0 then -1 else e, rest[..e], rest[e + 1..], false))
        && (e == |rest| ==> s == Step(if e == 0 then -1 else e, rest, [], true))
      else
        && s.result == -1 && !s.eof
        && (limit <= n || n == 0x7FFF_FFFF_FFFF_FFFF ==> s.rest == rest[n - 1..])
        && (n < limit <= 0x7FFF_FFFF_FFFF_FFFF ==> s.rest == rest[limit - 1..])
        && (n < 0x7FFF_FFFF_FFFF_FFFF < limit ==> s.rest == rest[0x7FFF_FFFF_FFFF_FFFE..])
  {
  }

  lemma CallCounts(rest: seq<Byte>, n: nat, limit: nat)
    requires 1 <= n <= SSIZE_MAX
    ensures var s, e := Next(rest, Cap(n, limit)), End(rest);
      if e + 2 <= n || (e + 2 <= limit && e + 2 <= SSIZE_MAX) then
        && s.result == (if e < |rest| && rest[e] == 10 then e + 1 else if e == 0 then -1 else e)
        && s.rest == (if e < |rest| then rest[e + 1..] else [])
        && (s.result > 0 ==> s.result <= |rest| && s.line == rest[..s.result])
      else
        s.result == -1
  {
    CallMeaning(rest, n, limit);
  }

  // ----- The code -----

  class Stream {
    var rest: seq<Byte>
    var eof: bool
    var error: bool

    method Fgetc() returns (c: int)
      modifies this
      ensures error == old(error)
      ensures old(rest) == [] ==> c == EOF && rest == [] && eof
      ensures old(rest) != [] ==> c == old(rest)[0] && rest == old(rest)[1..] && eof == old(eof)
    {
      if rest == [] {
        eof := true;
        return EOF;
      }
      c := rest[0];
      rest := rest[1..];
    }
  }

  /** *lineptr and *n of the caller. */
  class LineBuffer {
    var data: array?<Byte>
    var n: nat

    /** A buffer has at least n bytes. */
    ghost predicate Valid()
      reads this
    {
      (data != null ==> n <= data.Length) && n <= SSIZE_MAX
    }

    predicate Missing()
      reads this
    {
      data == null || n == 0
    }

    /** The size the call starts with, after a first allocation of two bytes where there is no buffer. */
    function Size(): nat
      reads this
    {
      if Missing() then 2 else n
    }
  }

  /** A call returns a count or -1, or writes through NULL because a first allocation has failed. */
  datatype Outcome = Returned(count: int) | NullWrite

  /** Without a buffer or memory for one, the first byte that is read is written through NULL. */
  ghost predicate WritesNull(missing: bool, limit: nat, rest: seq<Byte>) {
    missing && limit < 2 && rest != [] && rest[0] != FOLDED
  }

  method Malloc(size: nat, limit: nat) returns (q: array?<Byte>)
    ensures q == null <==> size > limit
    ensures q != null ==> fresh(q) && q.Length == size
  {
    if size > limit {
      return null;
    }
    q := new Byte[size](_ => 0);
  }

  /** realloc: keeps the first `keep` bytes; no memory beyond `limit` bytes. */
  method Realloc(p: array<Byte>, size: nat, limit: nat, ghost keep: nat) returns (q: array?<Byte>)
    requires keep <= p.Length && keep <= size
    ensures q == null <==> size > limit
    ensures q != null ==> fresh(q) && q.Length == size && q[..keep] == p[..keep]
  {
    q := Malloc(size, limit);
    if q == null {
      return;
    }
    var n := if p.Length < size then p.Length else size;
    for i := 0 to n
      invariant q[..i] == p[..i]
    {
      q[i] := p[i];
    }
  }

  /** The inner loop: read into the n bytes of the buffer until the line ends or they are full. */
  method Fill(data: array<Byte>, n: nat, st: Stream, start: nat, ghost rest: seq<Byte>)
    returns (done: bool, r: int, cur: nat)
    requires start < n <= data.Length && start <= End(rest) && !st.eof
    requires st.rest == rest[start..] && data[..start] == rest[..start]
    modifies data, st
    ensures st.error == old(st.error)
    ensures done <==> Enough(rest, n)
    ensures done ==> r == Finish(rest).result && st.rest == Finish(rest).rest && st.eof == Finish(rest).eof
    ensures done && r >= 0 ==> r < n && data[..r] == Finish(rest).line && data[r] == 0
    ensures !done ==> cur == n - 1 && cur <= End(rest) && !st.eof
    ensures !done ==> st.rest == rest[cur..] && data[..cur] == rest[..cur]
  {
    ghost var e := End(rest);
    cur := start;
    while cur < n - 1
      invariant start <= cur < n && cur <= e && !st.eof && st.error == old(st.error)
      invariant st.rest == rest[cur..] && data[..cur] == rest[..cur]
    {
      var got := st.Fgetc();
      var c := ToChar(got);
      if c == EOF && cur == 0 {
        return true, -1, cur;
      }
      if c != EOF {
        data[cur] := got;
        cur := cur + 1;
      }
      if c == NEWLINE || c == EOF {
        data[cur] := 0;
        return true, cur, cur;
      }
    }
    return false, 0, cur;
  }

  /** One more byte for the buffer: refused at SSIZE_MAX, and without memory, when the buffer is lost. */
  method Grow(lb: LineBuffer, limit: nat) returns (ok: bool)
    requires lb.data != null && lb.n <= lb.data.Length && lb.n <= SSIZE_MAX
    modifies lb
    ensures ok <==> old(lb.n) < SSIZE_MAX && old(lb.n) + 1 <= limit
    ensures ok ==> lb.n == old(lb.n) + 1 <= SSIZE_MAX
    ensures ok ==> lb.data != null && fresh(lb.data) && lb.data.Length == lb.n
    ensures ok ==> lb.data[..old(lb.n)] == old(lb.data[..lb.n])
    ensures !ok ==> lb.n == old(lb.n) && (lb.data == null || lb.data == old(lb.data))
  {
    if lb.n == SSIZE_MAX {
      return false;
    }
    var newSize := lb.n + 1;
    lb.data := Realloc(lb.data, newSize, limit, lb.n);
    if lb.data == null {
      return false;
    }
    lb.n := newSize;
    return true;
  }

  /** The outer loop: fill the buffer, and grow it by a byte while the line is not at its end. */
  method ReadGrowing(lb: LineBuffer, st: Stream, limit: nat) returns (r: int)
    requires lb.data != null && 1 <= lb.n <= lb.data.Length && lb.n <= SSIZE_MAX && !st.error && !st.eof
    modifies lb, lb.data, st
    ensures lb.Valid() && !st.error && (lb.data == null || lb.data == old(lb.data) || fresh(lb.data))
    ensures var s := Next(old(st.rest), Cap(old(lb.n), limit));
      && r == s.result && st.rest == s.rest && st.eof == s.eof
      && (r >= 0 ==> lb.data != null && r < lb.n && lb.data[..r] == s.line && lb.data[r] == 0)
      && (r >= 0 ==> Cap(lb.n, limit) == Cap(old(lb.n), limit))
  {
    ghost var rest, k := st.rest, Cap(lb.n, limit);
    var cur: nat := 0;
    while !st.error && !st.eof
      invariant lb.data != null && lb.n <= lb.data.Length && (lb.data == old(lb.data) || fresh(lb.data))
      invariant !st.error && !st.eof && cur <= End(rest) && cur < lb.n && lb.n <= SSIZE_MAX
      invariant Cap(lb.n, limit) == k
      invariant st.rest == rest[cur..] && lb.data[..cur] == rest[..cur]
      decreases k - lb.n
    {
      var done, count;
      done, count, cur := Fill(lb.data, lb.n, st, cur, rest);
      if done {
        return count;
      }
      ghost var filled := lb.data[..lb.n];
      var ok := Grow(lb, limit);
      if !ok {
        return -1;
      }
      assert lb.data[..cur] == filled[..cur];
    }
    return -1;
  }

  /** The body of getline after its check for NULL arguments. */
  method ReadLine(lb: LineBuffer, st: Stream, limit: nat) returns (r: Outcome)
    requires lb.Valid()
    modifies lb, lb.data, st
    ensures lb.Valid() && st.error == old(st.error)
    ensures lb.data != old(lb.data) ==> lb.data == null || fresh(lb.data)
    ensures old(st.error || st.eof) ==> r == Returned(-1) && st.rest == old(st.rest) && st.eof == old(st.eof)
    ensures r == NullWrite <==> !old(st.error || st.eof) && old(WritesNull(lb.Missing(), limit, st.rest))
    ensures !old(st.error || st.eof) && r.Returned? ==>
      var s := Next(old(st.rest), Cap(old(lb.Size()), limit));
      && r.count == s.result && st.rest == s.rest && st.eof == s.eof
      && (r.count >= 0 ==> lb.data != null && r.count < lb.n && lb.data[..r.count] == s.line && lb.data[r.count] == 0)
      && (r.count >= 0 ==> !lb.Missing() && Cap(lb.Size(), limit) == Cap(old(lb.Size()), limit))
  {
    if st.error || st.eof {
      return Returned(-1);
    }
    if lb.data == null || lb.n == 0 {
      lb.data := Malloc(2, limit);
      lb.n := 2;
    }
    if lb.data == null {
      // The failed allocation goes unnoticed: the loop reads a byte and stores it through NULL.
      var got := st.Fgetc();
      return if ToChar(got) == EOF then Returned(-1) else NullWrite;
    }
    var count := ReadGrowing(lb, st, limit);
    return Returned(count);
  }

  /** The buffer is NULL when lineptr or n is; NULL arguments are refused and nothing changes. */
  method GetLine(lb: LineBuffer?, st: Stream?, limit: nat) returns (r: Outcome)
    requires lb != null ==> lb.Valid()
    modifies if lb == null || st == null then {} else {lb, lb.data, st}
    ensures lb == null || st == null ==> r == Returned(-1)
    ensures lb != null && st != null ==>
      && lb.Valid() && st.error == old(st.error)
      && (lb.data != old(lb.data) ==> lb.data == null || fresh(lb.data))
    ensures lb != null && st != null && old(st.error || st.eof) ==>
      r == Returned(-1) && st.rest == old(st.rest) && st.eof == old(st.eof)
    ensures r == NullWrite <==>
      && lb != null && st != null && !old(st.error || st.eof)
      && limit < 2 && old((lb.data == null || lb.n == 0) && st.rest != [] && st.rest[0] != 255)
    ensures lb != null && st != null && !old(st.error || st.eof) && r.Returned? ==>
      var s := Next(old(st.rest), Cap(old(lb.Size()), limit));
      && r.count == s.result && st.rest == s.rest && st.eof == s.eof
      && (r.count >= 0 ==> lb.data != null && r.count < lb.n && lb.data[..r.count] == s.line && lb.data[r.count] == 0)
      && (r.count >= 0 ==> !lb.Missing() && Cap(lb.Size(), limit) == Cap(old(lb.Size()), limit))
    ensures lb != null && st != null && !old(st.error || st.eof) && r.Returned? ==>
      var rest, e, n := old(st.rest), End(old(st.rest)), old(if lb.data == null || lb.n == 0 then 2 else lb.n);
      if e + 2 <= n || (e + 2 <= limit && e + 2 <= SSIZE_MAX) then
        && r.count == (if e < |rest| && rest[e] == 10 then e + 1 else if e == 0 then -1 else e)
        && st.rest == (if e < |rest| then rest[e + 1..] else [])
        && (r.count > 0 ==> lb.data != null && r.count < lb.n && lb.data[..r.count] == rest[..r.count])
      else
        r.count == -1
  {
    if lb == null || st == null {
      return Returned(-1);
    }
    CallCounts(st.rest, if lb.data == null || lb.n == 0 then 2 else lb.n, limit);
    r := ReadLine(lb, st, limit);
  }

  // ----- The run of calls up to the first -1 -----

  /** The lines such a run returns; none once the stream is at its end or in error. */
  ghost function Pieces(rest: seq<Byte>, eof: bool, k: nat): (ps: seq<seq<Byte>>)
    requires 1 <= k
    decreases |rest|
  {
    if eof then [] else
      var s := Next(rest, k);
      if s.result == -1 then [] else [s.line] + Pieces(s.rest, s.eof, k)
  }

  /** The calls, none with NULL arguments.  Only the first one can write through NULL. */
  method ReadLines(lb: LineBuffer, st: Stream, limit: nat) returns (ps: seq<seq<Byte>>, crashed: bool)
    requires lb.Valid()
    modifies lb, lb.data, st
    ensures crashed <==> !old(st.error || st.eof) && old(WritesNull(lb.Missing(), limit, st.rest))
    ensures crashed ==> ps == []
    ensures !crashed ==> ps == Pieces(old(st.rest), old(st.error || st.eof), Cap(old(lb.Size()), limit))
  {
    ghost var k := Cap(lb.Size(), limit);
    ghost var whole := Pieces(st.rest, st.error || st.eof, k);
    ghost var fails := !(st.error || st.eof) && WritesNull(lb.Missing(), limit, st.rest);
    ps, crashed := [], false;
    while true
      invariant lb.Valid() && (lb.data == old(lb.data) || lb.data == null || fresh(lb.data))
      invariant Cap(lb.Size(), limit) == k && whole == ps + Pieces(st.rest, st.error || st.eof, k)
      invariant fails <==> !(st.error || st.eof) && WritesNull(lb.Missing(), limit, st.rest)
      invariant fails ==> ps == []
      decreases |st.rest|
    {
      ghost var rest, stop := st.rest, st.error || st.eof;
      var r := ReadLine(lb, st, limit);
      if r == NullWrite {
        return ps, true;
      }
      if r.count == -1 {
        break;
      }
      var line := lb.data[..r.count];
      assert Pieces(rest, stop, k) == [line] + Pieces(st.rest, st.error || st.eof, k);
      ps := ps + [line];
    }
  }

  /** The whole run, in numbers: when the lines read make up the stream. */
  method ReadAll(lb: LineBuffer, st: Stream, limit: nat) returns (ps: seq<seq<Byte>>, crashed: bool)
    requires lb.Valid()
    modifies lb, lb.data, st
    ensures crashed <==>
      && !old(st.error || st.eof)
      && limit < 2 && old((lb.data == null || lb.n == 0) && st.rest != [] && st.rest[0] != 255)
    ensures crashed ==> ps == []
    ensures !crashed ==> ps == Pieces(old(st.rest), old(st.error || st.eof), Cap(old(lb.Size()), limit))
    ensures !crashed && !old(st.error || st.eof) ==>
      var rest, n := old(st.rest), old(if lb.data == null || lb.n == 0 then 2 else lb.n);
      Flatten(ps) == rest <==>
        || rest == []
        || (255 !in rest && forall i, j :: 0 <= i <= j <= |rest| && 10 !in rest[i..j] ==>
              j - i + 2 <= n || (j - i + 2 <= limit && j - i + 2 <= SSIZE_MAX))
  {
    RunMeaning(st.rest, if lb.data == null || lb.n == 0 then 2 else lb.n, limit);
    ps, crashed := ReadLines(lb, st, limit);
  }

  function Flatten(ps: seq<seq<Byte>>): (s: seq<Byte>) {
    if ps == [] then [] else ps[0] + Flatten(ps[1..])
  }

  predicate NewlineFree(rest: seq<Byte>, i: int, j: int) {
    0 <= i <= j <= |rest| && forall q :: i <= q < j ==> rest[q] != NEWLINE
  }

  /** No run of bytes without a newline is too long for a buffer of k bytes. */
  ghost predicate LinesFit(rest: seq<Byte>, k: nat) {
    forall i, j :: NewlineFree(rest, i, j) ==> j - i + 2 <= k
  }

  lemma FlattenStep(rest: seq<Byte>, k: nat)
    requires 1 <= k && Next(rest, k).result != -1
    ensures var s := Next(rest, k);
      Flatten(Pieces(rest, false, k)) == s.line + Flatten(Pieces(s.rest, s.eof, k))
  {
    var s := Next(rest, k);
    assert Pieces(rest, false, k)[1..] == Pieces(s.rest, s.eof, k);
  }

  lemma {:induction false} FlattenBound(rest: seq<Byte>, eof: bool, k: nat)
    requires 1 <= k
    ensures |Flatten(Pieces(rest, eof, k))| <= |rest|
    decreases |rest|
  {
    var s := Next(rest, k);
    if !eof && s.result != -1 {
      FlattenBound(s.rest, s.eof, k);
      FlattenStep(rest, k);
    }
  }

  /** With neither folded bytes nor overlong lines, the lines make up the stream. */
  lemma {:induction false} PiecesComplete(rest: seq<Byte>, k: nat)
    requires 1 <= k && FOLDED !in rest && LinesFit(rest, k)
    ensures Flatten(Pieces(rest, false, k)) == rest
    decreases |rest|
  {
    var e := End(rest);
    assert NewlineFree(rest, 0, e);
    if e < |rest| {
      assert rest[e] == NEWLINE;
      SuffixFits(rest, e + 1, k);
      PiecesComplete(rest[e + 1..], k);
      FlattenStep(rest, k);
      assert Flatten(Pieces(rest, false, k)) == rest[..e + 1] + rest[e + 1..];
    } else if e > 0 {
      FlattenStep(rest, k);
      assert Flatten(Pieces(rest, false, k)) == rest + [];
    } else {
      assert Pieces(rest, false, k) == [] && rest == [];
    }
  }

  lemma SuffixFits(rest: seq<Byte>, d: nat, k: nat)
    requires d <= |rest| && LinesFit(rest, k)
    ensures LinesFit(rest[d..], k)
  {
    forall i, j | NewlineFree(rest[d..], i, j)
      ensures j - i + 2 <= k
    {
      assert forall q :: d + i <= q < d + j ==> rest[q] == rest[d..][q - d];
      assert NewlineFree(rest, d + i, d + j);
    }
  }

  /** Otherwise some byte of the stream is missing from the lines. */
  lemma {:induction false} PiecesLose(rest: seq<Byte>, k: nat)
    requires 1 <= k && rest != [] && !(FOLDED !in rest && LinesFit(rest, k))
    ensures |Flatten(Pieces(rest, false, k))| < |rest|
    decreases |rest|
  {
    var s, e := Next(rest, k), End(rest);
    if s.result != -1 {
      FlattenStep(rest, k);
      if e < |rest| && rest[e] == NEWLINE {
        StillBad(rest, e, k);
        PiecesLose(s.rest, k);
      } else if e < |rest| {
        FlattenBound(s.rest, s.eof, k);
      }
    }
  }

  lemma StillBad(rest: seq<Byte>, e: nat, k: nat)
    requires IsEnd(rest, e) && e < |rest| && rest[e] == NEWLINE && e + 2 <= k
    requires !(FOLDED !in rest && LinesFit(rest, k))
    ensures rest[e + 1..] != [] && !(FOLDED !in rest[e + 1..] && LinesFit(rest[e + 1..], k))
  {
    if FOLDED in rest {
      var q :| 0 <= q < |rest| && rest[q] == FOLDED;
      assert rest[e + 1..][q - e - 1] == FOLDED;
    } else {
      var i, j :| NewlineFree(rest, i, j) && j - i + 2 > k;
      assert e < i;
      assert NewlineFree(rest[e + 1..], i - e - 1, j - e - 1);
    }
  }

  /**
   * The lines of a run, concatenated, are a non-empty stream exactly when it holds no folded byte
   * and no line too long for the memory there is.
   */
  lemma RunExact(rest: seq<Byte>, k: nat)
    requires 1 <= k
    ensures Flatten(Pieces(rest, false, k)) == rest <==> rest == [] || (FOLDED !in rest && LinesFit(rest, k))
  {
    if FOLDED !in rest && LinesFit(rest, k) {
      PiecesComplete(rest, k);
    } else if rest != [] {
      PiecesLose(rest, k);
    }
  }

  /**
   * In numbers: the lines of a run that starts with a buffer of n bytes make up a non-empty stream
   * exactly when it holds no byte 255 and no line that, with two bytes more, fits neither the buffer nor
   * the memory up to SSIZE_MAX.
   */
  lemma RunMeaning(rest: seq<Byte>, n: nat, limit: nat)
    requires 1 <= n <= 0x7FFF_FFFF_FFFF_FFFF
    ensures Flatten(Pieces(rest, false, Cap(n, limit))) == rest <==>
        || rest == []
        || (255 !in rest && forall i, j :: 0 <= i <= j <= |rest| && 10 !in rest[i..j] ==>
              j - i + 2 <= n || (j - i + 2 <= limit && j - i + 2 <= 0x7FFF_FFFF_FFFF_FFFF))
  {
    RunExact(rest, Cap(n, limit));
    forall i, j | 0 <= i <= j <= |rest|
      ensures NewlineFree(rest, i, j) <==> 10 !in rest[i..j]
    {
      assert forall q :: i <= q < j ==> rest[q] == rest[i..j][q - i];
    }
  }

  /** "A", a folded byte and "B": the folded byte is missing from the lines, whatever the memory. */
  lemma FoldedByteLost(k: nat)
    requires 1 <= k
    ensures Flatten(Pieces([65, FOLDED, 66], false, k)) != [65, FOLDED, 66]
  {
    assert [65, FOLDED, 66][1] == FOLDED;
    RunExact([65, FOLDED, 66], k);
  }

  /**
   * Every line is non-empty and holds a newline at most at its end; without folded bytes all but the
   * last end in one.
   */
  lemma {:induction false} PiecesShape(rest: seq<Byte>, k: nat, i: nat)
    requires 1 <= k && i < |Pieces(rest, false, k)|
    ensures var p := Pieces(rest, false, k)[i];
      && p != [] && NEWLINE !in p[..|p| - 1]
      && (FOLDED !in rest && i + 1 < |Pieces(rest, false, k)| ==> p[|p| - 1] == NEWLINE)
    decreases |rest|
  {
    var s := Next(rest, k);
    if i != 0 {
      PiecesShape(s.rest, k, i - 1);
    }
  }
}
