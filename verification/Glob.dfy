/** glob of share/libc/glob.c: the NULL-terminated result list over runs of appending calls. */
module Glob {
  import opened CMemory

  /** A char* of the result list. */
  datatype Entry = Null | Path(text: string)

  datatype Status = Success | NoSpace | Aborted | NoMatch

  /** errfunc: absent, or present and returning zero or not. */
  datatype Handler = NoHandler | Handler(stops: bool)

  /** The arguments of a call, and the choices its stubs make: matches found, an error met, memory granted. */
  datatype Call = Call(
    pattern: string, doOffs: bool, noCheck: bool, append: bool, err: bool, handler: Handler,
    found: nat, meetsError: bool, memory: bool)

  /** The entries a call puts into the list. */
  function New(c: Call): (es: seq<Entry>)
    ensures Null !in es
  {
    if c.found != 0 then Copies(c.found, Path("glob result"))
    else if c.noCheck then [Path(c.pattern)]
    else []
  }

  function StatusOf(c: Call): (s: Status) {
    if New(c) == [] then NoMatch
    else if !c.memory then NoSpace
    else if c.found != 0 && c.meetsError && c.handler.Handler? && (c.handler.stops || c.err) then Aborted
    else Success
  }

  function Nulls(n: nat): (es: seq<Entry>)
    ensures |es| == n && forall i :: 0 <= i < n ==> es[i] == Null
  {
    seq(n, _ => Null)
  }

  /** Reserved slots, then the entries, then the terminator. */
  function Layout(offs: nat, entries: seq<Entry>): seq<Entry> {
    Nulls(offs) + entries + [Null]
  }

  lemma LayoutIs(v: seq<Entry>, offs: nat, earlier: seq<Entry>, added: seq<Entry>)
    requires |v| == offs + |earlier| + |added| + 1 && v[|v| - 1] == Null
    requires v[..offs] == Nulls(offs) && v[offs..offs + |earlier|] == earlier
    requires forall k :: offs + |earlier| <= k < |v| - 1 ==> v[k] == added[k - offs - |earlier|]
    ensures v == Layout(offs, earlier + added)
  {
    assert v == v[..offs] + v[offs..offs + |earlier|] + v[offs + |earlier|..|v| - 1] + [v[|v| - 1]];
    assert v[offs + |earlier|..|v| - 1] == added;
  }

  /**
   * The list of a call that builds one: offs NULLs, the earlier entries, the pattern itself or as many
   * results as were found, and NULL.
   */
  lemma ListMeaning(c: Call, offs: nat, earlier: seq<Entry>)
    requires c.found != 0 || c.noCheck
    ensures var v, first := Layout(offs, earlier + New(c)), offs + |earlier|;
      && |v| == first + (if c.found == 0 then 1 else c.found) + 1
      && (forall i :: 0 <= i < offs ==> v[i] == Null)
      && v[offs..first] == earlier
      && (c.found == 0 ==> v[first] == Path(c.pattern))
      && (c.found != 0 ==> forall i :: first <= i < first + c.found ==> v[i] == Path("glob result"))
      && v[|v| - 1] == Null
  {
    var v := Layout(offs, earlier + New(c));
    assert v == Nulls(offs) + earlier + New(c) + [Null];
  }

  /** Between position offs and the next NULL the list v holds these entries. */
  ghost predicate Holds(v: seq<Entry>, offs: nat, entries: seq<Entry>) {
    var end := offs + |entries|;
    end < |v| && v[end] == Null && v[offs..end] == entries && Null !in entries
  }

  class GlobT {
    var pathc: nat
    var pathv: array?<Entry>
    const offs: nat

    function Reserved(c: Call): nat { if c.doOffs then offs else 0 }

    /** An appending call needs a list with a terminator at or after its reserved slots. */
    method Glob(c: Call, ghost earlier: seq<Entry>) returns (s: Status)
      requires c.found <= 10
      requires c.append ==> pathv != null && Holds(pathv[..], if c.doOffs then offs else 0, earlier)
      requires !c.append ==> earlier == []
      modifies this
      ensures s == StatusOf(c) && pathc == c.found
      ensures s == NoMatch ==> pathv == old(pathv)
      ensures s == NoSpace ==> pathv == null
      ensures s == Success || s == Aborted ==>
        pathv != null && fresh(pathv) && pathv[..] == Layout(if c.doOffs then offs else 0, earlier + New(c))
      ensures s == NoMatch <==> c.found == 0 && !c.noCheck
      ensures s == NoSpace <==> (c.found != 0 || c.noCheck) && !c.memory
      ensures s == Aborted <==>
        c.found != 0 && c.memory && c.meetsError && c.handler.Handler? && (c.handler.stops || c.err)
    {
      pathc := c.found;
      var offs := Reserved(c);
      var prevLen := 0;
      if c.append {
        while pathv[offs + prevLen] != Null
          invariant prevLen <= |earlier|
          decreases |earlier| - prevLen
        {
          assert pathv[..][offs..offs + |earlier|][prevLen] == earlier[prevLen];
          prevLen := prevLen + 1;
        }
        assert prevLen == |earlier|;
      }
      if pathc == 0 {
        if !c.noCheck {
          return NoMatch;
        }
        pathv := Extend(if c.append then pathv else null, offs, prevLen, 1, Path(c.pattern), c.memory, earlier);
        assert Copies(1, Path(c.pattern)) == New(c);
        return if pathv == null then NoSpace else Success;
      }
      pathv := Extend(if c.append then pathv else null, offs, prevLen, pathc, Path("glob result"), c.memory, earlier);
      if pathv == null {
        return NoSpace;
      }
      if !c.meetsError {
        return Success;
      }
      if c.handler.Handler? && (c.handler.stops || c.err) {
        return Aborted;
      }
      return Success;
    }
  }

  function Copies(n: nat, e: Entry): (es: seq<Entry>) { seq(n, _ => e) }

  /** Reallocates the list p for n more entries, clears the reserved slots and writes entries and terminator. */
  method Extend(p: array?<Entry>, offs: nat, prevLen: nat, n: nat, e: Entry, memory: bool, ghost earlier: seq<Entry>)
    returns (q: array?<Entry>)
    requires |earlier| == prevLen && (p == null ==> prevLen == 0)
    requires p != null ==> offs + prevLen <= p.Length && p[offs..offs + prevLen] == earlier
    ensures q == null <==> !memory
    ensures q != null ==> fresh(q) && q[..] == Layout(offs, earlier + Copies(n, e))
  {
    q := Realloc(p, offs + prevLen + n + 1, memory, offs + prevLen);
    if q == null {
      return;
    }
    assert p != null ==> q[..offs + prevLen][offs..] == p[..offs + prevLen][offs..];
    assert q[offs..][..prevLen] == earlier;
    ClearReserved(q, offs);
    ghost var kept := q[..offs + prevLen];
    assert kept[offs..] == q[offs..][..prevLen];
    for i := 0 to n
      invariant q[..offs + prevLen] == kept
      invariant forall k :: offs + prevLen <= k < offs + prevLen + i ==> q[k] == e
    {
      q[offs + prevLen + i] := e;
    }
    q[prevLen + offs + n] := Null;
    assert q[..offs] == kept[..offs] && q[offs..offs + prevLen] == kept[offs..];
    LayoutIs(q[..], offs, earlier, Copies(n, e));
  }

  /** realloc: keeps the first `keep` entries of the old block, the others are undefined. */
  method Realloc(p: array?<Entry>, size: nat, memory: bool, ghost keep: nat) returns (q: array?<Entry>)
    requires keep <= size && (p != null ==> keep <= p.Length)
    ensures q == null <==> !memory
    ensures q != null ==> fresh(q) && q.Length == size
    ensures q != null && p != null ==> q[..keep] == p[..keep]
  {
    if !memory {
      return null;
    }
    var block := new Entry[size];
    if p != null {
      var n := if p.Length < size then p.Length else size;
      for i := 0 to n
        invariant block[..i] == p[..i]
      {
        block[i] := p[i];
      }
    }
    return block;
  }

  method ClearReserved(v: array<Entry>, offs: nat)
    requires offs <= v.Length
    modifies v
    ensures v[..offs] == Nulls(offs) && v[offs..] == old(v[offs..])
  {
    for i := 0 to offs
      invariant forall k :: 0 <= k < i ==> v[k] == Null
      invariant v[offs..] == old(v[offs..])
    {
      v[i] := Null;
    }
  }

  // ----- Runs of appending calls -----

  lemma LayoutHolds(offs: nat, entries: seq<Entry>)
    requires Null !in entries
    ensures Holds(Layout(offs, entries), offs, entries)
  {
    assert Layout(offs, entries)[offs..offs + |entries|] == entries;
  }

  /** All entries that a sequence of calls adds. */
  function AllNew(calls: seq<Call>): (es: seq<Entry>)
    ensures Null !in es
  {
    if calls == [] then [] else AllNew(calls[..|calls| - 1]) + New(calls[|calls| - 1])
  }

  /** The entries of a run are those of its parts, in order. */
  lemma {:induction false} AllNewConcat(xs: seq<Call>, ys: seq<Call>)
    ensures AllNew(xs + ys) == AllNew(xs) + AllNew(ys)
    decreases |ys|
  {
    if ys == [] {
      assert xs + ys == xs;
    } else {
      var init, last := ys[..|ys| - 1], ys[|ys| - 1];
      calc {
        AllNew(xs + ys);
        { assert xs + ys == (xs + init) + [last]; AllNewLast(xs + init, last); }
        AllNew(xs + init) + New(last);
        { AllNewConcat(xs, init); }
        AllNew(xs) + AllNew(init) + New(last);
        { Regroup(AllNew(xs), AllNew(init), New(last)); }
        AllNew(xs) + (AllNew(init) + New(last));
        { assert ys == init + [last]; AllNewLast(init, last); }
        AllNew(xs) + AllNew(ys);
      }
    }
  }

  lemma Regroup(x: seq<Entry>, y: seq<Entry>, z: seq<Entry>)
    ensures x + y + z == x + (y + z)
  {
  }

  lemma AllNewLast(calls: seq<Call>, c: Call)
    ensures AllNew(calls + [c]) == AllNew(calls) + New(c)
  {
    assert (calls + [c])[..|calls|] == calls;
  }

  /** Those of one call are the pattern, the results found, or none. */
  lemma AllNewOne(c: Call)
    ensures c.found != 0 ==>
      |AllNew([c])| == c.found && forall i :: 0 <= i < c.found ==> AllNew([c])[i] == Path("glob result")
    ensures c.found == 0 ==> AllNew([c]) == if c.noCheck then [Path(c.pattern)] else []
  {
    assert [c][..0] == [];
    assert AllNew([c]) == New(c);
  }

  /** One appending call with the same reserved slots and enough memory. */
  method AppendOne(g: GlobT, c: Call, ghost entries: seq<Entry>)
    requires g.pathv != null && Null !in entries && g.pathv[..] == Layout(g.Reserved(c), entries)
    requires c.append && c.memory && c.found <= 10
    modifies g
    ensures g.pathv != null && g.pathv[..] == Layout(g.Reserved(c), entries + New(c)) && g.pathc == c.found
  {
    LayoutHolds(g.Reserved(c), entries);
    assert entries + [] == entries;
    var s := g.Glob(c, entries);
  }

  /**
   * After a first call has built its list, appending calls with the same reserved slots and enough
   * memory keep the reserved NULLs, all earlier entries in order, the new ones and the terminator.
   */
  method AppendRun(g: GlobT, calls: seq<Call>, doOffs: bool, ghost entries: seq<Entry>)
    requires g.pathv != null && Null !in entries
    requires g.pathv[..] == Layout(if doOffs then g.offs else 0, entries)
    requires forall i :: 0 <= i < |calls| ==>
      calls[i].append && calls[i].memory && calls[i].doOffs == doOffs && calls[i].found <= 10
    modifies g
    ensures g.pathv != null
    ensures g.pathv[..] == Layout(if doOffs then g.offs else 0, entries + AllNew(calls))
    ensures calls != [] ==> g.pathc == calls[|calls| - 1].found
  {
    ghost var offs, all := if doOffs then g.offs else 0, entries;
    for i := 0 to |calls|
      invariant all == entries + AllNew(calls[..i])
      invariant g.pathv != null && g.pathv[..] == Layout(offs, all)
      invariant i > 0 ==> g.pathc == calls[i - 1].found
    {
      AppendOne(g, calls[i], all);
      assert calls[..i + 1][..i] == calls[..i];
      all := all + New(calls[i]);
    }
    assert calls[..|calls|] == calls;
  }

  /** A whole run: a first call that builds a list, whether or not an error aborts it, then appending calls. */
  method GlobRun(g: GlobT, first: Call, calls: seq<Call>) returns (s: Status)
    requires !first.append && first.found <= 10
    requires forall i :: 0 <= i < |calls| ==>
      calls[i].append && calls[i].memory && calls[i].doOffs == first.doOffs && calls[i].found <= 10
    modifies g
    ensures s == StatusOf(first)
    ensures s == Success || s == Aborted ==>
      g.pathv != null && g.pathv[..] == Layout(g.Reserved(first), New(first) + AllNew(calls))
  {
    s := g.Glob(first, []);
    if s == Success || s == Aborted {
      assert [] + New(first) == New(first);
      AppendRun(g, calls, first.doOffs, New(first));
    }
  }

  /**
   * An appending call with other reserved slots keeps the earlier entries exactly when there were
   * none; `kept` is what the call finds from its own offset on.
   */
  lemma OffsetsMustAgree(offs: nat, entries: seq<Entry>, offs': nat, kept: seq<Entry>, added: seq<Entry>)
    requires Null !in entries && Holds(Layout(offs, entries), offs', kept)
    ensures (Layout(offs', kept + added) == Layout(offs', entries + added)) <==> offs' == offs || entries == []
  {
    var v := Layout(offs, entries);
    assert |Layout(offs', kept + added)| == offs' + |kept| + |added| + 1;
    if offs' < offs {
      assert v[offs'] == Null;
      assert kept == [];
    } else if offs' == offs {
      SameEntries(v, offs, entries, kept);
    } else {
      assert offs' + |kept| < offs + |entries| + 1;
    }
  }

  lemma SameEntries(v: seq<Entry>, offs: nat, x: seq<Entry>, y: seq<Entry>)
    requires v == Layout(offs, x) && Null !in x && Holds(v, offs, y)
    ensures x == y
  {
    LayoutHolds(offs, x);
    assert |x| == |y|;
  }
}
