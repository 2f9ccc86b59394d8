/**
 * The environment functions of share/libc/stdlib.c.  Every nondeterministic choice of the stubs is
 * an argument, so a statement about all arguments is one about all choices.
 */
module Environment {
  import opened CMemory
  import opened StringSearch

  const ARG_MAX: nat := 4096
  const LEN: nat := 64
  const EQUALS: Byte := 61  // '='

  /** A char*: NULL, a pointer into __fc_env_strings, or a string of a caller. */
  datatype Pointer = Null | Internal(offset: int) | External(address: nat)

  /** __fc_env, __fc_env_strings and the flag `init`. */
  datatype Env = Env(slots: seq<Pointer>, strings: seq<Byte>, ready: bool)

  /** Frama_C_interval for an entropy value. */
  function Interval(min: int, max: int, entropy: int): (r: int)
    requires min <= max
    ensures min <= r <= max
    ensures min <= entropy <= max ==> r == entropy
  {
    if min <= entropy <= max then entropy else min
  }

  function AnySlot(entropy: int): (k: nat)
    ensures k < 4096
    ensures 0 <= entropy < 4096 ==> k == entropy
  {
    Interval(0, ARG_MAX - 1, entropy)
  }

  function AnyString(entropy: int): (p: Pointer) { Internal(Interval(0, LEN - 1, entropy)) }

  /** What the first call makes of the environment: all but the last byte, and every slot. */
  datatype Choices = Choices(noise: seq<Byte>, picks: seq<int>) {
    predicate Valid() { |noise| == LEN - 1 && |picks| == ARG_MAX }
  }

  datatype Call =
    | GetEnv(hit: bool, slot: int)
    | PutEnv(text: nat, store: bool, full: bool, slot: int)
    | SetEnv(badName: bool, full: bool, scramble: Option<seq<Byte>>, slot: int, pick: int)
    | UnsetEnv(badName: bool, hit: bool, slot: int)
  {
    predicate Valid() { this.SetEnv? && scramble.Some? ==> |scramble.value| == LEN - 1 }

    /** The call returns before it touches the environment. */
    predicate Refused() { (this.SetEnv? || this.UnsetEnv?) && badName }
  }

  // ----- Reference: the environment after a call -----

  predicate WellFormed(s: Env) { |s.slots| == ARG_MAX && |s.strings| == LEN }

  function MakeUnknown(strings: seq<Byte>, noise: seq<Byte>): seq<Byte>
    requires |noise| <= |strings|
  {
    noise + strings[|noise|..]
  }

  function Scrambled(strings: seq<Byte>, scramble: Option<seq<Byte>>): seq<Byte>
    requires scramble.Some? ==> |scramble.value| <= |strings|
  {
    if scramble.Some? then MakeUnknown(strings, scramble.value) else strings
  }

  function Picked(picks: seq<int>): seq<Pointer> { seq(|picks|, i requires 0 <= i < |picks| => AnyString(picks[i])) }

  function Initialised(s: Env, ch: Choices): (r: Env)
    requires WellFormed(s) && ch.Valid()
    ensures WellFormed(r) && r.ready
  {
    if s.ready then s else Env(Picked(ch.picks), MakeUnknown(s.strings, ch.noise), true)
  }

  function After(s: Env, c: Call, ch: Choices): (r: Env)
    requires WellFormed(s) && ch.Valid() && c.Valid()
    ensures WellFormed(r)
  {
    if c.Refused() then s else Changed(Initialised(s, ch), c)
  }

  function Changed(t: Env, c: Call): (r: Env)
    requires WellFormed(t) && c.Valid()
    ensures WellFormed(r)
  {
    match c
    case GetEnv(_, _) => t
    case PutEnv(text, store, full, slot) =>
      if store && !full then Env(t.slots[AnySlot(slot) := External(text)], t.strings, t.ready) else t
    case SetEnv(_, full, scramble, slot, pick) =>
      if full then t
      else Env(t.slots[AnySlot(slot) := AnyString(pick)], Scrambled(t.strings, scramble), t.ready)
    case UnsetEnv(_, hit, slot) =>
      if hit then Env(t.slots[AnySlot(slot) := Null], t.strings, t.ready) else t
  }

  /** What getenv returns in an environment it has initialised. */
  function Found(s: Env, hit: bool, slot: int): (p: Pointer)
    requires WellFormed(s)
  {
    if hit then s.slots[AnySlot(slot)] else Null
  }

  // ----- Safety over whole runs -----

  /** Before the first call: static storage, all zero. */
  function Start(): (s: Env)
    ensures WellFormed(s) && !s.ready
  {
    Env(seq(ARG_MAX, _ => Null), seq(LEN, _ => 0), false)
  }

  datatype Made = Made(call: Call, choices: Choices)

  predicate ValidRun(calls: seq<Made>) {
    forall i :: 0 <= i < |calls| ==> calls[i].call.Valid() && calls[i].choices.Valid()
  }

  /** The environment after a run of calls. */
  function StateAfter(calls: seq<Made>): (s: Env)
    requires ValidRun(calls)
    ensures WellFormed(s)
  {
    if calls == [] then Start() else
      After(StateAfter(calls[..|calls| - 1]), calls[|calls| - 1].call, calls[|calls| - 1].choices)
  }

  /** The strings that callers have handed to putenv. */
  function Given(calls: seq<Made>): (g: set<nat>) {
    if calls == [] then {} else
      var last := calls[|calls| - 1].call;
      Given(calls[..|calls| - 1]) + if last.PutEnv? then {last.text} else {}
  }

  predicate Provenance(p: Pointer, given: set<nat>) {
    match p
    case Null => true
    case Internal(offset) => 0 <= offset < LEN
    case External(address) => address in given
  }

  ghost predicate Invariant(s: Env, given: set<nat>) {
    && WellFormed(s) && s.strings[LEN - 1] == 0
    && forall i :: 0 <= i < ARG_MAX ==> Provenance(s.slots[i], given)
  }

  lemma InitialisedKeeps(s: Env, ch: Choices, given: set<nat>)
    requires Invariant(s, given) && ch.Valid()
    ensures Invariant(Initialised(s, ch), given)
  {
  }

  lemma AfterKeeps(s: Env, c: Call, ch: Choices, given: set<nat>, given': set<nat>)
    requires Invariant(s, given) && c.Valid() && ch.Valid()
    requires given <= given' && (c.PutEnv? ==> c.text in given')
    ensures Invariant(After(s, c, ch), given')
  {
    InitialisedKeeps(s, ch, given);
  }

  /** Whatever is called and chosen, slots point where they may and the strings stay terminated. */
  lemma {:induction false} RunInvariant(calls: seq<Made>)
    requires ValidRun(calls)
    ensures Invariant(StateAfter(calls), Given(calls))
  {
    if calls != [] {
      var n := |calls| - 1;
      var before := calls[..n];
      RunInvariant(before);
      AfterKeeps(StateAfter(before), calls[n].call, calls[n].choices, Given(before), Given(calls));
    }
  }

  /**
   * After any run getenv, which initialises the environment if need be, returns NULL, a terminated
   * string of the environment, or a string that a caller gave to putenv, and so a terminated string
   * while callers keep theirs terminated.
   */
  lemma GetEnvSafe(calls: seq<Made>, hit: bool, slot: int, ch: Choices, mem: seq<Byte>)
    requires ValidRun(calls) && ch.Valid()
    requires forall p :: p in Given(calls) ==> Terminated(mem, p)
    ensures var s := After(StateAfter(calls), Call.GetEnv(hit, slot), ch);
      match Found(s, hit, slot)
      case Null => true
      case Internal(offset) => 0 <= offset < 64 && Terminated(s.strings, offset)
      case External(address) => address in Given(calls) && Terminated(mem, address)
  {
    RunInvariant(calls);
    AfterKeeps(StateAfter(calls), Call.GetEnv(hit, slot), ch, Given(calls), Given(calls));
  }

  /** The first getenv of a run that hits a slot returns a string of the environment, not NULL. */
  lemma FirstGetEnv(slot: int, ch: Choices)
    requires ch.Valid()
    ensures Found(After(StateAfter([]), Call.GetEnv(true, slot), ch), true, slot).Internal?
  {
  }

  // ----- What callers observe -----

  /** The call writes no slot, or another one than k. */
  predicate Leaves(c: Call, k: nat) {
    match c
    case GetEnv(_, _) => true
    case PutEnv(_, store, full, slot) => !store || full || AnySlot(slot) != k
    case SetEnv(badName, full, _, slot, _) => badName || full || AnySlot(slot) != k
    case UnsetEnv(badName, hit, slot) => badName || !hit || AnySlot(slot) != k
  }

  /** Calls that leave slot k alone keep what an initialised environment has there. */
  lemma {:induction false} Undisturbed(before: seq<Made>, later: seq<Made>, k: nat)
    requires ValidRun(before) && ValidRun(later) && StateAfter(before).ready && k < ARG_MAX
    requires forall i :: 0 <= i < |later| ==> Leaves(later[i].call, k)
    ensures ValidRun(before + later) && StateAfter(before + later).ready
    ensures StateAfter(before + later).slots[k] == StateAfter(before).slots[k]
    decreases |later|
  {
    if later == [] {
      assert before + later == before;
    } else {
      var n := |later| - 1;
      Undisturbed(before, later[..n], k);
      assert before + later == (before + later[..n]) + [later[n]];
      LastCall(before + later[..n], later[n]);
    }
  }

  lemma {:induction false} LastCall(before: seq<Made>, w: Made)
    requires ValidRun(before) && w.call.Valid() && w.choices.Valid()
    ensures ValidRun(before + [w])
    ensures StateAfter(before + [w]) == After(StateAfter(before), w.call, w.choices)
  {
    assert (before + [w])[..|before|] == before;
  }

  /**
   * After any run, a getenv that hits a slot returns what the last call that wrote it has put there: the
   * string given to putenv, the string chosen by setenv, or NULL after unsetenv.
   */
  lemma {:induction false} LastWriteVisible(before: seq<Made>, w: Made, later: seq<Made>, ch: Choices)
    requires ValidRun(before) && w.call.Valid() && w.choices.Valid() && ValidRun(later) && ch.Valid()
    requires 0 <= w.call.slot < 4096 && forall i :: 0 <= i < |later| ==> Leaves(later[i].call, w.call.slot)
    requires !(w.call.SetEnv? && w.call.badName) && !(w.call.UnsetEnv? && w.call.badName)
    ensures ValidRun(before + [w] + later)
    ensures var slot := w.call.slot;
      var p := Found(After(StateAfter(before + [w] + later), Call.GetEnv(true, slot), ch), true, slot);
      && (w.call.PutEnv? && w.call.store && !w.call.full ==> p == External(w.call.text))
      && (w.call.SetEnv? && !w.call.full && 0 <= w.call.pick < 64 ==> p == Internal(w.call.pick))
      && (w.call.UnsetEnv? && w.call.hit ==> p == Null)
  {
    LastCall(before, w);
    Undisturbed(before + [w], later, w.call.slot);
  }

  /** Before the first call that is not refused the environment is as at the start. */
  lemma {:induction false} OnlyRefused(calls: seq<Made>)
    requires ValidRun(calls)
    ensures StateAfter(calls).ready <==> exists i :: 0 <= i < |calls| && !calls[i].call.Refused()
    ensures StateAfter(calls).ready || StateAfter(calls) == Start()
  {
    if calls != [] {
      var n := |calls| - 1;
      OnlyRefused(calls[..n]);
      assert forall i :: 0 <= i < n ==> calls[i] == calls[..n][i];
    }
  }

  /** A slot that no call has written holds the string chosen for it at the first call. */
  lemma {:induction false} FirstPickVisible(before: seq<Made>, w: Made, later: seq<Made>, slot: nat, ch: Choices)
    requires ValidRun(before) && w.call.Valid() && w.choices.Valid() && ValidRun(later) && ch.Valid()
    requires slot < 4096 && (forall i :: 0 <= i < |before| ==> before[i].call.Refused()) && !w.call.Refused()
    requires Leaves(w.call, slot) && forall i :: 0 <= i < |later| ==> Leaves(later[i].call, slot)
    requires 0 <= w.choices.picks[slot] < 64
    ensures ValidRun(before + [w] + later)
    ensures Found(After(StateAfter(before + [w] + later), Call.GetEnv(true, slot), ch), true, slot)
         == Internal(w.choices.picks[slot])
  {
    OnlyRefused(before);
    LastCall(before, w);
    Undisturbed(before + [w], later, slot);
  }

  /** The environment strings: made unknown by the first call and by setenv, up to a last zero byte. */
  lemma {:induction false} StringsAfter(before: seq<Made>, w: Made)
    requires ValidRun(before) && w.call.Valid() && w.choices.Valid()
    ensures ValidRun(before + [w])
    ensures var s, t := StateAfter(before), StateAfter(before + [w]);
      if w.call.SetEnv? && !w.call.badName && !w.call.full && w.call.scramble.Some? then
        t.strings == w.call.scramble.value + [0]
      else if s.ready || (w.call.SetEnv? && w.call.badName) || (w.call.UnsetEnv? && w.call.badName) then
        t.strings == s.strings
      else
        t.strings == w.choices.noise + [0]
  {
    RunInvariant(before);
    LastCall(before, w);
  }

  /** The one slot that a call may change in an initialised environment. */
  function Target(c: Call): (k: nat)
    ensures k < ARG_MAX
  {
    AnySlot(c.slot)
  }

  /** Once initialised, a call changes at most one slot, and only setenv the strings. */
  lemma OneSlotChanges(s: Env, c: Call, ch: Choices)
    requires WellFormed(s) && s.ready && c.Valid() && ch.Valid()
    ensures var t := After(s, c, ch); t.slots == s.slots[Target(c) := t.slots[Target(c)]]
    ensures !c.SetEnv? ==> After(s, c, ch).strings == s.strings
  {
  }

  // ----- The code -----

  /** setenv and unsetenv refuse such a name. */
  predicate BadName(name: seq<Byte>) { EQUALS in name || name == [] }

  /** The test `strchr(name, '=') || strlen(name) == 0`. */
  method CheckName(a: array<Byte>, name: nat) returns (bad: bool)
    requires Terminated(a[..], name)
    ensures bad == BadName(CStr(a[..], name))
    ensures bad <==> CStr(a[..], name) == [] || 61 in CStr(a[..], name)
  {
    ghost var s, len := CStr(a[..], name), Run(a[..], name);
    var separator := StrChr(a, name, EQUALS, AnyAddress);
    if separator.Some? {
      assert s[separator.value - name] == EQUALS;
      return true;
    }
    assert EQUALS !in s by {
      assert forall i :: 0 <= i < len ==> s[i] == a[..][name + i];
    }
    var namelen := StrLen(a, name, AnyAddress);
    return namelen == 0;
  }

  /** The code putenv returns: an arbitrary int for a full environment, else 0. */
  function PutEnvCode(store: bool, full: bool, code: int): (r: int) {
    if store && full then Interval(INT_MIN, INT_MAX, code) else 0
  }

  /**
   * putenv is meant to return 0 exactly when the string has entered the environment.  For a string
   * that is not there yet, it does so exactly when it takes the branch that stores, and an
   * environment that is full does not draw the code 0.
   */
  lemma PutEnvReports(s: Env, text: nat, store: bool, full: bool, slot: int, code: int, ch: Choices)
    requires WellFormed(s) && ch.Valid() && External(text) !in Initialised(s, ch).slots
    ensures
      (PutEnvCode(store, full, code) == 0 <==>
        External(text) in After(s, Call.PutEnv(text, store, full, slot), ch).slots)
      <==> store && (full ==> code != 0)
  {
    var t := After(s, Call.PutEnv(text, store, full, slot), ch);
    assert store && !full ==> t.slots[AnySlot(slot)] == External(text);
  }

  /** The branch for a name that is already there returns 0 and changes nothing. */
  lemma PutEnvForgets(s: Env, text: nat, full: bool, slot: int, code: int, ch: Choices)
    requires WellFormed(s) && s.ready && ch.Valid()
    ensures PutEnvCode(false, full, code) == 0
    ensures After(s, Call.PutEnv(text, false, full, slot), ch) == s
  {
  }

  /** The code drawn for a full environment may be 0, and then nothing has been stored. */
  lemma PutEnvFullButZero(s: Env, text: nat, slot: int, ch: Choices)
    requires WellFormed(s) && s.ready && ch.Valid()
    ensures PutEnvCode(true, true, 0) == 0
    ensures After(s, Call.PutEnv(text, true, true, slot), ch) == s
  {
  }

  class Environ {
    var slots: array<Pointer>
    var strings: array<Byte>
    var ready: bool

    ghost predicate Valid()
      reads this
    {
      slots.Length == ARG_MAX && strings.Length == LEN
    }

    ghost function View(): (s: Env)
      requires Valid()
      reads this, slots, strings
      ensures WellFormed(s)
    {
      Env(slots[..], strings[..], ready)
    }

    constructor ()
      ensures Valid() && fresh(slots) && fresh(strings) && View() == Start()
    {
      slots := new Pointer[ARG_MAX](_ => Null);
      strings := new Byte[LEN](_ => 0);
      ready := false;
    }

    method MakeUnknownStrings(noise: seq<Byte>)
      requires Valid() && |noise| == LEN - 1
      modifies strings
      ensures strings[..] == MakeUnknown(old(strings[..]), noise)
    {
      for i := 0 to LEN - 1
        invariant strings[..i] == noise[..i] && strings[LEN - 1] == old(strings[LEN - 1])
      {
        strings[i] := noise[i];
      }
    }

    method InitEnv(ch: Choices)
      requires Valid() && ch.Valid()
      modifies this`ready, slots, strings
      ensures Valid() && View() == Initialised(old(View()), ch)
    {
      if !ready {
        MakeUnknownStrings(ch.noise);
        for i := 0 to ARG_MAX
          invariant slots[..i] == Picked(ch.picks)[..i]
          invariant strings[..] == MakeUnknown(old(strings[..]), ch.noise)
        {
          slots[i] := AnyString(ch.picks[i]);
        }
        ready := true;
        assert slots[..] == slots[..ARG_MAX] && Picked(ch.picks) == Picked(ch.picks)[..ARG_MAX];
      }
    }

    method GetEnv(a: array<Byte>, name: nat, hit: bool, slot: int, ch: Choices) returns (p: Pointer)
      requires Valid() && ch.Valid()
      requires Terminated(a[..], name) && EQUALS !in CStr(a[..], name)
      modifies this`ready, slots, strings
      ensures Valid() && View() == After(old(View()), Call.GetEnv(hit, slot), ch)
      ensures p == Found(View(), hit, slot)
      ensures hit && 0 <= slot < 4096 ==> p == slots[slot]
      ensures !hit ==> p == Null
    {
      InitEnv(ch);
      return if hit then slots[AnySlot(slot)] else Null;
    }

    /** The string holds '=', and not in front.  The code returned without memory may be 0. */
    method PutEnv(a: array<Byte>, text: nat, store: bool, full: bool, slot: int, code: int, ch: Choices)
      returns (r: int)
      requires Valid() && ch.Valid()
      requires Terminated(a[..], text) && EQUALS in CStr(a[..], text) && a[text] != EQUALS
      modifies this`ready, slots, strings
      ensures Valid() && View() == After(old(View()), Call.PutEnv(text, store, full, slot), ch)
      ensures r == PutEnvCode(store, full, code)
      ensures store && full && INT_MIN <= code <= INT_MAX ==> r == code
      ensures !(store && full) ==> r == 0
    {
      InitEnv(ch);
      if store {
        if full {
          return Interval(INT_MIN, INT_MAX, code);
        }
        slots[AnySlot(slot)] := External(text);
      }
      return 0;
    }

    method SetEnv(a: array<Byte>, name: nat, full: bool, scramble: Option<seq<Byte>>, slot: int, pick: int, ch: Choices)
      returns (r: int)
      requires Valid() && ch.Valid() && Terminated(a[..], name)
      requires scramble.Some? ==> |scramble.value| == LEN - 1
      modifies this`ready, slots, strings
      ensures Valid()
      ensures View() == After(old(View()), Call.SetEnv(old(BadName(CStr(a[..], name))), full, scramble, slot, pick), ch)
      ensures r == if old(BadName(CStr(a[..], name))) || full then -1 else 0
    {
      var bad := CheckName(a, name);
      if bad {
        return -1;
      }
      InitEnv(ch);
      if full {
        return -1;
      }
      if scramble.Some? {
        MakeUnknownStrings(scramble.value);
      }
      slots[AnySlot(slot)] := AnyString(pick);
      return 0;
    }

    method UnsetEnv(a: array<Byte>, name: nat, hit: bool, slot: int, ch: Choices) returns (r: int)
      requires Valid() && ch.Valid() && Terminated(a[..], name)
      modifies this`ready, slots, strings
      ensures Valid()
      ensures View() == After(old(View()), Call.UnsetEnv(old(BadName(CStr(a[..], name))), hit, slot), ch)
      ensures r == if old(BadName(CStr(a[..], name))) then -1 else 0
    {
      var bad := CheckName(a, name);
      if bad {
        return -1;
      }
      InitEnv(ch);
      if hit {
        slots[AnySlot(slot)] := Null;
      }
      return 0;
    }
  }
}
