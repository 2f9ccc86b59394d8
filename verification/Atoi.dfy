/** atoi of share/libc/stdlib.c, with signed overflow as a result value. */
module Atoi {
  import opened CMemory

  // Character codes of '0', '-' and '+'.
  const DIGIT_0: Byte := 48
  const MINUS: Byte := 45
  const PLUS: Byte := 43

  predicate InInt(n: int) { INT_MIN <= n <= INT_MAX }

  predicate IsDigit(c: Byte) { DIGIT_0 <= c <= DIGIT_0 + 9 }

  /** ' ', '\f', '\n', '\r', '\t' and '\v'. */
  predicate IsSpace(c: Byte) { c == 32 || c == 12 || c == 10 || c == 13 || c == 9 || c == 11 }

  // ----- Reference: the number a text denotes -----

  datatype Class = Space | Digit

  predicate InClass(c: Byte, cl: Class) { if cl == Space then IsSpace(c) else IsDigit(c) }

  /** The first k bytes of s are of one class, and the next one, if any, is not. */
  ghost predicate IsLead(s: seq<Byte>, cl: Class, k: nat) {
    k <= |s| && (forall i :: 0 <= i < k ==> InClass(s[i], cl)) && (k < |s| ==> !InClass(s[k], cl))
  }

  lemma {:induction false} LeadExists(s: seq<Byte>, cl: Class, i: nat)
    requires i <= |s| && forall j :: 0 <= j < i ==> InClass(s[j], cl)
    ensures exists k: nat :: IsLead(s, cl, k)
    decreases |s| - i
  {
    if i < |s| && InClass(s[i], cl) {
      LeadExists(s, cl, i + 1);
    } else {
      assert IsLead(s, cl, i);
    }
  }

  /** Number of leading bytes of a class. */
  ghost function Lead(s: seq<Byte>, cl: Class): (k: nat)
    ensures IsLead(s, cl, k)
  {
    LeadExists(s, cl, 0);
    var k: nat :| IsLead(s, cl, k);
    k
  }

  lemma LeadIs(s: seq<Byte>, cl: Class, k: nat)
    requires IsLead(s, cl, k)
    ensures Lead(s, cl) == k
  {
  }

  /** Value of a digit string in base ten. */
  function Value(ds: seq<Byte>): (v: int)
    requires forall i :: 0 <= i < |ds| ==> IsDigit(ds[i])
    ensures v >= 0
  {
    if ds == [] then 0 else
      assert IsDigit(ds[|ds| - 1]);
      10 * Value(ds[..|ds| - 1]) + (ds[|ds| - 1] - DIGIT_0)
  }

  /** Where the digits start: after white space and at most one sign. */
  ghost function Start(s: seq<Byte>): (k: nat)
    ensures k <= |s|
  {
    var k := Lead(s, Space);
    if k < |s| && (s[k] == MINUS || s[k] == PLUS) then k + 1 else k
  }

  ghost predicate Negative(s: seq<Byte>) { Lead(s, Space) < |s| && s[Lead(s, Space)] == MINUS }

  /** The signed number at the start of a text, 0 without digits. */
  ghost function Denoted(s: seq<Byte>): (n: int) {
    var rest := s[Start(s)..];
    var v := Value(rest[..Lead(rest, Digit)]);
    if Negative(s) then -v else v
  }

  /** What atoi returns: the denoted number when it is an int, no value on overflow. */
  ghost function AtoiOf(s: seq<Byte>): (r: Option<int>) {
    if InInt(Denoted(s)) then Some(Denoted(s)) else None
  }

  // ----- The code -----

  lemma {:induction false} ValuePrefix(ds: seq<Byte>, i: nat)
    requires i <= |ds| && forall j :: 0 <= j < |ds| ==> IsDigit(ds[j])
    ensures Value(ds[..i]) <= Value(ds)
    ensures i < |ds| ==> 10 * Value(ds[..i]) <= Value(ds)
    decreases |ds|
  {
    if i < |ds| {
      var init := ds[..|ds| - 1];
      ValuePrefix(init, i);
      assert init[..i] == ds[..i];
    } else {
      assert ds[..i] == ds;
    }
  }

  /** The digit loop: the number is kept negative; None when a step leaves the range of int. */
  method Accumulate(a: array<Byte>, p: nat, ghost ok: iset<int>, ghost ds: seq<Byte>) returns (n: Option<int>)
    requires p + |ds| < a.Length && Readable(ok, p, p + |ds| + 1)
    requires |ds| > 0 && ds == a[p..p + |ds|] && !IsDigit(a[p + |ds|])
    requires forall i :: 0 <= i < |ds| ==> IsDigit(ds[i])
    ensures n == if INT_MIN <= -Value(ds) then Some(-Value(ds)) else None
  {
    var up := p;
    var c := Load(a, ok, up);
    var m := DIGIT_0 - c;
    up := up + 1;
    c := Load(a, ok, up);
    assert ds[..1] == [ds[0]];
    while IsDigit(c)
      invariant p < up <= p + |ds| && c == a[up]
      invariant m == -Value(ds[..up - p]) && INT_MIN <= m <= 0
      decreases p + |ds| - up
    {
      ghost var i := up - p;
      ValuePrefix(ds, i);
      ValuePrefix(ds, i + 1);
      assert ds[..i + 1][..i] == ds[..i];
      m := m * 10;
      if !InInt(m) { return None; }
      m := m + (DIGIT_0 - c);
      if !InInt(m) { return None; }
      up := up + 1;
      c := Load(a, ok, up);
    }
    assert ds[..up - p] == ds;
    return Some(m);
  }

  /** The digits of the string at p, seen in memory, end before a byte that is no digit. */
  lemma DigitsInMemory(mem: seq<Byte>, p: nat, start: nat, rest: seq<Byte>, k: nat)
    requires Terminated(mem, p) && start <= Run(mem, p)
    requires rest == CStr(mem, p)[start..] && k == Lead(rest, Digit)
    ensures p + start + k <= p + Run(mem, p)
    ensures mem[p + start..p + start + k] == rest[..k] && !IsDigit(mem[p + start + k])
  {
  }

  lemma NoDigits(s: seq<Byte>)
    requires Start(s) < |s| ==> !IsDigit(s[Start(s)])
    ensures Denoted(s) == 0
  {
    var rest := s[Start(s)..];
    assert rest[..Lead(rest, Digit)] == [];
  }

  lemma FirstDigit(s: seq<Byte>)
    requires s != [] && IsDigit(s[0])
    ensures Start(s) == 0 && !Negative(s)
  {
  }

  /** The part of atoi before the digits: white space and a sign, unless a digit comes first. */
  method SkipToDigits(a: array<Byte>, p: nat, ghost ok: iset<int>) returns (up: nat, neg: bool)
    requires ReadableString(a[..], p, ok)
    ensures up == p + Start(CStr(a[..], p)) && neg == Negative(CStr(a[..], p))
  {
    ghost var s := CStr(a[..], p);
    up, neg := p, false;
    var c := Load(a, ok, up);
    if IsDigit(c) {
      FirstDigit(s);
      return;
    }
    while IsSpace(c)
      invariant p <= up <= p + |s| && c == a[up]
      invariant forall i :: 0 <= i < up - p ==> IsSpace(s[i])
      decreases p + |s| - up
    {
      up := up + 1;
      c := Load(a, ok, up);
    }
    LeadIs(s, Space, up - p);
    if c == MINUS || c == PLUS {
      neg := c == MINUS;
      up := up + 1;
    }
  }

  method Atoi(a: array<Byte>, p: nat, ghost ok: iset<int>) returns (r: Option<int>)
    requires ReadableString(a[..], p, ok)
    ensures r == AtoiOf(CStr(a[..], p))
    ensures var n := Denoted(CStr(a[..], p));
      r == if -2147483648 <= n <= 2147483647 then Some(n) else None
  {
    ghost var s := CStr(a[..], p);
    var up, neg := SkipToDigits(a, p, ok);
    assert a[..] == old(a[..]);
    ghost var rest := s[Start(s)..];
    ghost var ds := rest[..Lead(rest, Digit)];
    DigitsInMemory(a[..], p, Start(s), rest, Lead(rest, Digit));
    if !IsDigit(Load(a, ok, up)) {
      NoDigits(s);
      return Some(0);
    }
    var n := Accumulate(a, up, ok, ds);
    assert a[..] == old(a[..]);
    match n
    case None => return None;
    case Some(m) =>
      if neg {
        return Some(m);
      }
      return if InInt(-m) then Some(-m) else None;
  }

  // ----- Texts and numbers -----

  /** isspace and isdigit, in numbers. */
  lemma Classes(c: Byte)
    ensures IsSpace(c) <==> 9 <= c <= 13 || c == 32
    ensures IsDigit(c) <==> 48 <= c <= 57
  {
  }

  /**
   * In numbers: white space, at most one sign and m digits, followed by no further digit, denote the
   * signed value; without digits that is 0.
   */
  lemma DenotedAt(s: seq<Byte>, k: nat, start: nat, m: nat)
    requires k <= |s| && start + m <= |s|
    requires forall i :: 0 <= i < k ==> 9 <= s[i] <= 13 || s[i] == 32
    requires k < |s| ==> !(9 <= s[k] <= 13 || s[k] == 32)
    requires start == if k < |s| && (s[k] == 45 || s[k] == 43) then k + 1 else k
    requires forall i :: start <= i < start + m ==> 48 <= s[i] <= 57
    requires start + m < |s| ==> !(48 <= s[start + m] <= 57)
    ensures Denoted(s) ==
      if k < |s| && s[k] == 45 then -Value(s[start..start + m]) else Value(s[start..start + m])
  {
    LeadIs(s, Space, k);
    var tail := s[start..];
    LeadIs(tail, Digit, m);
    assert tail[..m] == s[start..start + m];
  }

  // ----- The value of a digit string -----

  function Pow10(n: nat): nat { if n == 0 then 1 else 10 * Pow10(n - 1) }

  /** A further digit at the end, in numbers. */
  lemma ValueAppend(ds: seq<Byte>, d: Byte)
    requires (forall i :: 0 <= i < |ds| ==> IsDigit(ds[i])) && 48 <= d <= 57
    ensures Value([]) == 0 && Value(ds + [d]) == 10 * Value(ds) + (d - 48)
  {
    assert (ds + [d])[..|ds|] == ds;
  }

  lemma TenTimes(c: int, p: int)
    ensures c * (10 * p) == 10 * (c * p)
  {
  }

  /** Place value: the first digit counts as often as the power of ten of the digits behind it. */
  lemma {:induction false} ValuePlace(d: Byte, ds: seq<Byte>)
    requires (forall i :: 0 <= i < |ds| ==> IsDigit(ds[i])) && 48 <= d <= 57
    ensures Value([d] + ds) == (d - 48) * Pow10(|ds|) + Value(ds)
    decreases |ds|
  {
    if ds == [] {
      assert [d] + ds == [] + [d];
      ValueAppend([], d);
    } else {
      var init, last := ds[..|ds| - 1], ds[|ds| - 1];
      ValuePlace(d, init);
      assert [d] + ds == ([d] + init) + [last] && ds == init + [last];
      ValueAppend([d] + init, last);
      ValueAppend(init, last);
      TenTimes(d - 48, Pow10(|init|));
    }
  }

  function Zeros(n: nat): (z: seq<Byte>)
    ensures |z| == n && forall i :: 0 <= i < n ==> z[i] == 48
  {
    seq(n, _ => 48)
  }

  /** Leading zeros change nothing. */
  lemma {:induction false} LeadingZeros(n: nat, ds: seq<Byte>)
    requires forall i :: 0 <= i < |ds| ==> IsDigit(ds[i])
    ensures Value(Zeros(n) + ds) == Value(ds)
    decreases n
  {
    if n == 0 {
      assert Zeros(n) + ds == ds;
    } else {
      LeadingZeros(n - 1, ds);
      ValuePlace(48, Zeros(n - 1) + ds);
      assert [48] + (Zeros(n - 1) + ds) == Zeros(n) + ds;
    }
  }

  /** Every digit string is zeros and the decimal digits of its value, 0 written without digits. */
  lemma {:induction false} DigitsOfValue(ds: seq<Byte>)
    requires forall i :: 0 <= i < |ds| ==> IsDigit(ds[i])
    ensures Value(ds) == 0 ==> ds == Zeros(|ds|)
    ensures Value(ds) > 0 ==>
      && |Unsigned(Value(ds))| <= |ds|
      && ds == Zeros(|ds| - |Unsigned(Value(ds))|) + Unsigned(Value(ds))
  {
    if ds != [] {
      var init, last := ds[..|ds| - 1], ds[|ds| - 1];
      DigitsOfValue(init);
      var v := Value(init);
      assert Value(ds) == 10 * v + (last - 48);
      if v > 0 {
        assert Unsigned(Value(ds)) == Unsigned(v) + [last];
      }
    }
  }

  /** Decimal digits of a natural number. */
  function Unsigned(k: nat): (ds: seq<Byte>)
    ensures ds != [] && forall i :: 0 <= i < |ds| ==> IsDigit(ds[i])
  {
    if k < 10 then [DIGIT_0 + k] else Unsigned(k / 10) + [DIGIT_0 + k % 10]
  }

  /** Decimal print of an int. */
  function Decimal(n: int): seq<Byte> {
    if n < 0 then [MINUS] + Unsigned(-n) else Unsigned(n)
  }

  lemma {:induction false} ValueOfUnsigned(k: nat)
    ensures Value(Unsigned(k)) == k
  {
    var ds := Unsigned(k);
    if k >= 10 {
      ValueOfUnsigned(k / 10);
      assert ds[..|ds| - 1] == Unsigned(k / 10);
    } else {
      assert ds[..0] == [];
    }
  }

  /** Parsing the decimal print of any int gives it back, INT_MIN included. */
  lemma RoundTrip(n: int)
    requires InInt(n)
    ensures AtoiOf(Decimal(n)) == Some(n)
  {
    var s, start := Decimal(n), if n < 0 then 1 else 0;
    var v: nat := if n < 0 then -n else n;
    assert s[start..start + |Unsigned(v)|] == Unsigned(v) == Zeros(0) + Unsigned(v);
    ParsesPadded(s, 0, start, |Unsigned(v)|, 0, v);
  }

  /** So do zeros in front of the digits, after white space and a sign and before anything but a digit. */
  lemma ParsesPadded(s: seq<Byte>, k: nat, start: nat, m: nat, z: nat, v: nat)
    requires k < |s| && start + m <= |s| && s[start..start + m] == Zeros(z) + Unsigned(v)
    requires (forall i :: 0 <= i < k ==> 9 <= s[i] <= 13 || s[i] == 32) && !(9 <= s[k] <= 13 || s[k] == 32)
    requires start == if s[k] == 45 || s[k] == 43 then k + 1 else k
    requires start + m < |s| ==> !(48 <= s[start + m] <= 57)
    ensures Denoted(s) == if s[k] == 45 then -(v as int) else v
  {
    PaddedValue(z, v);
    DigitsAt(s, start, Zeros(z) + Unsigned(v));
    DenotedAt(s, k, start, m);
  }

  lemma PaddedValue(z: nat, v: nat)
    ensures forall i :: 0 <= i < |Zeros(z) + Unsigned(v)| ==> IsDigit((Zeros(z) + Unsigned(v))[i])
    ensures Value(Zeros(z) + Unsigned(v)) == v
  {
    LeadingZeros(z, Unsigned(v));
    ValueOfUnsigned(v);
  }

  lemma DigitsAt(s: seq<Byte>, start: nat, ds: seq<Byte>)
    requires start + |ds| <= |s| && s[start..start + |ds|] == ds
    requires forall i :: 0 <= i < |ds| ==> IsDigit(ds[i])
    ensures forall i :: start <= i < start + |ds| ==> 48 <= s[i] <= 57
  {
    assert forall i :: start <= i < start + |ds| ==> s[i] == ds[i - start];
  }
}
