// Response heads as text: what lib/req.c prints and what it reads back,
// sections 6.1 and 4.2 of RFC 2616.
module HeadText {
  import opened Octets
  import opened Numbers
  import opened Seqs

  type Fields = seq<(Bytes, Bytes)>

  /** The parts of `struct hthead` a response has. */
  datatype Head = Head(ver: Bytes, code: int, msg: Bytes, headers: Fields)

  const SP: Bytes := [32]
  const CRLF: Bytes := [13, 10]
  const COLON: Bytes := [58, 32]

  // ----- Printing -----

  function Digits(n: nat): (s: Bytes)
    ensures s != []
  {
    if n < 10 then [48 + n] else Digits(n / 10) + [48 + n % 10]
  }

  /** `%i`. */
  function Decimal(n: int): Bytes {
    if n < 0 then [45] + Digits(-n) else Digits(n)
  }

  function StatusLine(h: Head): Bytes {
    h.ver + (SP + (Decimal(h.code) + (SP + (h.msg + CRLF))))
  }

  function FieldLine(name: Bytes, val: Bytes): Bytes {
    name + (COLON + (val + CRLF))
  }

  function FieldLines(hs: Fields): Bytes {
    if hs == [] then [] else FieldLine(hs[0].0, hs[0].1) + FieldLines(hs[1..])
  }

  function Print(h: Head): Bytes {
    StatusLine(h) + FieldLines(h.headers)
  }

  // ----- Reading -----

  datatype Result<T> = Fail | Done(v: T, rest: Bytes)

  function VerOf(s: Bytes, ver: Bytes): (r: Result<Bytes>)
    ensures r.Done? ==> |r.rest| < |s|
  {
    if s == [] then Fail
    else if s[0] == 32 then Done(ver, s[1..])
    else if s[0] < 32 || s[0] >= 128 || |ver| + 1 >= 128 then Fail
    else VerOf(s[1..], ver + [s[0]])
  }

  function CodeOf(s: Bytes, code: nat): (r: Result<nat>)
    ensures r.Done? ==> |r.rest| < |s|
  {
    if s == [] then Fail
    else if s[0] == 32 then Done(code, s[1..])
    else if s[0] < 48 || s[0] > 57 || code * 10 + (s[0] - 48) >= 10000 then Fail
    else CodeOf(s[1..], code * 10 + (s[0] - 48))
  }

  function MsgOf(s: Bytes, msg: Bytes): (r: Result<Bytes>)
    ensures r.Done? ==> |r.rest| < |s|
  {
    if s == [] then Fail
    else if s[0] == 10 then Done(msg, s[1..])
    else if s[0] == 13 then MsgOf(s[1..], msg)
    else if s[0] < 32 || |msg| + 1 >= 512 then Fail
    else MsgOf(s[1..], msg + [s[0]])
  }

  predicate IsSpace(c: Byte) {
    c == 32 || 9 <= c <= 13
  }

  function TrimLeft(b: Bytes): Bytes {
    if b != [] && IsSpace(b[0]) then TrimLeft(b[1..]) else b
  }

  function TrimRight(b: Bytes): Bytes {
    if b != [] && IsSpace(b[|b| - 1]) then TrimRight(b[..|b| - 1]) else b
  }

  function Trim(b: Bytes): Bytes {
    TrimRight(TrimLeft(b))
  }

  /** Up to the first zero byte. */
  function CString(b: Bytes): Bytes {
    if b == [] || b[0] == 0 then [] else [b[0]] + CString(b[1..])
  }

  /** What a collected name or value becomes. */
  function Field(b: Bytes): Bytes {
    CString(Trim(b))
  }

  const MAXHEAD := 65536

  /** The three states of `parseheadersb`; n bytes have been read. */
  function Start(s: Bytes, n: nat, hs: Fields): Result<Fields>
    decreases |s|, 1
  {
    if s == [] || n + 1 >= MAXHEAD then Fail
    else if s[0] == 13 then Start(s[1..], n + 1, hs)
    else if s[0] == 10 then Done(hs, s[1..])
    else InName(s, n, hs, [])
  }

  function InName(s: Bytes, n: nat, hs: Fields, name: Bytes): Result<Fields>
    decreases |s|, 0
  {
    if s == [] || n + 1 >= MAXHEAD then Fail
    else if s[0] == 58 then InValue(s[1..], n + 1, hs, Trim(name), [])
    else if s[0] == 13 then InName(s[1..], n + 1, hs, name)
    else if s[0] == 10 then Fail
    else InName(s[1..], n + 1, hs, name + [s[0]])
  }

  function InValue(s: Bytes, n: nat, hs: Fields, name: Bytes, val: Bytes): Result<Fields>
    decreases |s|, 0
  {
    if s == [] || n + 1 >= MAXHEAD then Fail
    else if s[0] == 13 then InValue(s[1..], n + 1, hs, name, val)
    else if s[0] == 10 then Start(s[1..], n + 1, hs + [(CString(name), Field(val))])
    else InValue(s[1..], n + 1, hs, name, val + [s[0]])
  }

  /** The head at the front of s. */
  function Parse(s: Bytes): Result<Head> {
    match VerOf(s, [])
    case Fail => Fail
    case Done(ver, s1) =>
      match CodeOf(s1, 0)
      case Fail => Fail
      case Done(code, s2) =>
        match MsgOf(s2, [])
        case Fail => Fail
        case Done(msg, s3) =>
          match Start(s3, 0, [])
          case Fail => Fail
          case Done(hs, s4) => Done(Head(ver, code, msg, hs), s4)
  }

  // ----- There and back -----

  predicate Trimmed(b: Bytes) {
    b != [] ==> !IsSpace(b[0]) && !IsSpace(b[|b| - 1])
  }

  predicate NoBreak(b: Bytes) {
    forall i :: 0 <= i < |b| ==> b[i] != 0 && b[i] != 10 && b[i] != 13
  }

  predicate PlainField(f: (Bytes, Bytes)) {
    && Trimmed(f.0) && Trimmed(f.1) && NoBreak(f.0) && NoBreak(f.1)
    && forall i :: 0 <= i < |f.0| ==> f.0[i] != 58
  }

  /** Within the parser's limits. */
  predicate Sendable(h: Head) {
    && |h.ver| < 128 && (forall i :: 0 <= i < |h.ver| ==> 32 < h.ver[i] < 128)
    && 0 <= h.code < 10000
    && |h.msg| < 512 && (forall i :: 0 <= i < |h.msg| ==> 32 <= h.msg[i])
    && (forall i :: 0 <= i < |h.headers| ==> PlainField(h.headers[i]))
    && |FieldLines(h.headers)| + 2 < MAXHEAD
  }

  lemma {:induction false} VerBack(v: Bytes, tail: Bytes, ver: Bytes)
    requires |ver| + |v| < 128 && forall i :: 0 <= i < |v| ==> 32 < v[i] < 128
    ensures VerOf(v + (SP + tail), ver) == Done(ver + v, tail)
  {
    if v == [] {
      Unit(SP + tail);
      Unit(ver);
      assert (SP + tail)[1..] == tail;
    } else {
      VerBack(v[1..], tail, ver + [v[0]]);
      TailOf(v, SP + tail);
      assert ver + [v[0]] + v[1..] == ver + v;
    }
  }

  lemma TailOf(v: Bytes, tail: Bytes)
    requires v != []
    ensures (v + tail)[0] == v[0] && (v + tail)[1..] == v[1..] + tail
  {
  }

  lemma DigitBack(x: nat, tail: Bytes, code: nat)
    requires x < 10 && code * 10 + x < 10000
    ensures CodeOf([48 + x] + tail, code) == CodeOf(tail, code * 10 + x)
  {
    TailOf([48 + x], tail);
    Unit(tail);
  }

  lemma {:induction false} DigitsBack(n: nat, tail: Bytes, code: nat)
    requires Shift(10, code, n) < 10000
    ensures CodeOf(Digits(n) + tail, code) == CodeOf(tail, Shift(10, code, n))
    decreases n
  {
    hide CodeOf;
    if n < 10 {
      DigitBack(n, tail, code);
    } else {
      var d: Bytes := [48 + n % 10];
      Assoc(Digits(n / 10), d, tail);
      DigitsBack(n / 10, d + tail, code);
      DigitBack(n % 10, tail, Shift(10, code, n / 10));
    }
  }

  lemma CodeBack(n: nat, tail: Bytes)
    requires n < 10000
    ensures CodeOf(Decimal(n) + (SP + tail), 0) == Done(n, tail)
  {
    ShiftZero(10, n);
    DigitsBack(n, SP + tail, 0);
    assert (SP + tail)[1..] == tail;
  }

  lemma {:induction false} MsgBack(m: Bytes, tail: Bytes, msg: Bytes)
    requires |msg| + |m| < 512 && forall i :: 0 <= i < |m| ==> 32 <= m[i]
    ensures MsgOf(m + (CRLF + tail), msg) == Done(msg + m, tail)
  {
    if m == [] {
      Unit(CRLF + tail);
      Unit(msg);
      assert (CRLF + tail)[1..][1..] == tail && (CRLF + tail)[1..][0] == 10;
    } else {
      MsgBack(m[1..], tail, msg + [m[0]]);
      TailOf(m, CRLF + tail);
      assert msg + [m[0]] + m[1..] == msg + m;
    }
  }

  lemma {:induction false} CStringPlain(b: Bytes)
    requires NoBreak(b)
    ensures CString(b) == b
  {
    if b != [] {
      CStringPlain(b[1..]);
    }
  }

  /** The blank that is printed before a value goes again. */
  lemma FieldBlank(b: Bytes)
    requires Trimmed(b) && NoBreak(b)
    ensures Field(SP + b) == b
  {
    assert (SP + b)[1..] == b;
    assert TrimLeft(SP + b) == TrimLeft(b) == b;
    CStringPlain(b);
  }

  lemma {:induction false} NameBack(m: Bytes, tail: Bytes, n: nat, hs: Fields, name: Bytes)
    requires NoBreak(m) && (forall i :: 0 <= i < |m| ==> m[i] != 58) && n + |m| < MAXHEAD
    ensures InName(m + tail, n, hs, name) == InName(tail, n + |m|, hs, name + m)
  {
    if m == [] {
      Unit(tail);
      Unit(name);
    } else {
      NameBack(m[1..], tail, n + 1, hs, name + [m[0]]);
      TailOf(m, tail);
      assert name + [m[0]] + m[1..] == name + m;
    }
  }

  lemma {:induction false} ValueBack(m: Bytes, tail: Bytes, n: nat, hs: Fields, name: Bytes, val: Bytes)
    requires NoBreak(m) && n + |m| < MAXHEAD
    ensures InValue(m + tail, n, hs, name, val) == InValue(tail, n + |m|, hs, name, val + m)
  {
    if m == [] {
      Unit(tail);
      Unit(val);
    } else {
      ValueBack(m[1..], tail, n + 1, hs, name, val + [m[0]]);
      TailOf(m, tail);
      assert val + [m[0]] + m[1..] == val + m;
    }
  }

  /** A printed field is read back, and the line ended. */
  lemma FieldBack(name: Bytes, val: Bytes, tail: Bytes, n: nat, hs: Fields)
    requires PlainField((name, val)) && n + |name| + |val| + 4 < MAXHEAD
    ensures Start(FieldLine(name, val) + tail, n, hs) == Start(tail, n + |FieldLine(name, val)|, hs + [(name, val)])
  {
    hide Field, CString, Start;
    var afterColon := SP + (val + (CRLF + tail));
    assert FieldLine(name, val) + tail == name + ([58] + afterColon);
    NameEnds(name, afterColon, n, hs);
    ValueEnds(val, tail, n + |name| + 1, hs, name);
    CStringPlain(name);
    FieldBlank(val);
  }

  /** A line's name, up to its colon. */
  lemma NameEnds(name: Bytes, rest: Bytes, n: nat, hs: Fields)
    requires Trimmed(name) && NoBreak(name) && (forall i :: 0 <= i < |name| ==> name[i] != 58)
    requires n + |name| + 1 < MAXHEAD
    ensures Start(name + ([58] + rest), n, hs) == InValue(rest, n + |name| + 1, hs, name, [])
  {
    var s := name + ([58] + rest);
    var c := if name == [] then 58 else name[0];
    assert s[0] == c && c != 13 && c != 10;
    NameBack(name, [58] + rest, n, hs, []);
    Unit(name);
    TailOf([58], rest);
    Unit(rest);
  }

  /** Its value, from the blank to the line break. */
  lemma ValueEnds(val: Bytes, tail: Bytes, n: nat, hs: Fields, name: Bytes)
    requires NoBreak(val) && n + |val| + 3 < MAXHEAD
    ensures InValue(SP + (val + (CRLF + tail)), n, hs, name, []) ==
      Start(tail, n + |val| + 3, hs + [(CString(name), Field(SP + val))])
  {
    hide Field, CString;
    var end := CRLF + tail;
    ValueBack(SP, val + end, n, hs, name, []);
    ValueBack(val, end, n + 1, hs, name, SP);
    Unit(SP);
    assert end[0] == 13 && end[1..][0] == 10 && end[1..][1..] == tail;
  }

  lemma {:induction false} FieldsBack(fs: Fields, tail: Bytes, n: nat, hs: Fields)
    requires (forall i :: 0 <= i < |fs| ==> PlainField(fs[i])) && n + |FieldLines(fs)| + 2 < MAXHEAD
    ensures Start(FieldLines(fs) + (CRLF + tail), n, hs) == Done(hs + fs, tail)
    decreases |fs|
  {
    if fs == [] {
      Unit(CRLF + tail);
      Unit(hs);
      assert (CRLF + tail)[1..][1..] == tail && (CRLF + tail)[1..][0] == 10;
    } else {
      hide PlainField, Start;
      var l, more := FieldLine(fs[0].0, fs[0].1), FieldLines(fs[1..]);
      Assoc(l, more, CRLF + tail);
      FieldBack(fs[0].0, fs[0].1, more + (CRLF + tail), n, hs);
      FieldsBack(fs[1..], tail, n + |l|, hs + [fs[0]]);
      assert hs + [fs[0]] + fs[1..] == hs + fs;
    }
  }

  /** Every head within the limits is read back as it was printed, given the
      blank line that ends it, and what follows is left alone. */
  lemma RoundTrip(h: Head, tail: Bytes)
    requires Sendable(h)
    ensures Parse(Print(h) + (CRLF + tail)) == Done(h, tail)
  {
    hide VerOf, CodeOf, MsgOf, Start, PlainField, FieldLines, Decimal;
    var s3 := FieldLines(h.headers) + (CRLF + tail);
    var s2 := h.msg + (CRLF + s3);
    var s1 := Decimal(h.code) + (SP + s2);
    assert Print(h) + (CRLF + tail) == h.ver + (SP + s1);
    VerBack(h.ver, s1, []);
    CodeBack(h.code, s2);
    MsgBack(h.msg, s3, []);
    FieldsBack(h.headers, tail, 0, []);
    Unit(h.ver);
    Unit(h.msg);
    Unit(h.headers);
  }

  // ----- What can be read at all -----

  lemma {:induction false} TrimLeftIn(b: Bytes)
    ensures (forall x :: x in TrimLeft(b) ==> x in b) && (TrimLeft(b) != [] ==> !IsSpace(TrimLeft(b)[0]))
  {
    if b != [] && IsSpace(b[0]) {
      TrimLeftIn(b[1..]);
    }
  }

  lemma {:induction false} TrimRightIn(b: Bytes)
    ensures TrimRight(b) <= b && (TrimRight(b) != [] ==> !IsSpace(TrimRight(b)[|TrimRight(b)| - 1]))
  {
    if b != [] && IsSpace(b[|b| - 1]) {
      TrimRightIn(b[..|b| - 1]);
    }
  }

  /** Trimming a text leaves a trimmed text of its characters. */
  lemma TrimRange(b: Bytes)
    ensures Trimmed(Trim(b)) && forall x :: x in Trim(b) ==> x in b
  {
    TrimLeftIn(b);
    TrimRightIn(TrimLeft(b));
    assert forall i :: 0 <= i < |Trim(b)| ==> Trim(b)[i] in b;
  }

  lemma {:induction false} CStringRange(b: Bytes)
    ensures CString(b) <= b && 0 !in CString(b)
    ensures CString(b) == b || b[|CString(b)|] == 0
    ensures 0 !in b ==> CString(b) == b
  {
    if b != [] && b[0] != 0 {
      CStringRange(b[1..]);
      assert b == [b[0]] + b[1..];
    }
  }

  /** What collected characters can be. */
  predicate OneLine(b: Bytes) {
    10 !in b && 13 !in b
  }

  /** A field as it is read: it does not start with white space, and unless it
      was cut at a zero byte it does not end with it either. */
  predicate ReadField(f: (Bytes, Bytes), clean: bool) {
    && OneLine(f.0) && OneLine(f.1) && 0 !in f.0 && 0 !in f.1 && 58 !in f.0
    && (f.0 != [] ==> !IsSpace(f.0[0])) && (f.1 != [] ==> !IsSpace(f.1[0]))
    && (clean ==> Trimmed(f.0) && Trimmed(f.1))
  }

  lemma FieldRead(name: Bytes, val: Bytes, clean: bool)
    requires OneLine(name) && 58 !in name && Trimmed(name) && OneLine(val) && (clean ==> 0 !in name && 0 !in val)
    ensures ReadField((CString(name), Field(val)), clean)
  {
    CStringRange(name);
    TrimRange(val);
    CStringRange(Trim(val));
    assert forall x :: x in CString(name) ==> x in name;
    assert forall x :: x in Field(val) ==> x in Trim(val);
  }

  predicate AllRead(hs: Fields, clean: bool) {
    forall i :: 0 <= i < |hs| ==> ReadField(hs[i], clean)
  }

  /** There was no zero byte on the way to a result. */
  predicate NoZero(s: Bytes, r: Result<Fields>) {
    r.Done? && |r.rest| <= |s| && forall i :: 0 <= i < |s| - |r.rest| ==> s[i] != 0
  }

  /** Whatever fields are read, and however many bytes that takes. */
  lemma {:induction false} StartRange(s: Bytes, n: nat, hs: Fields, clean: bool)
    requires Start(s, n, hs).Done? && AllRead(hs, clean) && (clean ==> NoZero(s, Start(s, n, hs)))
    ensures var r := Start(s, n, hs); |r.rest| < |s| && n + |s| - |r.rest| < MAXHEAD && AllRead(r.v, clean)
    decreases |s|, 1
  {
    if s[0] == 13 {
      StartShort(s[1..], n + 1, hs);
      StartRange(s[1..], n + 1, hs, clean);
    } else if s[0] != 10 {
      InNameRange(s, n, hs, [], clean);
    }
  }

  lemma {:induction false} InNameRange(s: Bytes, n: nat, hs: Fields, name: Bytes, clean: bool)
    requires InName(s, n, hs, name).Done? && AllRead(hs, clean) && (clean ==> NoZero(s, InName(s, n, hs, name)))
    requires OneLine(name) && 58 !in name && (clean ==> 0 !in name)
    ensures var r := InName(s, n, hs, name);
      |r.rest| < |s| && n + |s| - |r.rest| < MAXHEAD && AllRead(r.v, clean)
    decreases |s|, 0
  {
    if s[0] == 58 {
      TrimRange(name);
      InValueShort(s[1..], n + 1, hs, Trim(name), []);
      InValueRange(s[1..], n + 1, hs, Trim(name), [], clean);
    } else {
      var more := if s[0] == 13 then name else name + [s[0]];
      InNameShort(s[1..], n + 1, hs, more);
      InNameRange(s[1..], n + 1, hs, more, clean);
    }
  }

  lemma {:induction false} InValueRange(s: Bytes, n: nat, hs: Fields, name: Bytes, val: Bytes, clean: bool)
    requires InValue(s, n, hs, name, val).Done? && AllRead(hs, clean)
    requires clean ==> NoZero(s, InValue(s, n, hs, name, val)) && 0 !in name && 0 !in val
    requires OneLine(name) && 58 !in name && Trimmed(name) && OneLine(val)
    ensures var r := InValue(s, n, hs, name, val);
      |r.rest| < |s| && n + |s| - |r.rest| < MAXHEAD && AllRead(r.v, clean)
    decreases |s|, 0
  {
    hide ReadField, Field, CString;
    if s[0] == 10 {
      FieldRead(name, val, clean);
      StartShort(s[1..], n + 1, hs + [(CString(name), Field(val))]);
      StartRange(s[1..], n + 1, hs + [(CString(name), Field(val))], clean);
    } else {
      var more := if s[0] == 13 then val else val + [s[0]];
      InValueShort(s[1..], n + 1, hs, name, more);
      InValueRange(s[1..], n + 1, hs, name, more, clean);
    }
  }

  lemma {:induction false} StartShort(s: Bytes, n: nat, hs: Fields)
    ensures Start(s, n, hs).Done? ==> |Start(s, n, hs).rest| < |s|
    decreases |s|, 1
  {
    if s != [] {
      if s[0] == 13 {
        StartShort(s[1..], n + 1, hs);
      } else if s[0] != 10 {
        InNameShort(s, n, hs, []);
      }
    }
  }

  lemma {:induction false} InNameShort(s: Bytes, n: nat, hs: Fields, name: Bytes)
    ensures InName(s, n, hs, name).Done? ==> |InName(s, n, hs, name).rest| < |s|
    decreases |s|, 0
  {
    if s != [] {
      if s[0] == 58 {
        InValueShort(s[1..], n + 1, hs, Trim(name), []);
      } else {
        InNameShort(s[1..], n + 1, hs, if s[0] == 13 then name else name + [s[0]]);
      }
    }
  }

  lemma {:induction false} InValueShort(s: Bytes, n: nat, hs: Fields, name: Bytes, val: Bytes)
    ensures InValue(s, n, hs, name, val).Done? ==> |InValue(s, n, hs, name, val).rest| < |s|
    decreases |s|, 0
  {
    if s != [] {
      if s[0] == 10 {
        StartShort(s[1..], n + 1, hs + [(CString(name), Field(val))]);
      } else {
        InValueShort(s[1..], n + 1, hs, name, if s[0] == 13 then val else val + [s[0]]);
      }
    }
  }

  lemma {:induction false} VerRange(s: Bytes, ver: Bytes)
    requires |ver| < 128 && forall i :: 0 <= i < |ver| ==> 32 < ver[i] < 128
    ensures var r := VerOf(s, ver); r.Done? ==> |r.v| < 128 && forall i :: 0 <= i < |r.v| ==> 32 < r.v[i] < 128
  {
    if s != [] && !(s[0] <= 32 || s[0] >= 128 || |ver| + 1 >= 128) {
      VerRange(s[1..], ver + [s[0]]);
    }
  }

  lemma {:induction false} CodeRange(s: Bytes, code: nat)
    requires code < 10000
    ensures CodeOf(s, code).Done? ==> CodeOf(s, code).v < 10000
  {
    if s != [] && 48 <= s[0] <= 57 && code * 10 + (s[0] - 48) < 10000 {
      CodeRange(s[1..], code * 10 + (s[0] - 48));
    }
  }

  lemma {:induction false} MsgRange(s: Bytes, msg: Bytes)
    requires |msg| < 512 && forall i :: 0 <= i < |msg| ==> 32 <= msg[i]
    ensures var r := MsgOf(s, msg); r.Done? ==> |r.v| < 512 && forall i :: 0 <= i < |r.v| ==> 32 <= r.v[i]
  {
    if s != [] && s[0] != 10 {
      if s[0] == 13 {
        MsgRange(s[1..], msg);
      } else if s[0] >= 32 && |msg| + 1 < 512 {
        MsgRange(s[1..], msg + [s[0]]);
      }
    }
  }

  /** A head survives the trip exactly if it is within the limits. */
  lemma RoundTripIff(h: Head, tail: Bytes)
    ensures Parse(Print(h) + (CRLF + tail)) == Done(h, tail) <==> Sendable(h)
  {
    hide VerOf, CodeOf, MsgOf, Start, FieldLines, Decimal, CString, IsSpace;
    var s := Print(h) + (CRLF + tail);
    if Sendable(h) {
      RoundTrip(h, tail);
    } else if Parse(s) == Done(h, tail) {
      var s3 := FieldLines(h.headers) + (CRLF + tail);
      var s2 := h.msg + (CRLF + s3);
      var s1 := Decimal(h.code) + (SP + s2);
      assert s == h.ver + (SP + s1);
      VerRange(s, []);
      VerBack(h.ver, s1, []);
      Unit(h.ver);
      CodeRange(s1, 0);
      CodeBack(h.code, s2);
      MsgRange(s2, []);
      MsgBack(h.msg, s3, []);
      Unit(h.msg);
      StartRange(s3, 0, [], false);
      FieldsNoZero(h.headers);
      StartRange(s3, 0, [], true);
    }
  }

  lemma {:induction false} FieldsNoZero(fs: Fields)
    requires forall i :: 0 <= i < |fs| ==> 0 !in fs[i].0 && 0 !in fs[i].1
    ensures forall i :: 0 <= i < |FieldLines(fs)| ==> FieldLines(fs)[i] != 0
  {
    if fs != [] {
      FieldsNoZero(fs[1..]);
    }
  }

  /** A head whose one value starts with a blank is not read back. */
  lemma BlankLost(tail: Bytes)
    ensures var h := Head([72], 200, [], [([88], [32, 89])]);
      !Sendable(h) && Parse(Print(h) + (CRLF + tail)) != Done(h, tail)
  {
    var h := Head([72], 200, [], [([88], [32, 89])]);
    assert !PlainField(h.headers[0]);
    RoundTripIff(h, tail);
  }
}
