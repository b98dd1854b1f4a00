// What a response head is, as printed and as read, without the printer and
// the reader: the digits, the lines and the blanks, sections 4.2 and 6.1 of
// RFC 2616.
module HeadGrammar {
  import opened Octets
  import opened Numbers
  import opened Seqs
  import opened HeadText

  // ----- Numbers -----

  /** A text of decimal digits with these values. */
  ghost predicate Figures(s: Bytes, vs: seq<nat>) {
    |s| == |vs| && forall i :: 0 <= i < |vs| ==> vs[i] < 10 && s[i] == 48 + vs[i]
  }

  /** Digits are printed without leading zeros. */
  lemma {:induction false} DigitsPrinted(n: nat) returns (vs: seq<nat>)
    ensures Figures(Digits(n), vs) && vs != [] && Value(10, vs) == n && (vs[0] == 0 ==> vs == [0])
    decreases n
  {
    if n < 10 {
      vs := [n];
    } else {
      hide Value;
      vs := DigitsPrinted(n / 10);
      ValueSnoc(10, vs, n % 10);
      assert vs[0] != 0;
      vs := vs + [n % 10];
    }
  }

  /** Digits before a blank are read as what they stand for if that is below
      10000, and refused otherwise. */
  lemma {:induction false} CodeRead(s: Bytes, vs: seq<nat>, tail: Bytes, code: nat)
    requires Figures(s, vs) && code < 10000
    ensures CodeOf(s + ([32] + tail), code) ==
      if Onto(10, code, vs) < 10000 then Done(Onto(10, code, vs), tail) else Fail
    decreases |s|
  {
    hide Onto;
    var t := s + ([32] + tail);
    if s == [] {
      OntoNone(10, code);
      assert t == [32] + tail && t[1..] == tail;
    } else {
      var next := code * 10 + vs[0];
      OntoMore(10, code, vs[0], vs[1..]);
      assert [vs[0]] + vs[1..] == vs;
      TailOf(s, [32] + tail);
      if next < 10000 {
        CodeRead(s[1..], vs[1..], tail, next);
      } else {
        OntoLeast(10, next, vs[1..]);
      }
    }
  }

  lemma {:induction false} OntoLeast(base: nat, read: nat, vs: seq<nat>)
    requires base > 0
    ensures Onto(base, read, vs) >= read
    decreases |vs|
  {
    hide Onto;
    if vs == [] {
      OntoNone(base, read);
    } else {
      OntoMore(base, read, vs[0], vs[1..]);
      assert [vs[0]] + vs[1..] == vs;
      OntoLeast(base, read * base + vs[0], vs[1..]);
      assert read * base >= read;
    }
  }

  lemma CodeStep(s: Bytes, code: nat)
    requires CodeOf(s, code).Done?
    ensures s != []
    ensures if s[0] == 32 then CodeOf(s, code).rest == s[1..]
      else 48 <= s[0] < 58 && CodeOf(s, code) == CodeOf(s[1..], code * 10 + (s[0] - 48))
  {
  }

  /** And nothing but digits and a blank is read as a code. */
  lemma {:induction false} CodeMeans(s: Bytes, code: nat) returns (d: Bytes, vs: seq<nat>)
    requires CodeOf(s, code).Done?
    ensures Figures(d, vs) && s == d + ([32] + CodeOf(s, code).rest)
    decreases |s|
  {
    hide CodeOf;
    CodeStep(s, code);
    assert s == [s[0]] + s[1..];
    if s[0] == 32 {
      d, vs := [], [];
    } else {
      d, vs := CodeMeans(s[1..], code * 10 + (s[0] - 48));
      Assoc([s[0]], d, [32] + CodeOf(s, code).rest);
      d, vs := [s[0]] + d, [s[0] - 48] + vs;
    }
  }

  // ----- What is printed -----

  ghost function FieldTexts(hs: Fields): (lines: seq<Bytes>)
    ensures |lines| == |hs|
    ensures forall i :: 0 <= i < |hs| ==> lines[i] == hs[i].0 + [58, 32] + hs[i].1 + [13, 10]
  {
    seq(|hs|, i requires 0 <= i < |hs| => hs[i].0 + [58, 32] + hs[i].1 + [13, 10])
  }

  /** A printed head: the version, the code with a sign if it is negative, and
      the reason, one blank apart; then the fields, name and value a colon and
      a blank apart; every line ended by CR and LF. */
  lemma Printed(h: Head) returns (digits: Bytes, vs: seq<nat>)
    ensures Figures(digits, vs) && vs != [] && (vs[0] == 0 ==> vs == [0])
    ensures Value(10, vs) == if h.code < 0 then -h.code else h.code
    ensures Print(h) == h.ver + [32] + (if h.code < 0 then [45] else []) + digits + [32] + h.msg + [13, 10]
      + Concat(FieldTexts(h.headers))
  {
    var n := if h.code < 0 then -h.code else h.code;
    digits := Digits(n);
    vs := DigitsPrinted(n);
    StatusPrinted(h, if h.code < 0 then [45] else [], digits);
    FieldsPrinted(h.headers);
  }

  lemma StatusPrinted(h: Head, sign: Bytes, digits: Bytes)
    requires Decimal(h.code) == sign + digits
    ensures StatusLine(h) == h.ver + [32] + sign + digits + [32] + h.msg + [13, 10]
  {
    Assoc(h.ver + [32] + Decimal(h.code) + [32], h.msg, [13, 10]);
    Assoc(h.ver + [32] + Decimal(h.code), [32], h.msg + [13, 10]);
    Assoc(h.ver + [32], Decimal(h.code), [32] + (h.msg + [13, 10]));
    Assoc(h.ver, [32], Decimal(h.code) + ([32] + (h.msg + [13, 10])));
    Assoc(h.ver + [32], sign, digits);
  }

  lemma {:induction false} FieldsPrinted(hs: Fields)
    ensures FieldLines(hs) == Concat(FieldTexts(hs))
  {
    if hs != [] {
      FieldsPrinted(hs[1..]);
      assert FieldTexts(hs)[1..] == FieldTexts(hs[1..]);
      assert FieldTexts(hs)[0] == FieldLine(hs[0].0, hs[0].1);
    }
  }

  // ----- White space -----

  /** Space, tab, line feed, vertical tab, form feed and carriage return. */
  const BLANKS: set<Byte> := {32, 9, 10, 11, 12, 13}

  ghost predicate AllBlank(b: Bytes) {
    forall i :: 0 <= i < |b| ==> b[i] in BLANKS
  }

  /** Trimming takes the white space at both ends, and nothing else. */
  lemma TrimExact(left: Bytes, b: Bytes, right: Bytes)
    requires AllBlank(left) && AllBlank(right) && (b != [] ==> b[0] !in BLANKS && b[|b| - 1] !in BLANKS)
    ensures Trim(left + (b + right)) == b
  {
    if b == [] {
      assert left + (b + right) == (left + right) + [];
      LeftExact(left + right, []);
      RightExact([], []);
    } else {
      LeftExact(left, b + right);
      RightExact(b, right);
    }
  }

  lemma {:induction false} LeftExact(left: Bytes, b: Bytes)
    requires AllBlank(left) && (b != [] ==> b[0] !in BLANKS)
    ensures TrimLeft(left + b) == b
    decreases |left|
  {
    if left == [] {
      Unit(b);
    } else {
      TailOf(left, b);
      LeftExact(left[1..], b);
    }
  }

  lemma {:induction false} RightExact(b: Bytes, right: Bytes)
    requires AllBlank(right) && (b != [] ==> b[|b| - 1] !in BLANKS)
    ensures TrimRight(b + right) == b
    decreases |right|
  {
    if right == [] {
      Unit(b);
    } else {
      var s := b + right;
      assert s[..|s| - 1] == b + right[..|right| - 1];
      RightExact(b, right[..|right| - 1]);
    }
  }

  // ----- What is read -----

  /** Carriage returns are ignored wherever they stand. */
  function NoCr(b: Bytes): (r: Bytes) {
    if b == [] then [] else if b[0] == 13 then NoCr(b[1..]) else [b[0]] + NoCr(b[1..])
  }

  /** A field line without its line feed: whatever stands before and after its
      first colon. */
  predicate RawField(f: (Bytes, Bytes)) {
    10 !in f.0 && 58 !in f.0 && 10 !in f.1
  }

  function RawLine(f: (Bytes, Bytes)): Bytes {
    f.0 + ([58] + (f.1 + [10]))
  }

  function RawLines(fs: Fields): Bytes {
    if fs == [] then [] else RawLine(fs[0]) + RawLines(fs[1..])
  }

  /** What it is read as; with or without a blank after the colon. */
  function ReadAs(f: (Bytes, Bytes)): (Bytes, Bytes) {
    (Field(NoCr(f.0)), Field(NoCr(f.1)))
  }

  function AllReadAs(fs: Fields): Fields {
    if fs == [] then [] else [ReadAs(fs[0])] + AllReadAs(fs[1..])
  }

  /** Field lines and an empty line, and what they are read as. */
  ghost predicate IsRead(fs: Fields, crs: Bytes) {
    (forall i :: 0 <= i < |fs| ==> RawField(fs[i])) && forall i :: 0 <= i < |crs| ==> crs[i] == 13
  }

  lemma {:induction false} NameRead(m: Bytes, tail: Bytes, n: nat, hs: Fields, name: Bytes)
    requires 10 !in m && 58 !in m && n + |m| < MAXHEAD
    ensures InName(m + tail, n, hs, name) == InName(tail, n + |m|, hs, name + NoCr(m))
    decreases |m|
  {
    if m == [] {
      Unit(tail);
      Unit(name);
    } else {
      TailOf(m, tail);
      Assoc(name, [m[0]], NoCr(m[1..]));
      assert m[0] in m && forall x :: x in m[1..] ==> x in m;
      NameRead(m[1..], tail, n + 1, hs, if m[0] == 13 then name else name + [m[0]]);
    }
  }

  lemma {:induction false} ValueRead(m: Bytes, tail: Bytes, n: nat, hs: Fields, name: Bytes, val: Bytes)
    requires 10 !in m && n + |m| < MAXHEAD
    ensures InValue(m + tail, n, hs, name, val) == InValue(tail, n + |m|, hs, name, val + NoCr(m))
    decreases |m|
  {
    if m == [] {
      Unit(tail);
      Unit(val);
    } else {
      TailOf(m, tail);
      Assoc(val, [m[0]], NoCr(m[1..]));
      assert m[0] in m && forall x :: x in m[1..] ==> x in m;
      ValueRead(m[1..], tail, n + 1, hs, name, if m[0] == 13 then val else val + [m[0]]);
    }
  }

  /** The line that has begun is a field's. */
  lemma {:induction false} Begun(m: Bytes, rest: Bytes, n: nat, hs: Fields)
    requires 10 !in m && 58 !in m && n + |m| + 1 < MAXHEAD
    ensures Start(m + ([58] + rest), n, hs) == InName([58] + rest, n + |m|, hs, NoCr(m))
    decreases |m|
  {
    var s := m + ([58] + rest);
    if m == [] {
      Unit([58] + rest);
    } else if m[0] == 13 {
      TailOf(m, [58] + rest);
      assert forall x :: x in m[1..] ==> x in m;
      Begun(m[1..], rest, n + 1, hs);
    } else {
      assert m[0] in m && s[0] == m[0];
      NameRead(m, [58] + rest, n, hs, []);
      Unit(NoCr(m));
    }
  }

  /** A field line, whatever blanks and carriage returns it has, is read as
      its name and its value, trimmed. */
  lemma LineRead(f: (Bytes, Bytes), tail: Bytes, n: nat, hs: Fields)
    requires RawField(f) && n + |RawLine(f)| < MAXHEAD
    ensures Start(RawLine(f) + tail, n, hs) == Start(tail, n + |RawLine(f)|, hs + [ReadAs(f)])
  {
    hide Start, NoCr, CString, Trim;
    var end := [10] + tail;
    var rest := f.1 + end;
    assert RawLine(f) + tail == f.0 + ([58] + rest);
    Begun(f.0, rest, n, hs);
    assert ([58] + rest)[1..] == rest;
    var name := Trim(NoCr(f.0));
    assert InName([58] + rest, n + |f.0|, hs, NoCr(f.0)) == InValue(rest, n + |f.0| + 1, hs, name, []);
    ValueRead(f.1, end, n + |f.0| + 1, hs, name, []);
    Unit(NoCr(f.1));
    assert end[1..] == tail;
  }

  lemma {:induction false} EndRead(crs: Bytes, tail: Bytes, n: nat, hs: Fields)
    requires (forall i :: 0 <= i < |crs| ==> crs[i] == 13) && n + |crs| + 1 < MAXHEAD
    ensures Start(crs + ([10] + tail), n, hs) == Done(hs, tail)
    decreases |crs|
  {
    var s := crs + ([10] + tail);
    if crs == [] {
      assert s == [10] + tail && s[1..] == tail;
    } else {
      TailOf(crs, [10] + tail);
      EndRead(crs[1..], tail, n + 1, hs);
    }
  }

  /** Any field lines, then an empty one: the fields are read in order. */
  lemma {:induction false} FieldsRead(fs: Fields, crs: Bytes, tail: Bytes, n: nat, hs: Fields)
    requires IsRead(fs, crs) && n + |RawLines(fs)| + |crs| + 1 < MAXHEAD
    ensures Start(RawLines(fs) + (crs + ([10] + tail)), n, hs) == Done(hs + AllReadAs(fs), tail)
    decreases |fs|
  {
    hide Start, RawLine, ReadAs;
    var end := crs + ([10] + tail);
    if fs == [] {
      Unit(end);
      Unit(hs);
      EndRead(crs, tail, n, hs);
    } else {
      var l, more := RawLine(fs[0]), RawLines(fs[1..]);
      Assoc(l, more, end);
      LineRead(fs[0], more + end, n, hs);
      FieldsRead(fs[1..], crs, tail, n + |l|, hs + [ReadAs(fs[0])]);
      Assoc(hs, [ReadAs(fs[0])], AllReadAs(fs[1..]));
    }
  }

  /** And nothing else is read: whatever the reader accepts is made of field
      lines and an empty one. */
  lemma {:induction false} StartMeans(s: Bytes, n: nat, hs: Fields) returns (fs: Fields, crs: Bytes)
    requires Start(s, n, hs).Done?
    ensures IsRead(fs, crs) && s == RawLines(fs) + (crs + ([10] + Start(s, n, hs).rest))
    decreases |s|, 1
  {
    var rest := Start(s, n, hs).rest;
    assert s == [s[0]] + s[1..];
    if s[0] == 13 {
      fs, crs := StartMeans(s[1..], n + 1, hs);
      fs, crs := OneCr(fs, crs, rest);
    } else if s[0] == 10 {
      fs, crs := [], [];
    } else {
      var m, v;
      m, v, fs, crs := NameMeans(s, n, hs, []);
      assert s == RawLine((m, v)) + (RawLines(fs) + (crs + ([10] + rest)));
      fs := Fronted((m, v), fs, crs, [10] + rest);
    }
  }

  lemma Fronted(f: (Bytes, Bytes), fs0: Fields, crs: Bytes, end: Bytes) returns (fs: Fields)
    requires RawField(f) && IsRead(fs0, crs)
    ensures IsRead(fs, crs) && RawLines(fs) + (crs + end) == RawLine(f) + (RawLines(fs0) + (crs + end))
  {
    fs := [f] + fs0;
    Assoc(RawLine(f), RawLines(fs0), crs + end);
  }

  /** A carriage return in front belongs to the first line. */
  lemma OneCr(fs0: Fields, crs0: Bytes, rest: Bytes) returns (fs: Fields, crs: Bytes)
    requires IsRead(fs0, crs0)
    ensures IsRead(fs, crs)
    ensures RawLines(fs) + (crs + ([10] + rest)) == [13] + (RawLines(fs0) + (crs0 + ([10] + rest)))
  {
    var end := [10] + rest;
    if fs0 == [] {
      fs, crs := [], [13] + crs0;
      Assoc([13], crs0, end);
      Unit(crs0 + end);
      Unit(crs + end);
    } else {
      var f := ([13] + fs0[0].0, fs0[0].1);
      fs, crs := [f] + fs0[1..], crs0;
      assert RawLine(f) == [13] + RawLine(fs0[0]);
      Assoc([13], RawLine(fs0[0]), RawLines(fs0[1..]));
      assert RawLines(fs) == [13] + RawLines(fs0);
      Assoc([13], RawLines(fs0), crs0 + end);
    }
  }

  lemma {:induction false} NameMeans(s: Bytes, n: nat, hs: Fields, name: Bytes)
    returns (m: Bytes, v: Bytes, fs: Fields, crs: Bytes)
    requires InName(s, n, hs, name).Done?
    ensures RawField((m, v)) && IsRead(fs, crs)
    ensures s == RawLine((m, v)) + (RawLines(fs) + (crs + ([10] + InName(s, n, hs, name).rest)))
    decreases |s|, 0
  {
    var end := [10] + InName(s, n, hs, name).rest;
    assert s == [s[0]] + s[1..];
    if s[0] == 58 {
      v, fs, crs := ValueMeans(s[1..], n + 1, hs, Trim(name), []);
      m := [];
      assert RawLine((m, v)) == [58] + (v + [10]);
      Assoc([58], v + [10], RawLines(fs) + (crs + end));
    } else {
      m, v, fs, crs := NameMeans(s[1..], n + 1, hs, if s[0] == 13 then name else name + [s[0]]);
      Assoc([s[0]], m, [58] + (v + [10]));
      Assoc([s[0]], RawLine((m, v)), RawLines(fs) + (crs + end));
      m := [s[0]] + m;
    }
  }

  lemma {:induction false} ValueMeans(s: Bytes, n: nat, hs: Fields, name: Bytes, val: Bytes)
    returns (v: Bytes, fs: Fields, crs: Bytes)
    requires InValue(s, n, hs, name, val).Done?
    ensures 10 !in v && IsRead(fs, crs)
    ensures s == (v + [10]) + (RawLines(fs) + (crs + ([10] + InValue(s, n, hs, name, val).rest)))
    decreases |s|, 0
  {
    var end := [10] + InValue(s, n, hs, name, val).rest;
    assert s == [s[0]] + s[1..];
    if s[0] == 10 {
      fs, crs := StartMeans(s[1..], n + 1, hs + [(CString(name), Field(val))]);
      v := [];
      Unit([10]);
    } else {
      v, fs, crs := ValueMeans(s[1..], n + 1, hs, name, if s[0] == 13 then val else val + [s[0]]);
      Assoc([s[0]], v, [10]);
      Assoc([s[0]], v + [10], RawLines(fs) + (crs + end));
      v := [s[0]] + v;
    }
  }

  // ----- The status line -----

  /** A reason is read without its carriage returns if it has no control
      characters and is short enough. */
  lemma {:induction false} ReasonRead(m: Bytes, tail: Bytes, msg: Bytes)
    requires forall i :: 0 <= i < |m| ==> m[i] == 13 || m[i] >= 32
    requires |msg| + |NoCr(m)| < 512
    ensures MsgOf(m + ([10] + tail), msg) == Done(msg + NoCr(m), tail)
    decreases |m|
  {
    var s := m + ([10] + tail);
    if m == [] {
      assert s == [10] + tail && s[1..] == tail;
      Unit(msg);
    } else {
      TailOf(m, [10] + tail);
      Assoc(msg, [m[0]], NoCr(m[1..]));
      ReasonRead(m[1..], tail, if m[0] == 13 then msg else msg + [m[0]]);
    }
  }

  /** And nothing else is read as one. */
  lemma {:induction false} ReasonMeans(s: Bytes, msg: Bytes) returns (m: Bytes)
    requires MsgOf(s, msg).Done?
    ensures s == m + ([10] + MsgOf(s, msg).rest) && MsgOf(s, msg).v == msg + NoCr(m)
    ensures forall i :: 0 <= i < |m| ==> m[i] == 13 || m[i] >= 32
    ensures |msg| < 512 ==> |msg| + |NoCr(m)| < 512
    decreases |s|
  {
    assert s == [s[0]] + s[1..];
    if s[0] == 10 {
      m := [];
      Unit(msg);
    } else {
      var m1 := ReasonMeans(s[1..], if s[0] == 13 then msg else msg + [s[0]]);
      m := [s[0]] + m1;
      assert m[1..] == m1;
      Assoc([s[0]], m1, [10] + MsgOf(s, msg).rest);
      Assoc(msg, [s[0]], NoCr(m1));
    }
  }

  /** A version ends at the first blank. */
  lemma {:induction false} VersionMeans(s: Bytes, ver: Bytes) returns (v: Bytes)
    requires VerOf(s, ver).Done?
    ensures s == v + ([32] + VerOf(s, ver).rest) && VerOf(s, ver).v == ver + v
    ensures (forall i :: 0 <= i < |v| ==> 32 < v[i] < 128) && (|ver| < 128 ==> |ver| + |v| < 128)
    decreases |s|
  {
    assert s == [s[0]] + s[1..];
    if s[0] == 32 {
      v := [];
      Unit(ver);
    } else {
      v := VersionMeans(s[1..], ver + [s[0]]);
      Assoc([s[0]], v, [32] + VerOf(s, ver).rest);
      Assoc(ver, [s[0]], v);
      v := [s[0]] + v;
    }
  }

  // ----- Whole heads -----

  /** The parts of the text of a head. */
  datatype Raw = Raw(ver: Bytes, digits: Bytes, vs: seq<nat>, reason: Bytes, fields: Fields, crs: Bytes) {
    ghost predicate Valid() {
      && |ver| < 128 && (forall i :: 0 <= i < |ver| ==> 32 < ver[i] < 128)
      && Figures(digits, vs) && Value(10, vs) < 10000
      && (forall i :: 0 <= i < |reason| ==> reason[i] == 13 || reason[i] >= 32) && |NoCr(reason)| < 512
      && IsRead(fields, crs) && |RawLines(fields)| + |crs| + 1 < 65536
    }

    function Text(tail: Bytes): Bytes {
      ver + ([32] + (digits + ([32] + (reason + ([10] + (RawLines(fields) + (crs + ([10] + tail))))))))
    }

    function Meaning(): Head {
      Head(ver, Value(10, vs), NoCr(reason), AllReadAs(fields))
    }
  }

  /** Every such text is read as what it means. */
  lemma RawBack(r: Raw, tail: Bytes)
    requires r.Valid()
    ensures Parse(r.Text(tail)) == Done(r.Meaning(), tail)
  {
    hide VerOf, CodeOf, MsgOf, Start, NoCr, RawLines, Value, Figures, IsRead;
    var s3 := RawLines(r.fields) + (r.crs + ([10] + tail));
    var s2 := r.reason + ([10] + s3);
    var s1 := r.digits + ([32] + s2);
    VerBack(r.ver, s1, []);
    Unit(r.ver);
    CodeRead(r.digits, r.vs, s2, 0);
    ReasonRead(r.reason, s3, []);
    Unit(NoCr(r.reason));
    FieldsRead(r.fields, r.crs, tail, 0, []);
    Unit(AllReadAs(r.fields));
  }

  /** And every text that is read at all is one of those. */
  lemma RawMeans(s: Bytes) returns (r: Raw)
    requires Parse(s).Done?
    ensures r.Valid() && s == r.Text(Parse(s).rest) && Parse(s).v == r.Meaning()
  {
    hide VerOf, CodeOf, MsgOf, Start, NoCr, RawLines, Value, Figures, IsRead, Onto;
    var ver := VersionMeans(s, []);
    var s1 := VerOf(s, []).rest;
    var digits, vs := CodeMeans(s1, 0);
    var s2 := CodeOf(s1, 0).rest;
    CodeRead(digits, vs, s2, 0);
    OntoZero(10, vs);
    var reason := ReasonMeans(s2, []);
    Unit(NoCr(reason));
    var s3 := MsgOf(s2, []).rest;
    var fs, crs := StartMeans(s3, 0, []);
    StartLength(s3);
    FieldsRead(fs, crs, Start(s3, 0, []).rest, 0, []);
    Unit(AllReadAs(fs));
    r := Raw(ver, digits, vs, reason, fs, crs);
  }

  lemma OntoZero(base: nat, vs: seq<nat>)
    ensures Onto(base, 0, vs) == Value(base, vs)
  {
  }

  lemma StartLength(s: Bytes)
    requires Start(s, 0, []).Done?
    ensures |s| - |Start(s, 0, []).rest| < MAXHEAD
  {
    StartRange(s, 0, [], false);
  }
}
