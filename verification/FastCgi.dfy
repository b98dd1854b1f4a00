// The record framing of src/callfcgi.c, section 3.3 of the FastCGI
// Specification, and the demultiplexer that reads it.
module FastCgi {
  import opened Octets
  import opened Seqs

  // ----- Files -----

  /** A file to write to that takes so many bytes before it fails. */
  class OutFile {
    var written: Bytes
    var room: nat
    var open: bool

    constructor (room: nat)
      ensures written == [] && this.room == room && open
    {
      written, this.room, open := [], room, true;
    }

    method FPutC(b: Byte) returns (ok: bool)
      modifies this`written, this`room
      ensures ok == (old(room) > 0)
      ensures written == old(written) + if ok then [b] else []
      ensures room == old(room) - if ok then 1 else 0
    {
      ok := room > 0;
      if ok {
        written, room := written + [b], room - 1;
      }
    }

    method FWrite(data: Bytes) returns (n: nat)
      modifies this`written, this`room
      ensures n == if old(room) < |data| then old(room) else |data|
      ensures written == old(written) + data[..n] && room == old(room) - n
    {
      n := if room < |data| then room else |data|;
      written, room := written + data[..n], room - n;
    }

    method FClose()
      modifies this`open
      ensures !open
    {
      open := false;
    }
  }

  /** A file to read from. */
  class InFile {
    var pending: Bytes

    constructor (pending: Bytes)
      ensures this.pending == pending
    {
      this.pending := pending;
    }

    method FRead(n: nat) returns (data: Bytes)
      modifies this
      ensures |data| <= n && data + pending == old(pending) && (|data| < n ==> pending == [])
    {
      var k := if |pending| < n then |pending| else n;
      data, pending := pending[..k], pending[k..];
    }
  }

  // ----- Records -----

  datatype Record = Record(rtype: int, rid: int, data: Bytes)

  const MAX := 65535

  function Pad(cl: nat): (p: nat)
    ensures p < 8 && (cl + p) % 8 == 0
  {
    (8 - cl % 8) % 8
  }

  function Zeros(n: nat): (z: Bytes)
    ensures |z| == n && forall i :: 0 <= i < n ==> z[i] == 0
  {
    seq(n, _ => 0)
  }

  function Header(rtype: int, rid: int, cl: nat): (h: Bytes)
    ensures |h| == 8
  {
    [1, rtype % 256, rid / 256 % 256, rid % 256, cl / 256 % 256, cl % 256, Pad(cl), 0]
  }

  /** One record on the wire. */
  function Wire(r: Record): Bytes {
    Header(r.rtype, r.rid, |r.data|) + r.data + Zeros(Pad(|r.data|))
  }

  function WireAll(rs: seq<Record>): Bytes {
    if rs == [] then [] else Wire(rs[0]) + WireAll(rs[1..])
  }

  /** How `sendrec` cuts up its data. */
  function Cut(rtype: int, rid: int, data: Bytes): (rs: seq<Record>)
    ensures rs != []
    decreases |data|
  {
    if |data| <= MAX then [Record(rtype, rid, data)]
    else [Record(rtype, rid, data[..MAX])] + Cut(rtype, rid, data[MAX..])
  }

  function Word(high: int, low: int): int {
    high * 256 + low
  }

  datatype Parsed = Bad | Good(r: Record, rest: Bytes)

  /** The record at the front of s. */
  function Parse(s: Bytes): (p: Parsed)
    ensures p.Good? ==> |p.rest| < |s|
  {
    if |s| < 8 || s[0] != 1 || s[7] != 0 then Bad
    else
      var dlen := Word(s[4], s[5]);
      var tl: int := dlen + s[6];
      if |s| < 8 + tl then Bad
      else Good(Record(s[1], Word(s[2], s[3]), s[8..8 + dlen]), s[8 + tl..])
  }

  /** The records at the front of s, as far as they can be read. */
  function ParseAll(s: Bytes): seq<Record>
    decreases |s|
  {
    match Parse(s)
    case Bad => []
    case Good(r, rest) => [r] + ParseAll(rest)
  }

  /** A record as the receiver sees it: one byte of type, two of id. */
  function Seen(r: Record): Record {
    Record(r.rtype % 256, r.rid % 65536, r.data)
  }

  function SeenAll(rs: seq<Record>): (s: seq<Record>)
    ensures |s| == |rs| && forall i :: 0 <= i < |rs| ==> s[i] == Seen(rs[i])
  {
    seq(|rs|, i requires 0 <= i < |rs| => Seen(rs[i]))
  }

  lemma WordBack(x: int)
    ensures Word(x / 256 % 256, x % 256) == x % 65536
  {
  }

  lemma Sections(h: Bytes, d: Bytes, z: Bytes, tail: Bytes)
    ensures var s := (h + d + z) + tail;
      && (forall i :: 0 <= i < |h| ==> s[i] == h[i])
      && s[|h|..|h| + |d|] == d && s[|h| + |d| + |z|..] == tail
  {
  }

  /** A record is read back from the wire, with what follows left alone. */
  lemma RecordBack(r: Record, tail: Bytes)
    requires |r.data| <= MAX
    ensures Parse(Wire(r) + tail) == Good(Seen(r), tail) && |Wire(r)| % 8 == 0
  {
    hide Word, Pad, Zeros;
    Sections(Header(r.rtype, r.rid, |r.data|), r.data, Zeros(Pad(|r.data|)), tail);
    WordBack(r.rid);
    WordBack(|r.data|);
  }

  function Join(rs: seq<Record>): Bytes {
    if rs == [] then [] else rs[0].data + Join(rs[1..])
  }

  /** The cut: same type and id, payloads that concatenate to the data, all
      but the last as long as they can be, and none empty unless there is
      nothing to send. */
  lemma {:induction false} CutSound(rtype: int, rid: int, data: Bytes)
    ensures var rs := Cut(rtype, rid, data);
      && Join(rs) == data
      && (forall i :: 0 <= i < |rs| ==> rs[i].rtype == rtype && rs[i].rid == rid && |rs[i].data| <= 65535)
      && (forall i :: 0 <= i < |rs| - 1 ==> |rs[i].data| == 65535)
      && (data != [] ==> forall i :: 0 <= i < |rs| ==> rs[i].data != [])
      && (data == [] ==> rs == [Record(rtype, rid, [])])
    decreases |data|
  {
    if |data| <= MAX {
      Unit(data);
      assert Cut(rtype, rid, data)[1..] == [];
    } else {
      CutSound(rtype, rid, data[MAX..]);
      assert data == data[..MAX] + data[MAX..];
      assert Cut(rtype, rid, data)[1..] == Cut(rtype, rid, data[MAX..]);
    }
  }

  /** Whole records of 8 bytes' multiples, read back one by one. */
  lemma {:induction false} AllBack(rs: seq<Record>, tail: Bytes)
    requires forall i :: 0 <= i < |rs| ==> |rs[i].data| <= MAX
    ensures ParseAll(WireAll(rs) + tail) == SeenAll(rs) + ParseAll(tail)
    ensures |WireAll(rs)| % 8 == 0
  {
    hide Parse, Wire;
    if rs == [] {
      Unit(tail);
      Unit(ParseAll(tail));
    } else {
      RecordBack(rs[0], WireAll(rs[1..]) + tail);
      Assoc(Wire(rs[0]), WireAll(rs[1..]), tail);
      AllBack(rs[1..], tail);
      assert SeenAll(rs) == [Seen(rs[0])] + SeenAll(rs[1..]);
      Assoc([Seen(rs[0])], SeenAll(rs[1..]), ParseAll(tail));
    }
  }

  // ----- Records as anybody may send them -----

  /** A record as section 3.3 of the FastCGI Specification lays it out, with
      any padding of at most 255 bytes. */
  datatype Framed = Framed(
    rtype: Byte, idHigh: Byte, idLow: Byte, lenHigh: Byte, lenLow: Byte, data: Bytes, pad: Bytes) {
    predicate Valid() {
      |data| == lenHigh * 256 + lenLow && |pad| <= 255
    }

    function OnWire(): Bytes
      requires Valid()
    {
      [1, rtype, idHigh, idLow, lenHigh, lenLow, |pad|, 0] + data + pad
    }

    function Content(): Record {
      Record(rtype, idHigh * 256 + idLow, data)
    }
  }

  predicate AllValid(fs: seq<Framed>) {
    forall i :: 0 <= i < |fs| ==> fs[i].Valid()
  }

  function AllBytes(fs: seq<Framed>): Bytes
    requires AllValid(fs)
  {
    if fs == [] then [] else fs[0].OnWire() + AllBytes(fs[1..])
  }

  function AllRecords(fs: seq<Framed>): seq<Record> {
    if fs == [] then [] else [fs[0].Content()] + AllRecords(fs[1..])
  }

  /** What this program puts on the wire is such a record, with the bits of
      type and id that fit, and the fewest zeros that make it a multiple of 8. */
  lemma WireFramed(r: Record) returns (f: Framed)
    requires |r.data| <= 65535
    ensures f.Valid() && f.OnWire() == Wire(r) && f.data == r.data
    ensures f.rtype == r.rtype % 256 && f.Content().rid == r.rid % 65536
    ensures |f.pad| < 8 && (8 + |f.data| + |f.pad|) % 8 == 0 && forall i :: 0 <= i < |f.pad| ==> f.pad[i] == 0
  {
    var cl := |r.data|;
    f := Framed(r.rtype % 256, r.rid / 256 % 256, r.rid % 256, cl / 256 % 256, cl % 256, r.data, Zeros(Pad(cl)));
    WordBack(r.rid);
    WordBack(cl);
  }

  /** Any such record is read whole, and what follows its padding is left. */
  lemma FramedBack(f: Framed, tail: Bytes)
    requires f.Valid()
    ensures Parse(f.OnWire() + tail) == Good(f.Content(), tail)
  {
    Sections([1, f.rtype, f.idHigh, f.idLow, f.lenHigh, f.lenLow, |f.pad|, 0], f.data, f.pad, tail);
  }

  /** And nothing else is read: an error means another version, a reserved
      byte in use, or less input than the header announces. */
  lemma BadMeans(s: Bytes)
    ensures Parse(s) == Bad <==> (|s| < 8 || s[0] != 1 || s[7] != 0 ||
      var high: int, low: int, pad: int := s[4], s[5], s[6]; |s| < 8 + (high * 256 + low) + pad)
  {
  }

  lemma {:induction false} AllFramedBack(fs: seq<Framed>, tail: Bytes)
    requires AllValid(fs)
    ensures ParseAll(AllBytes(fs) + tail) == AllRecords(fs) + ParseAll(tail)
    decreases |fs|
  {
    if fs == [] {
      Unit(tail);
      Unit(ParseAll(tail));
    } else {
      hide Parse;
      Assoc(fs[0].OnWire(), AllBytes(fs[1..]), tail);
      FramedBack(fs[0], AllBytes(fs[1..]) + tail);
      AllFramedBack(fs[1..], tail);
      Assoc([fs[0].Content()], AllRecords(fs[1..]), ParseAll(tail));
    }
  }

  /** What is sent in one call is received: the same type and id in every
      record, and payloads that make up the data. */
  lemma SendReceive(rtype: int, rid: int, data: Bytes, tail: Bytes)
    ensures var rs := SeenAll(Cut(rtype, rid, data));
      && ParseAll(WireAll(Cut(rtype, rid, data)) + tail) == rs + ParseAll(tail)
      && Join(rs) == data
      && forall i :: 0 <= i < |rs| ==> rs[i].rtype == rtype % 256 && rs[i].rid == rid % 65536
  {
    CutSound(rtype, rid, data);
    AllBack(Cut(rtype, rid, data), tail);
    JoinSeen(Cut(rtype, rid, data));
  }

  lemma {:induction false} JoinSeen(rs: seq<Record>)
    ensures Join(SeenAll(rs)) == Join(rs)
  {
    if rs != [] {
      JoinSeen(rs[1..]);
      assert SeenAll(rs)[1..] == SeenAll(rs[1..]);
    }
  }

  // ----- Sending and receiving -----

  /** Bytes through `fputc`, up to the first failure. */
  method PutBytes(out: OutFile, bytes: Bytes) returns (ok: bool)
    modifies out`written, out`room
    ensures SentSome(old(out.written), old(out.room), out.written, out.room, bytes, ok)
  {
    var i := 0;
    Unit(out.written);
    while i < |bytes|
      invariant 0 <= i <= |bytes| && i + out.room == old(out.room)
      invariant out.written == old(out.written) + bytes[..i]
    {
      var sent := out.FPutC(bytes[i]);
      if !sent {
        Unit(out.written);
        return false;
      }
      assert bytes[..i + 1] == bytes[..i] + [bytes[i]];
      Assoc(old(out.written), bytes[..i], [bytes[i]]);
      i := i + 1;
    }
    ok := true;
  }

  /** One record. */
  method SendOne(out: OutFile, rtype: int, rid: int, data: Bytes) returns (ok: bool)
    requires |data| <= MAX
    modifies out`written, out`room
    ensures var wire := Wire(Record(rtype, rid, data)); SentSome(old(out.written), old(out.room), out.written,
      out.room, wire, ok)
  {
    var cl := |data|;
    var p := Pad(cl);
    ghost var h, z := Header(rtype, rid, cl), Zeros(p);
    ok := PutBytes(out, Header(rtype, rid, cl));
    if !ok {
      SentFirst(old(out.written), old(out.room), out.written, out.room, h, data + z);
      return;
    }
    ghost var w1, r1 := out.written, out.room;
    var n := out.FWrite(data);
    SentBoth(old(out.written), old(out.room), w1, r1, out.written, out.room, h, data, n == cl);
    if n != cl {
      SentFirst(old(out.written), old(out.room), out.written, out.room, h + data, z);
      return false;
    }
    ghost var w2, r2 := out.written, out.room;
    ok := PutBytes(out, Zeros(p));
    SentBoth(old(out.written), old(out.room), w2, r2, out.written, out.room, h + data, z, ok);
  }

  /** As much of the wire text as there was room for has been written; ok if
      that was all of it. */
  ghost predicate SentSome(was: Bytes, room0: nat, written: Bytes, room: nat, wire: Bytes, ok: bool) {
    && ok == (|wire| <= room0)
    && written == was + wire[..if ok then |wire| else room0]
    && room == room0 - if ok then |wire| else room0
  }

  lemma SentFirst(was: Bytes, room0: nat, w: Bytes, r: nat, a: Bytes, b: Bytes)
    requires SentSome(was, room0, w, r, a, false)
    ensures SentSome(was, room0, w, r, a + b, false)
  {
    assert (a + b)[..room0] == a[..room0];
  }

  lemma SentBoth(was: Bytes, room0: nat, w1: Bytes, r1: nat, w2: Bytes, r2: nat, a: Bytes, b: Bytes, ok: bool)
    requires SentSome(was, room0, w1, r1, a, true) && SentSome(w1, r1, w2, r2, b, ok)
    ensures SentSome(was, room0, w2, r2, a + b, ok)
  {
    var n := if ok then |b| else r1;
    assert a[..|a|] == a;
    assert (a + b)[..|a| + n] == a + b[..n];
    Assoc(was, a, b[..n]);
  }

  /** `sendrec`: the records of Cut on the wire, as far as the file takes them. */
  method SendRec(out: OutFile, rtype: int, rid: int, data: Bytes) returns (ret: int)
    modifies out`written, out`room
    ensures ret == 0 || ret == -1
    ensures SentSome(old(out.written), old(out.room), out.written, out.room, WireAll(Cut(rtype, rid, data)), ret == 0)
  {
    hide SentSome, Wire;
    var off := 0;
    ghost var done: Bytes := [];
    StartSent(out.written, out.room);
    while true
      invariant 0 <= off <= |data| && (off > 0 ==> off < |data|)
      invariant SentSome(old(out.written), old(out.room), out.written, out.room, done, true)
      invariant done + WireAll(Cut(rtype, rid, data[off..])) == WireAll(Cut(rtype, rid, data))
      decreases |data| - off
    {
      var cl := if |data| - off < MAX then |data| - off else MAX;
      ghost var w1, r1, rest := out.written, out.room, data[off..];
      ghost var one := Wire(Record(rtype, rid, rest[..cl]));
      assert data[off..off + cl] == rest[..cl];
      var ok := SendOne(out, rtype, rid, data[off..off + cl]);
      SentBoth(old(out.written), old(out.room), w1, r1, out.written, out.room, done, one, ok);
      FirstCut(rtype, rid, rest);
      ghost var more := if |rest| <= MAX then [] else WireAll(Cut(rtype, rid, rest[MAX..]));
      Assoc(done, one, more);
      done := done + one;
      if !ok {
        SentFirst(old(out.written), old(out.room), out.written, out.room, done, more);
        return -1;
      }
      assert |rest| > MAX ==> rest[MAX..] == data[off + cl..];
      off := off + cl;
      if off >= |data| {
        Unit(done);
        return 0;
      }
    }
  }

  lemma StartSent(w: Bytes, room: nat)
    ensures SentSome(w, room, w, room, [], true)
  {
    Unit(w);
  }

  lemma FirstCut(rtype: int, rid: int, rest: Bytes)
    ensures WireAll(Cut(rtype, rid, rest)) ==
      if |rest| <= MAX then Wire(Record(rtype, rid, rest[..|rest|])) + []
      else Wire(Record(rtype, rid, rest[..MAX])) + WireAll(Cut(rtype, rid, rest[MAX..]))
  {
    assert rest[..|rest|] == rest;
    if |rest| <= MAX {
      assert Cut(rtype, rid, rest)[1..] == [];
    } else {
      assert Cut(rtype, rid, rest)[1..] == Cut(rtype, rid, rest[MAX..]);
    }
  }

  /** `recvrec`: the first record of what there is to read, or an error. */
  method RecvRec(input: InFile) returns (ret: int, rtype: int, rid: int, data: Bytes)
    modifies input
    ensures ret == 0 || ret == -1
    ensures ret == 0 ==> Parse(old(input.pending)) == Good(Record(rtype, rid, data), input.pending)
    ensures ret == -1 ==> Parse(old(input.pending)) == Bad
  {
    ret, rtype, rid, data := -1, 0, 0, [];
    ghost var s := input.pending;
    var header := input.FRead(8);
    if |header| != 8 {
      return;
    }
    if header[0] != 1 {
      return;
    }
    rtype := header[1];
    rid := Word(header[2], header[3]);
    var dlen := Word(header[4], header[5]);
    var tl: int := dlen + header[6];
    if header[7] != 0 {
      return;
    }
    ghost var rest := input.pending;
    var all := input.FRead(tl);
    if |all| != tl {
      return;
    }
    data := all[..dlen];
    ret := 0;
    assert data == s[8..8 + dlen];
    assert input.pending == s[8 + tl..];
  }

  // ----- The demultiplexer -----

  /** An output stream's slot: what it writes to, until that is closed. */
  datatype Ch = Ch(s: OutFile?, id: int)

  /** The records up to one for another request. */
  function Mine(rs: seq<Record>): seq<Record> {
    if rs == [] || rs[0].rid != 1 then [] else [rs[0]] + Mine(rs[1..])
  }

  /** Exactly those before the first of another request. */
  lemma {:induction false} MineStops(a: seq<Record>, b: seq<Record>)
    requires forall i :: 0 <= i < |a| ==> a[i].rid == 1
    requires b != [] ==> b[0].rid != 1
    ensures Mine(a + b) == a
  {
    if a == [] {
      Unit(b);
    } else {
      assert (a + b)[1..] == a[1..] + b;
      MineStops(a[1..], b);
    }
  }

  /** What `outplex` has to deliver, however the application pads its records. */
  lemma Transmitted(fs: seq<Framed>, tail: Bytes)
    requires AllValid(fs) && (forall i :: 0 <= i < |fs| ==> fs[i].idHigh == 0 && fs[i].idLow == 1)
    requires match Parse(tail) case Bad => true case Good(r, _) => r.rid != 1
    ensures Mine(ParseAll(AllBytes(fs) + tail)) == AllRecords(fs)
  {
    AllFramedBack(fs, tail);
    RecordsAre(fs);
    MineStops(AllRecords(fs), ParseAll(tail));
  }

  lemma {:induction false} RecordsAre(fs: seq<Framed>)
    ensures |AllRecords(fs)| == |fs| && forall i :: 0 <= i < |fs| ==> AllRecords(fs)[i] == fs[i].Content()
  {
    if fs != [] {
      RecordsAre(fs[1..]);
    }
  }

  predicate Ended(rs: seq<Record>, t: int) {
    exists k :: 0 <= k < |rs| && rs[k].rtype == t && rs[k].data == []
  }

  /** The payloads of type t, up to the first empty one. */
  function Payload(rs: seq<Record>, t: int): Bytes {
    if rs == [] then []
    else if rs[0].rtype != t then Payload(rs[1..], t)
    else if rs[0].data == [] then []
    else rs[0].data + Payload(rs[1..], t)
  }

  lemma EndedCons(rs: seq<Record>, t: int)
    requires rs != []
    ensures Ended(rs, t) <==> (rs[0].rtype == t && rs[0].data == []) || Ended(rs[1..], t)
  {
    if Ended(rs[1..], t) {
      var k :| 0 <= k < |rs| - 1 && rs[1..][k].rtype == t && rs[1..][k].data == [];
      assert rs[k + 1].rtype == t;
    }
    if Ended(rs, t) && !(rs[0].rtype == t && rs[0].data == []) {
      var k :| 0 <= k < |rs| && rs[k].rtype == t && rs[k].data == [];
      assert rs[1..][k - 1].rtype == t;
    }
  }

  lemma EndedSnoc(rs: seq<Record>, r: Record, t: int)
    ensures Ended(rs + [r], t) <==> Ended(rs, t) || (r.rtype == t && r.data == [])
  {
    if Ended(rs, t) {
      var k :| 0 <= k < |rs| && rs[k].rtype == t && rs[k].data == [];
      assert (rs + [r])[k].rtype == t;
    }
    assert (rs + [r])[|rs|] == r;
  }

  lemma {:induction false} PayloadApp(a: seq<Record>, b: seq<Record>, t: int)
    ensures Payload(a + b, t) == Payload(a, t) + if Ended(a, t) then [] else Payload(b, t)
  {
    if a == [] {
      assert a + b == b;
    } else {
      EndedCons(a, t);
      assert (a + b)[1..] == a[1..] + b;
      PayloadApp(a[1..], b, t);
      Assoc(a[0].data, Payload(a[1..], t), if Ended(a[1..], t) then [] else Payload(b, t));
    }
  }

  /** The records of one type. */
  function Of(rs: seq<Record>, t: int): seq<Record> {
    if rs == [] then [] else (if rs[0].rtype == t then [rs[0]] else []) + Of(rs[1..], t)
  }

  /** Other streams' records in between make no difference. */
  lemma {:induction false} PayloadOf(rs: seq<Record>, t: int)
    ensures Payload(rs, t) == Payload(Of(rs, t), t)
  {
    if rs != [] {
      PayloadOf(rs[1..], t);
      if rs[0].rtype == t {
        assert Of(rs, t)[1..] == Of(rs[1..], t);
      } else {
        Unit(Of(rs[1..], t));
      }
    }
  }

  /** The records of several calls of `sendrec` for one stream, as received. */
  function Calls(t: int, rid: int, sends: seq<Bytes>): seq<Record> {
    if sends == [] then [] else SeenAll(Cut(t, rid, sends[0])) + Calls(t, rid, sends[1..])
  }

  lemma {:induction false} PayloadCut(t: int, rid: int, data: Bytes, more: seq<Record>)
    requires 0 <= t < 256 && data != []
    ensures Payload(SeenAll(Cut(t, rid, data)) + more, t) == data + Payload(more, t)
    decreases |data|
  {
    var first := Seen(Record(t, rid, if |data| <= MAX then data else data[..MAX]));
    if |data| <= MAX {
      assert SeenAll(Cut(t, rid, data)) == [first];
      assert ([first] + more)[1..] == more;
    } else {
      var rest := SeenAll(Cut(t, rid, data[MAX..]));
      assert SeenAll(Cut(t, rid, data)) == [first] + rest;
      assert (([first] + rest) + more)[1..] == rest + more;
      PayloadCut(t, rid, data[MAX..], more);
      assert data == data[..MAX] + data[MAX..];
      Assoc(data[..MAX], data[MAX..], Payload(more, t));
    }
  }

  lemma {:induction false} CallsBack(t: int, rid: int, sends: seq<Bytes>, tail: seq<Record>)
    requires 0 <= t < 256 && forall i :: 0 <= i < |sends| ==> sends[i] != []
    ensures Payload(Calls(t, rid, sends) + (SeenAll(Cut(t, rid, [])) + tail), t) == Concat(sends)
  {
    var e := SeenAll(Cut(t, rid, [])) + tail;
    if sends == [] {
      assert SeenAll(Cut(t, rid, [])) == [Record(t, rid % 65536, [])];
      Unit(e);
    } else {
      CallsBack(t, rid, sends[1..], tail);
      PayloadCut(t, rid, sends[0], Calls(t, rid, sends[1..]) + e);
      Assoc(SeenAll(Cut(t, rid, sends[0])), Calls(t, rid, sends[1..]), e);
    }
  }

  /** A stream sent in any number of nonempty calls and ended by an empty one
      arrives whole, whatever is sent on other streams in between and on this
      one afterwards. */
  lemma StreamBack(t: int, rid: int, sends: seq<Bytes>, rs: seq<Record>, tail: seq<Record>)
    requires 0 <= t < 256 && forall i :: 0 <= i < |sends| ==> sends[i] != []
    requires Of(rs, t) == Calls(t, rid, sends) + (SeenAll(Cut(t, rid, [])) + tail)
    ensures Payload(rs, t) == Concat(sends)
  {
    PayloadOf(rs, t);
    CallsBack(t, rid, sends, tail);
  }

  /** Only the first slot of an id is ever used. */
  predicate First(ids: seq<int>, i: nat)
    requires i < |ids|
  {
    forall j :: 0 <= j < i ==> ids[j] != ids[i]
  }

  ghost function Due(ids: seq<int>, i: nat, rs: seq<Record>): Bytes
    requires i < |ids|
  {
    if First(ids, i) then Payload(rs, ids[i]) else []
  }

  ghost predicate Over(ids: seq<int>, i: nat, rs: seq<Record>)
    requires i < |ids|
  {
    First(ids, i) && Ended(rs, ids[i])
  }

  lemma DueApp(ids: seq<int>, i: nat, a: seq<Record>, b: seq<Record>)
    requires i < |ids|
    ensures Due(ids, i, a + b) == Due(ids, i, a) + if Over(ids, i, a) then [] else Due(ids, i, b)
  {
    PayloadApp(a, b, ids[i]);
  }

  lemma DueSnoc(ids: seq<int>, i: nat, a: seq<Record>, r: Record)
    requires i < |ids|
    ensures Due(ids, i, a + [r]) == Due(ids, i, a) + if First(ids, i) && r.rtype == ids[i]
      && !Over(ids, i, a) then r.data else []
    ensures Over(ids, i, a + [r]) <==> Over(ids, i, a) || (First(ids, i) && r.rtype == ids[i] && r.data == [])
  {
    EndedSnoc(a, r, ids[i]);
    DueApp(ids, i, a, [r]);
    Unit(r.data);
    assert Payload([r], ids[i]) == if r.rtype == ids[i] then r.data else [];
  }

  /** One stream and its slot after the records rs, having started with `was`
      written and room for `room`. */
  ghost predicate Fed(ch: Ch, s: OutFile, ids: seq<int>, i: nat, rs: seq<Record>, was: Bytes, room: nat)
    requires i < |ids|
    reads s
  {
    && ch == Ch(if Over(ids, i, rs) then null else s, ids[i])
    && s.open == !Over(ids, i, rs)
    && s.written == was + Due(ids, i, rs) && s.room == room - |Due(ids, i, rs)|
  }

  ghost predicate AllFed(outs: array<Ch>, ss: seq<OutFile>, ids: seq<int>, rs: seq<Record>, was: seq<Bytes>,
    rooms: seq<nat>)
    reads outs, ss
  {
    && |ss| == |ids| == |was| == |rooms| == outs.Length
    && forall i :: 0 <= i < |ss| ==> Fed(outs[i], ss[i], ids, i, rs, was[i], rooms[i])
  }

  ghost predicate Apart(ss: seq<OutFile>) {
    forall i, j :: 0 <= i < j < |ss| ==> ss[i] != ss[j]
  }

  /** Too much for stream i, which has taken what it could. */
  ghost predicate Stuck(s: OutFile, ids: seq<int>, i: nat, rs: seq<Record>, was: Bytes, room: nat)
    requires i < |ids|
    reads s
  {
    s.written <= was + Due(ids, i, rs) && |Due(ids, i, rs)| > room
  }

  /** Delivery has stopped because stream `at` took no more. */
  ghost predicate Stopped(outs: array<Ch>, ss: seq<OutFile>, ids: seq<int>, rs: seq<Record>, was: seq<Bytes>,
    rooms: seq<nat>, at: nat)
    reads outs, ss
  {
    && |ss| == |ids| == |was| == |rooms| == outs.Length
    && at < |ss| && outs[at].s == ss[at] && Stuck(ss[at], ids, at, rs, was[at], rooms[at])
    && forall i :: 0 <= i < |ss| && i != at ==> Fed(outs[i], ss[i], ids, i, rs, was[i], rooms[i])
  }

  /** The slot a record goes to, or one past the last. */
  method Slot(outs: array<Ch>, rtype: int) returns (i: nat)
    ensures i <= outs.Length && (i < outs.Length ==> outs[i].id == rtype)
    ensures forall j :: 0 <= j < i ==> outs[j].id != rtype
  {
    i := 0;
    while i < outs.Length
      invariant i <= outs.Length && forall j :: 0 <= j < i ==> outs[j].id != rtype
    {
      if outs[i].id == rtype {
        break;
      }
      i := i + 1;
    }
  }

  /** Only slot k changes with r, if it is the first with r's type. */
  lemma OneSlot(ids: seq<int>, rs: seq<Record>, r: Record, k: nat)
    requires k <= |ids| && (k < |ids| ==> ids[k] == r.rtype) && forall j :: 0 <= j < k ==> ids[j] != r.rtype
    ensures forall i :: 0 <= i < |ids| && i != k ==>
      Due(ids, i, rs + [r]) == Due(ids, i, rs) && (Over(ids, i, rs + [r]) <==> Over(ids, i, rs))
    ensures k < |ids| ==>
      && Due(ids, k, rs + [r]) == Due(ids, k, rs) + (if Over(ids, k, rs) then [] else r.data)
      && (Over(ids, k, rs + [r]) <==> Over(ids, k, rs) || r.data == [])
  {
    hide Due, Over;
    forall i | 0 <= i < |ids|
      ensures i != k ==> Due(ids, i, rs + [r]) == Due(ids, i, rs) && (Over(ids, i, rs + [r]) <==> Over(ids, i, rs))
    {
      DueSnoc(ids, i, rs, r);
      Unit(Due(ids, i, rs));
    }
    if k < |ids| {
      DueSnoc(ids, k, rs, r);
    }
  }

  /** One record to the first slot with its type as id. */
  method Deliver(outs: array<Ch>, r: Record, ghost ss: seq<OutFile>, ghost ids: seq<int>, ghost rs: seq<Record>,
                 ghost was: seq<Bytes>, ghost rooms: seq<nat>) returns (ok: bool, ghost at: nat)
    requires AllFed(outs, ss, ids, rs, was, rooms) && Apart(ss)
    modifies outs, ss
    ensures ok ==> AllFed(outs, ss, ids, rs + [r], was, rooms)
    ensures !ok ==> Stopped(outs, ss, ids, rs + [r], was, rooms, at)
  {
    hide Due, Over;
    var i := Slot(outs, r.rtype);
    at := i;
    ok := true;
    assert forall j :: 0 <= j < |ids| ==> outs[j].id == ids[j];
    OneSlot(ids, rs, r, i);
    if i < outs.Length && outs[i].s != null {
      if r.data == [] {
        outs[i].s.FClose();
        outs[i] := Ch(null, outs[i].id);
        Unit(Due(ids, i, rs));
      } else {
        Assoc(was[i], Due(ids, i, rs), r.data);
        var n := outs[i].s.FWrite(r.data);
        ok := n == |r.data|;
        assert r.data[..|r.data|] == r.data;
        Assoc(was[i], Due(ids, i, rs), r.data[..n]);
      }
    } else if i < outs.Length {
      Unit(Due(ids, i, rs));
    }
  }

  lemma MineSnoc(rs: seq<Record>, s: Bytes)
    ensures var p := Parse(s);
      rs + Mine(ParseAll(s)) == if p.Good? && p.r.rid == 1 then (rs + [p.r]) + Mine(ParseAll(p.rest)) else rs
  {
    var p := Parse(s);
    if p.Good? {
      assert ParseAll(s)[1..] == ParseAll(p.rest);
      Assoc(rs, [p.r], Mine(ParseAll(p.rest)));
    }
    Unit(rs);
  }

  /** The records up to an error, the end of the input, or another request's. */
  method Relay(sk: InFile, outs: array<Ch>, ghost ss: seq<OutFile>, ghost ids: seq<int>,
               ghost was: seq<Bytes>, ghost rooms: seq<nat>) returns (ghost ok: bool, ghost at: nat,
                 ghost rs: seq<Record>)
    requires AllFed(outs, ss, ids, [], was, rooms) && Apart(ss)
    modifies sk, outs, ss
    ensures rs <= Mine(ParseAll(old(sk.pending)))
    ensures ok ==> rs == Mine(ParseAll(old(sk.pending))) && AllFed(outs, ss, ids, rs, was, rooms)
    ensures !ok ==> Stopped(outs, ss, ids, rs, was, rooms, at)
  {
    hide AllFed, Stopped, Parse, ParseAll, Mine;
    ghost var all := Mine(ParseAll(sk.pending));
    rs, ok, at := [], true, 0;
    while true
      invariant AllFed(outs, ss, ids, rs, was, rooms)
      invariant ok && rs + Mine(ParseAll(sk.pending)) == all
      decreases |sk.pending|
    {
      MineSnoc(rs, sk.pending);
      var ret, rtype, rid, data := RecvRec(sk);
      if ret != 0 {
        return;
      }
      if rid != 1 {
        return;
      }
      var r := Record(rtype, rid, data);
      var went;
      went, at := Deliver(outs, r, ss, ids, rs, was, rooms);
      rs := rs + [r];
      if !went {
        ok := false;
        return;
      }
    }
  }

  lemma DueNone(ids: seq<int>)
    ensures forall i :: 0 <= i < |ids| ==> Due(ids, i, []) == [] && !Over(ids, i, [])
  {
  }

  lemma DueGrows(ids: seq<int>, i: nat, rs: seq<Record>, all: seq<Record>, was: Bytes)
    requires i < |ids| && rs <= all
    ensures Due(ids, i, rs) <= Due(ids, i, all)
    ensures was + Due(ids, i, rs) <= was + Due(ids, i, all)
  {
    assert all == rs + all[|rs|..];
    DueApp(ids, i, rs, all[|rs|..]);
  }

  /** `fclose` of every stream that is still open. */
  method CloseAll(outs: array<Ch>, ghost ss: seq<OutFile>)
    requires |ss| == outs.Length && Apart(ss)
    requires forall i :: 0 <= i < |ss| ==> if outs[i].s == null then !ss[i].open else outs[i].s == ss[i]
    modifies ss`open
    ensures forall i :: 0 <= i < |ss| ==> !ss[i].open
  {
    var i := 0;
    while i < outs.Length
      invariant 0 <= i <= outs.Length
      invariant forall j :: 0 <= j < i ==> !ss[j].open
      invariant forall j :: 0 <= j < |ss| ==> if outs[j].s == null then !ss[j].open else outs[j].s == ss[j]
    {
      if outs[i].s != null {
        outs[i].s.FClose();
      }
      i := i + 1;
    }
  }

  /** `outplex`: each stream gets the payloads of its type, up to the first
      empty record, of all the records before an error or another request's;
      if all streams take all of that, they get exactly that. In any case they
      get no more, in order, and all are closed at the end. */
  method Outplex(sk: InFile, outs: array<Ch>, ghost ss: seq<OutFile>, ghost ids: seq<int>)
    requires |ss| == |ids| == outs.Length && Apart(ss)
    requires forall i :: 0 <= i < |ss| ==> outs[i] == Ch(ss[i], ids[i]) && ss[i].open
    modifies sk, outs, ss
    ensures forall i :: 0 <= i < |ss| ==> !ss[i].open
    ensures forall i :: 0 <= i < |ss| ==>
      ss[i].written <= old(ss[i].written) + Due(ids, i, Mine(ParseAll(old(sk.pending))))
    ensures (forall i :: 0 <= i < |ss| ==> |Due(ids, i, Mine(ParseAll(old(sk.pending))))| <= old(ss[i].room)) ==>
      (forall i :: 0 <= i < |ss| ==> ss[i].written == old(ss[i].written) + Due(ids, i, Mine(ParseAll(old(sk.pending)))))
  {
    hide Mine, ParseAll, Payload, Ended;
    ghost var was := seq(|ss|, i requires 0 <= i < |ss| reads ss => ss[i].written);
    ghost var rooms := seq(|ss|, i requires 0 <= i < |ss| reads ss => ss[i].room);
    ghost var all := Mine(ParseAll(sk.pending));
    DueNone(ids);
    ghost var ok, at, rs;
    ok, at, rs := Relay(sk, outs, ss, ids, was, rooms);
    forall i | 0 <= i < |ss| ensures Due(ids, i, rs) <= Due(ids, i, all)
      && was[i] + Due(ids, i, rs) <= was[i] + Due(ids, i, all) {
      DueGrows(ids, i, rs, all, was[i]);
    }
    CloseAll(outs, ss);
  }
}
