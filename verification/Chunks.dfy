// Bodies of src/htparser.c: plain copying with a limit, and the chunked
// transfer coding of section 3.6.1 of RFC 2616.
module Chunks {
  import opened Octets
  import opened Numbers
  import opened Seqs
  import opened BufIo

  const CRLF: Bytes := [13, 10]

  // ----- The coding on byte strings -----

  function Digit(d: nat): Byte
    requires d < 16
  {
    if d < 10 then 48 + d else 97 + d - 10
  }

  /** `%zx`. */
  function Hex(n: nat): (s: Bytes)
    ensures s != []
  {
    if n < 16 then [Digit(n)] else Hex(n / 16) + [Digit(n % 16)]
  }

  /** The value `recvchunks` gives a hexadecimal digit; -1 for anything else. */
  function HexValue(c: int): (v: int)
    ensures -1 <= v < 16 && (v >= 0 ==> c >= 48)
  {
    if 48 <= c <= 57 then c - 48
    else if 65 <= c <= 70 then c + 10 - 65
    else if 97 <= c <= 102 then c + 10 - 97
    else -1
  }

  datatype SizeLine = BadLine | Line(size: nat, rest: Bytes)

  /** A chunk's size line, after digits worth `size`, if any (`digits`). */
  function ReadSize(s: Bytes, size: nat, digits: bool): (l: SizeLine)
    ensures l.Line? ==> |l.rest| < |s|
  {
    if s == [] then BadLine
    else if s[0] == 10 then (if digits then Line(size, s[1..]) else BadLine)
    else if s[0] == 13 then ReadSize(s[1..], size, digits)
    else if HexValue(s[0]) >= 0 then ReadSize(s[1..], size * 16 + HexValue(s[0]), true)
    else BadLine
  }

  datatype Decoded = Bad | Body(data: Bytes, rest: Bytes)

  /** A body that starts with these data. */
  function After(data: Bytes, d: Decoded): Decoded {
    match d
    case Bad => Bad
    case Body(more, rest) => Body(data + more, rest)
  }

  /** The body at the front of s, and what follows its last chunk. */
  function Decode(s: Bytes): Decoded
    decreases |s|
  {
    match ReadSize(s, 0, false)
    case BadLine => Bad
    case Line(n, rest) =>
      if |rest| < n + 2 || rest[n] != 13 || rest[n + 1] != 10 then Bad
      else if n == 0 then Body([], rest[2..])
      else After(rest[..n], Decode(rest[n + 2..]))
  }

  function Chunk(data: Bytes): Bytes {
    Hex(|data|) + CRLF + data + CRLF
  }

  /** What `passchunks` writes for these reads. */
  function Encode(pieces: seq<Bytes>): Bytes {
    if pieces == [] then Hex(0) + CRLF + CRLF else Chunk(pieces[0]) + Encode(pieces[1..])
  }

  lemma {:induction false} ReadHex(n: nat, tail: Bytes, size: nat, digits: bool)
    ensures ReadSize(Hex(n) + tail, size, digits) == ReadSize(tail, Shift(16, size, n), true)
    decreases n
  {
    if n < 16 {
      AppendSplit(Hex(n), tail);
      assert (Hex(n) + tail)[1..] == tail;
    } else {
      var d := [Digit(n % 16)];
      Assoc(Hex(n / 16), d, tail);
      ReadHex(n / 16, d + tail, size, digits);
      assert (d + tail)[1..] == tail;
    }
  }

  /** A printed size line is read back. */
  lemma SizeLineBack(n: nat, tail: Bytes)
    ensures ReadSize(Hex(n) + (CRLF + tail), 0, false) == Line(n, tail)
  {
    var t := CRLF + tail;
    ReadHex(n, t, 0, false);
    ShiftZero(16, n);
    assert t[1..][1..] == tail;
    assert t[0] == 13 && t[1..][0] == 10;
    assert ReadSize(t[1..], n, true) == Line(n, tail);
  }

  /** One chunk decodes to its data, followed by whatever follows it. */
  lemma ChunkBack(p: Bytes, rest: Bytes)
    requires p != []
    ensures Decode(Chunk(p) + rest) == After(p, Decode(rest))
  {
    var s := p + (CRLF + rest);
    assert Chunk(p) + rest == Hex(|p|) + (CRLF + s);
    SizeLineBack(|p|, s);
    AppendSplit(p, CRLF + rest);
    assert s[|p| + 2..] == rest;
    assert s[|p|] == 13 && s[|p| + 1] == 10;
  }

  /** Decoding undoes encoding, whatever the pieces, and leaves what follows. */
  lemma {:induction false} ChunkRoundTrip(pieces: seq<Bytes>, tail: Bytes)
    requires forall i :: 0 <= i < |pieces| ==> pieces[i] != []
    ensures Decode(Encode(pieces) + tail) == Body(Concat(pieces), tail)
  {
    if pieces == [] {
      var s := CRLF + tail;
      assert Encode(pieces) + tail == Hex(0) + (CRLF + s);
      SizeLineBack(0, s);
      assert s[2..] == tail;
    } else {
      hide Decode, Chunk, Hex;
      Assoc(Chunk(pieces[0]), Encode(pieces[1..]), tail);
      ChunkRoundTrip(pieces[1..], tail);
      ChunkBack(pieces[0], Encode(pieces[1..]) + tail);
    }
  }

  // ----- Size lines and bodies as anybody may write them -----

  /** The hexadecimal digits, each at the place of its value. */
  const LOWER: Bytes := [48, 49, 50, 51, 52, 53, 54, 55, 56, 57, 97, 98, 99, 100, 101, 102]
  const UPPER: Bytes := [48, 49, 50, 51, 52, 53, 54, 55, 56, 57, 65, 66, 67, 68, 69, 70]

  /** Digits of these values, with carriage returns anywhere. */
  predicate Spells(line: Bytes, vs: seq<nat>) {
    if line == [] then vs == []
    else if line[0] == 13 then Spells(line[1..], vs)
    else vs != [] && vs[0] < 16 && (line[0] == LOWER[vs[0]] || line[0] == UPPER[vs[0]]) && Spells(line[1..], vs[1..])
  }

  lemma HexLast(d: nat)
    requires d < 16
    ensures Digit(d) == LOWER[d]
  {
  }

  /** A size is printed in lower-case digits without leading zeros. */
  lemma {:induction false} HexPrinted(n: nat) returns (vs: seq<nat>)
    ensures |vs| == |Hex(n)| && Value(16, vs) == n && (vs[0] == 0 ==> vs == [0])
    ensures forall i :: 0 <= i < |vs| ==> vs[i] < 16 && Hex(n)[i] == LOWER[vs[i]]
    decreases n
  {
    if n < 16 {
      vs := [n];
    } else {
      hide Value, Digit;
      HexLast(n % 16);
      vs := HexPrinted(n / 16);
      ValueSnoc(16, vs, n % 16);
      assert vs[0] != 0;
      vs := vs + [n % 16];
    }
  }

  /** What digits stand for comes after what was read before them. */
  lemma {:induction false} SizeRead(line: Bytes, vs: seq<nat>, tail: Bytes, size: nat, digits: bool)
    requires Spells(line, vs)
    ensures ReadSize(line + ([10] + tail), size, digits) ==
      if digits || vs != [] then Line(Onto(16, size, vs), tail) else BadLine
    decreases |line|
  {
    hide Onto;
    OntoNone(16, size);
    var s := line + ([10] + tail);
    if line == [] {
      assert s == [10] + tail && s[1..] == tail;
    } else {
      assert s[1..] == line[1..] + ([10] + tail);
      if line[0] == 13 {
        SizeRead(line[1..], vs, tail, size, digits);
      } else {
        assert HexValue(line[0]) == vs[0];
        SizeRead(line[1..], vs[1..], tail, size * 16 + vs[0], true);
        OntoMore(16, size, vs[0], vs[1..]);
        assert [vs[0]] + vs[1..] == vs;
      }
    }
  }

  /** Upper or lower case, leading zeros or none: a size line is read as what
      its digits stand for. */
  lemma SizeLineValue(line: Bytes, vs: seq<nat>, tail: Bytes)
    requires Spells(line, vs) && vs != []
    ensures ReadSize(line + ([10] + tail), 0, false) == Line(Value(16, vs), tail)
  {
    SizeRead(line, vs, tail, 0, false);
  }

  lemma HexDigit(c: Byte)
    requires HexValue(c) >= 0
    ensures c != 13 && (c == LOWER[HexValue(c)] || c == UPPER[HexValue(c)])
  {
  }

  /** And nothing else is read as one. */
  lemma {:induction false} SizeLineMeans(s: Bytes, size: nat, digits: bool)
    returns (line: Bytes, vs: seq<nat>, rest: Bytes)
    requires ReadSize(s, size, digits).Line?
    ensures Spells(line, vs) && (digits || vs != []) && s == line + ([10] + rest)
    decreases |s|
  {
    hide HexValue;
    assert s == [s[0]] + s[1..];
    if s[0] == 10 {
      line, vs, rest := [], [], s[1..];
    } else if s[0] == 13 {
      line, vs, rest := SizeLineMeans(s[1..], size, digits);
      Assoc([s[0]], line, [10] + rest);
      line := [s[0]] + line;
    } else {
      var v := HexValue(s[0]);
      HexDigit(s[0]);
      line, vs, rest := SizeLineMeans(s[1..], size * 16 + v, true);
      Assoc([s[0]], line, [10] + rest);
      line, vs := [s[0]] + line, [v] + vs;
    }
  }

  /** A chunk: its size line, the values of the digits in it, and its data. */
  datatype Sized = Sized(line: Bytes, vs: seq<nat>, data: Bytes) {
    predicate Valid() {
      vs != [] && Spells(line, vs) && |data| == Value(16, vs)
    }

    function OnWire(): Bytes {
      line + ([10] + (data + CRLF))
    }
  }

  /** Chunks with data in them, and then one without. */
  ghost predicate WholeBody(cs: seq<Sized>) {
    && cs != [] && (forall i :: 0 <= i < |cs| ==> cs[i].Valid())
    && forall i :: 0 <= i < |cs| ==> (cs[i].data == [] <==> i == |cs| - 1)
  }

  function AllOnWire(cs: seq<Sized>): Bytes {
    if cs == [] then [] else cs[0].OnWire() + AllOnWire(cs[1..])
  }

  function AllData(cs: seq<Sized>): Bytes {
    if cs == [] then [] else cs[0].data + AllData(cs[1..])
  }

  lemma SizedBack(c: Sized, tail: Bytes)
    requires c.Valid()
    ensures Decode(c.OnWire() + tail) == if c.data == [] then Body([], tail) else After(c.data, Decode(tail))
  {
    var rest := c.data + (CRLF + tail);
    assert c.OnWire() + tail == c.line + ([10] + rest);
    SizeLineValue(c.line, c.vs, rest);
    AppendSplit(c.data, CRLF + tail);
    assert rest[|c.data| + 2..] == tail;
    assert rest[|c.data|] == 13 && rest[|c.data| + 1] == 10;
  }

  /** A body of such chunks decodes to their data, and what follows is left. */
  lemma {:induction false} BodyBack(cs: seq<Sized>, tail: Bytes)
    requires WholeBody(cs)
    ensures Decode(AllOnWire(cs) + tail) == Body(AllData(cs), tail)
    decreases |cs|
  {
    hide Decode;
    Assoc(cs[0].OnWire(), AllOnWire(cs[1..]), tail);
    SizedBack(cs[0], AllOnWire(cs[1..]) + tail);
    if |cs| == 1 {
      assert cs[1..] == [];
      Unit(tail);
    } else {
      BodyBack(cs[1..], tail);
    }
  }

  lemma Ended(s: Bytes)
    requires Decode(s).Body?
    ensures var l := ReadSize(s, 0, false);
      l.Line? && |l.rest| >= l.size + 2 && l.rest == l.rest[..l.size] + (CRLF + l.rest[l.size + 2..])
  {
  }

  /** What decodes begins with such a chunk. */
  lemma SizedMeans(s: Bytes) returns (c: Sized, after: Bytes)
    requires Decode(s).Body?
    ensures c.Valid() && s == c.OnWire() + after && |after| < |s|
    ensures Decode(s) == if c.data == [] then Body([], after) else After(c.data, Decode(after))
  {
    hide Spells, Value, Decode, ReadSize;
    Ended(s);
    var line, vs, rest := SizeLineMeans(s, 0, false);
    SizeLineValue(line, vs, rest);
    var n := Value(16, vs);
    after := rest[n + 2..];
    c := Sized(line, vs, rest[..n]);
    Assoc([10], c.data + CRLF, after);
    Assoc(c.data, CRLF, after);
    Assoc(line, [10] + (c.data + CRLF), after);
    SizedBack(c, after);
  }

  /** And nothing else decodes to anything. */
  lemma {:induction false} BodyMeans(s: Bytes) returns (cs: seq<Sized>)
    requires Decode(s).Body?
    ensures WholeBody(cs) && s == AllOnWire(cs) + Decode(s).rest && Decode(s).data == AllData(cs)
    decreases |s|
  {
    hide Decode, Sized.Valid;
    var c, after := SizedMeans(s);
    if c.data == [] {
      cs := [c];
      assert cs[1..] == [];
      Unit(c.OnWire());
    } else {
      cs := BodyMeans(after);
      Assoc(c.OnWire(), AllOnWire(cs), Decode(after).rest);
      ghost var more := cs;
      cs := [c] + cs;
      assert cs[1..] == more;
    }
  }

  /** The chunks of some pieces, without the last one. */
  function Chunks(pieces: seq<Bytes>): Bytes {
    if pieces == [] then [] else Chunk(pieces[0]) + Chunks(pieces[1..])
  }

  lemma {:induction false} EncodeChunks(pieces: seq<Bytes>)
    ensures Encode(pieces) == Chunks(pieces) + Encode([])
  {
    if pieces != [] {
      EncodeChunks(pieces[1..]);
      Assoc(Chunk(pieces[0]), Chunks(pieces[1..]), Encode([]));
    }
  }

  lemma {:induction false} ChunksSnoc(pieces: seq<Bytes>, p: Bytes)
    ensures Chunks(pieces + [p]) == Chunks(pieces) + Chunk(p)
    ensures Concat(pieces + [p]) == Concat(pieces) + p
  {
    if pieces == [] {
      assert pieces + [p] == [p];
    } else {
      assert (pieces + [p])[1..] == pieces[1..] + [p];
      ChunksSnoc(pieces[1..], p);
      Assoc(Chunk(pieces[0]), Chunks(pieces[1..]), Chunk(p));
      Assoc(pieces[0], Concat(pieces[1..]), p);
    }
  }

  // ----- Between two streams -----

  /** How much is left to move, bounding the turns of the copying loops. */
  ghost function Work(input: Bufio, output: Bufio): nat
    reads input, input.rbuf, input.rbuf.b, input.src, output, output.wbuf
    requires input.rbuf.Valid() && input.rh <= input.rbuf.d && output.wh <= output.wbuf.d
  {
    2 * |input.Unread()| + (if input.src == null then 0 else |input.src.pending|) + output.BioWData()
  }

  /** Some of the next n buffered bytes through `biowritesome`. */
  method Forward(input: Bufio, output: Bufio, n: nat) returns (ret: int, ghost moved: Bytes)
    requires input.Valid() && output.Valid() && Separate(output, input) && output.dst != null
    requires 0 < n <= input.BioRData()
    modifies output`wh, output`err, output.wbuf, output.wbuf.b, output.dst, input`rh
    ensures input.Valid() && output.Valid() && Separate(output, input)
    ensures output.wbuf.b == old(output.wbuf.b) || fresh(output.wbuf.b)
    ensures ret <= n && |moved| == if ret < 0 then 0 else ret
    ensures old(input.Unread()) == moved + input.Unread() && output.Accepted() == old(output.Accepted()) + moved
    ensures if ret < 0 then output.dst.failed else Work(input, output) < old(Work(input, output))
  {
    hide Bufio.Accepted, Bufio.Unread;
    moved := [];
    Unit(input.Unread());
    Unit(output.Accepted());
    var data := input.rbuf.b[input.rh..input.rh + n];
    ghost var all, at := input.rbuf.Data(), input.rh;
    assert data == all[at..at + n];
    ret := output.BioWriteSome(data);
    if ret < 0 {
      return;
    }
    var taken := TakeBeside(input, output, ret);
    moved := taken;
    SliceTake(all, at, n, ret);
  }

  /** `rh += n` once that many bytes have been accepted. */
  method TakeBeside(input: Bufio, output: Bufio, n: nat) returns (taken: Bytes)
    requires input.Valid() && output.Valid() && Separate(output, input) && n <= input.BioRData()
    modifies input`rh
    ensures input.Valid() && output.Valid() && Separate(output, input)
    ensures taken == old(input.rbuf.Data()[input.rh..input.rh + n])
    ensures |taken| == n && taken + input.Unread() == old(input.Unread())
    ensures output.Accepted() == old(output.Accepted()) && Work(input, output) == old(Work(input, output)) - 2 * n
  {
    taken := input.Take(n);
  }

  /** Two streams as the copiers find them. */
  ghost predicate Joined(input: Bufio, output: Bufio)
    reads input, input.rbuf, input.wbuf, input.src, output, output.rbuf, output.wbuf, output.src
  {
    input.Valid() && output.Valid() && Separate(output, input) && output.dst != null
  }

  /** One turn of the copying loops of `passdata` and `recvchunks`: forward
      what is buffered, up to `left` if that is not negative, then read more if
      there is room and need (`filled` is 1 if there was not). */
  method Turn(input: Bufio, output: Bufio, left: int) returns (read: int, filled: int, ghost more: Bytes)
    requires Joined(input, output) && left != 0
    modifies input`rh, input`eof, input`err, input.rbuf, input.rbuf.b, input.src
    modifies output`wh, output`err, output.wbuf, output.wbuf.b, output.dst
    ensures Joined(input, output)
    ensures input.rbuf.b == old(input.rbuf.b) || fresh(input.rbuf.b)
    ensures output.wbuf.b == old(output.wbuf.b) || fresh(output.wbuf.b)
    ensures old(input.Unread()) == more + input.Unread() && output.Accepted() == old(output.Accepted()) + more
    ensures |more| == if read < 0 then 0 else read
    ensures left >= 0 ==> read <= left
    ensures read < 0 ==> output.dst.failed
    ensures filled < 0 ==> input.src != null && input.src.failed
    ensures filled == 0 ==> input.eof && (left >= 0 ==> |input.Unread()| < left - read)
    ensures read >= 0 && filled > 0 ==> Work(input, output) < old(Work(input, output))
    ensures read >= 0 && filled == 0 ==>
      Work(input, output) < old(Work(input, output)) || !old(input.eof) || old(input.BioEof())
    ensures read >= 0 && filled == 0 ==> Work(input, output) <= old(Work(input, output))
  {
    more := [];
    read, filled := 0, 1;
    Unit(input.Unread());
    Unit(output.Accepted());
    if input.BioRData() > 0 {
      read := input.BioRData();
      if left >= 0 {
        read := Min(left, read);
      }
      read, more := Forward(input, output, read);
      if read < 0 {
        return;
      }
    }
    if input.BioRSpace() > 0 && (left < 0 || input.BioRData() < left - read) {
      filled := Fill(input, output);
    }
  }

  /** `biofillsome`, beside another stream. */
  method Fill(input: Bufio, output: Bufio) returns (ret: int)
    requires Joined(input, output)
    modifies input`rh, input`eof, input`err, input.rbuf, input.rbuf.b, input.src
    ensures Joined(input, output)
    ensures input.rbuf.b == old(input.rbuf.b) || fresh(input.rbuf.b)
    ensures input.Unread() == old(input.Unread()) && output.Accepted() == old(output.Accepted())
    ensures ret < 0 ==> input.src != null && input.src.failed
    ensures ret == 0 ==>
      input.eof && |input.Unread()| == old(input.BioRData()) && Work(input, output) <= old(Work(input, output))
    ensures ret > 0 ==> Work(input, output) < old(Work(input, output)) && input.eof == old(input.eof)
    ensures ret >= 0 && input.src != null ==> input.src.failed == old(input.src.failed)
  {
    ret := input.BioFill();
  }

  lemma AtEnd(input: Bufio)
    requires input.Valid() && input.BioEof()
    ensures input.Unread() == []
  {
  }

  /** `passdata`: exactly the bytes it reports go from one stream to the other. */
  method PassData(input: Bufio, output: Bufio, max: int) returns (ret: int, ghost moved: Bytes)
    requires Joined(input, output)
    modifies input`rh, input`eof, input`err, input.rbuf, input.rbuf.b, input.src
    modifies output`wh, output`err, output.wbuf, output.wbuf.b, output.dst
    ensures Joined(input, output)
    ensures old(input.Unread()) == moved + input.Unread() && output.Accepted() == old(output.Accepted()) + moved
    ensures ret == -1 || ret == |moved|
    ensures max >= 0 ==> |moved| <= max
    ensures ret >= 0 && (max < 0 || ret < max) ==> input.Unread() == []
    ensures ret < 0 ==> (input.src != null && input.src.failed) || output.dst.failed
  {
    moved := [];
    ret := 0;
    Unit(input.Unread());
    Unit(output.Accepted());
    while !input.BioEof() && (max < 0 || ret < max)
      invariant Joined(input, output) && ret == |moved| && (max >= 0 ==> ret <= max)
      invariant input.rbuf.b == old(input.rbuf.b) || fresh(input.rbuf.b)
      invariant output.wbuf.b == old(output.wbuf.b) || fresh(output.wbuf.b)
      invariant old(input.Unread()) == moved + input.Unread()
      invariant output.Accepted() == old(output.Accepted()) + moved
      decreases Work(input, output), if input.eof then 0 else 1
    {
      hide Bufio.Accepted, Bufio.Unread, Bufio.BioEof, Work, Separate;
      var read, filled;
      ghost var more;
      read, filled, more := Turn(input, output, if max < 0 then -1 else max - ret);
      Assoc(moved, more, input.Unread());
      Assoc(old(output.Accepted()), moved, more);
      moved := moved + more;
      if read < 0 || filled < 0 {
        return -1, moved;
      }
      ret := ret + read;
    }
  }

  /** `biogetc`, beside another stream. */
  method GetC(input: Bufio, output: Bufio) returns (c: int)
    requires Joined(input, output)
    modifies input`rh, input`eof, input`err, input.rbuf, input.rbuf.b, input.src
    ensures Joined(input, output) && output.Accepted() == old(output.Accepted())
    ensures input.rbuf.b == old(input.rbuf.b) || fresh(input.rbuf.b)
    ensures c >= 0 ==>
      old(input.Unread()) != [] && old(input.Unread())[0] == c && old(input.Unread())[1..] == input.Unread()
    ensures c < 0 ==>
      input.Unread() == old(input.Unread()) && (input.Unread() == [] || (input.src != null && input.src.failed))
  {
    ghost var was := input.Unread();
    c := input.BioGetC();
    assert c >= 0 ==> was[0] == c && was[1..] == input.Unread();
  }

  /** The size line at the front of a stream. */
  method RecvSize(input: Bufio, output: Bufio) returns (ok: bool, size: nat)
    requires Joined(input, output)
    modifies input`rh, input`eof, input`err, input.rbuf, input.rbuf.b, input.src
    ensures Joined(input, output) && output.Accepted() == old(output.Accepted())
    ensures (input.rbuf.b == old(input.rbuf.b) || fresh(input.rbuf.b))
    ensures ok ==> ReadSize(old(input.Unread()), 0, false) == Line(size, input.Unread())
    ensures !ok ==> ReadSize(old(input.Unread()), 0, false) == BadLine || (input.src != null && input.src.failed)
  {
    hide Bufio.Accepted, Bufio.Unread, Separate, HexValue;
    size := 0;
    var r := false;
    while true
      invariant Joined(input, output) && output.Accepted() == old(output.Accepted())
        && (input.rbuf.b == old(input.rbuf.b) || fresh(input.rbuf.b))
      invariant ReadSize(old(input.Unread()), 0, false) == ReadSize(input.Unread(), size, r)
      decreases |input.Unread()|
    {
      ghost var was := input.Unread();
      var c := GetC(input, output);
      assert c >= 0 ==> |input.Unread()| < |was|;
      if c == 10 {
        return r, size;
      } else if c == 13 {
      } else if HexValue(c) >= 0 {
        size, r := size * 16 + HexValue(c), true;
      } else {
        return false, size;
      }
    }
  }

  /** Exactly n bytes from one stream to the other. */
  method RecvData(input: Bufio, output: Bufio, n: nat) returns (ok: bool, ghost moved: Bytes)
    requires Joined(input, output)
    modifies input`rh, input`eof, input`err, input.rbuf, input.rbuf.b, input.src
    modifies output`wh, output`err, output.wbuf, output.wbuf.b, output.dst
    ensures Joined(input, output)
    ensures input.rbuf.b == old(input.rbuf.b) || fresh(input.rbuf.b)
    ensures output.wbuf.b == old(output.wbuf.b) || fresh(output.wbuf.b)
    ensures old(input.Unread()) == moved + input.Unread() && output.Accepted() == old(output.Accepted()) + moved
    ensures ok ==> |moved| == n
    ensures !ok ==> |old(input.Unread())| < n || (input.src != null && input.src.failed) || output.dst.failed
  {
    moved := [];
    Unit(input.Unread());
    Unit(output.Accepted());
    var left: nat := n;
    while left > 0
      invariant Joined(input, output) && |moved| + left == n
      invariant input.rbuf.b == old(input.rbuf.b) || fresh(input.rbuf.b)
      invariant output.wbuf.b == old(output.wbuf.b) || fresh(output.wbuf.b)
      invariant old(input.Unread()) == moved + input.Unread()
      invariant output.Accepted() == old(output.Accepted()) + moved
      decreases Work(input, output), if input.eof then 0 else 1
    {
      hide Bufio.Accepted, Bufio.Unread, Bufio.BioEof, Work, Separate;
      var read, filled;
      ghost var more;
      read, filled, more := Turn(input, output, left);
      Assoc(moved, more, input.Unread());
      Assoc(old(output.Accepted()), moved, more);
      moved := moved + more;
      if read < 0 || filled <= 0 {
        return false, moved;
      }
      left := left - read;
    }
    ok := true;
  }

  predicate Starts(s: Bytes) {
    |s| >= 2 && s[0] == 13 && s[1] == 10
  }

  /** A carriage return and a line feed. */
  method RecvCrLf(input: Bufio, output: Bufio) returns (ok: bool)
    requires Joined(input, output)
    modifies input`rh, input`eof, input`err, input.rbuf, input.rbuf.b, input.src
    ensures Joined(input, output) && output.Accepted() == old(output.Accepted())
    ensures (input.rbuf.b == old(input.rbuf.b) || fresh(input.rbuf.b))
    ensures ok ==> Starts(old(input.Unread())) && old(input.Unread())[2..] == input.Unread()
    ensures !ok ==> !Starts(old(input.Unread())) || (input.src != null && input.src.failed)
  {
    hide Bufio.Accepted, Bufio.Unread, Separate;
    ghost var was := input.Unread();
    var c := GetC(input, output);
    if c != 13 {
      return false;
    }
    c := GetC(input, output);
    assert c >= 0 ==> was[1] == c && was[1..][1..] == was[2..];
    ok := c == 10;
  }

  /** What a size line, its data and the line break after them decode to. */
  lemma DecodeChunk(s: Bytes, size: nat, rest: Bytes, data: Bytes, next: Bytes)
    requires ReadSize(s, 0, false) == Line(size, rest) && rest == data + next && |data| == size > 0
    ensures Decode(s) == if Starts(next) then After(data, Decode(next[2..])) else Bad
  {
    assert rest[..size] == data;
    assert |next| >= 2 ==> rest[size] == next[0] && rest[size + 1] == next[1] && rest[size + 2..] == next[2..];
  }

  lemma DecodeBadLine(s: Bytes)
    ensures ReadSize(s, 0, false) == BadLine ==> Decode(s) == Bad
  {
  }

  lemma DecodeShort(s: Bytes, size: nat, rest: Bytes)
    requires ReadSize(s, 0, false) == Line(size, rest)
    ensures |rest| < size ==> Decode(s) == Bad
    ensures |rest| < |s|
  {
  }

  lemma DecodeLast(s: Bytes, rest: Bytes)
    requires ReadSize(s, 0, false) == Line(0, rest)
    ensures Decode(s) == if Starts(rest) then Body([], rest[2..]) else Bad
  {
  }

  lemma AfterNothing(d: Decoded)
    ensures After([], d) == d
  {
    if d.Body? {
      Unit(d.data);
    }
  }

  lemma Afterwards(data: Bytes, more: Bytes, d: Decoded)
    ensures After(data, After(more, d)) == After(data + more, d)
  {
    if d.Body? {
      Assoc(data, more, d.data);
    }
  }

  /** One chunk; `last` when it is the one of size zero. */
  method RecvChunk(input: Bufio, output: Bufio) returns (ok: bool, last: bool, ghost moved: Bytes)
    requires Joined(input, output)
    modifies input`rh, input`eof, input`err, input.rbuf, input.rbuf.b, input.src
    modifies output`wh, output`err, output.wbuf, output.wbuf.b, output.dst
    ensures Joined(input, output)
    ensures input.rbuf.b == old(input.rbuf.b) || fresh(input.rbuf.b)
    ensures output.wbuf.b == old(output.wbuf.b) || fresh(output.wbuf.b)
    ensures output.Accepted() == old(output.Accepted()) + moved
    ensures ok && last ==> moved == [] && ReadSize(old(input.Unread()), 0, false) == Line(0, input.Unread())
    ensures ok && !last ==>
      Decode(old(input.Unread())) == After(moved, Decode(input.Unread())) && |input.Unread()| < |old(input.Unread())|
    ensures !ok ==> Decode(old(input.Unread())) == Bad || (input.src != null && input.src.failed) || output.dst.failed
  {
    hide Decode, ReadSize, Bufio.Accepted, Bufio.Unread, Separate;
    moved, last := [], false;
    ghost var s := input.Unread();
    Unit(output.Accepted());
    DecodeBadLine(s);
    var size;
    ok, size := RecvSize(input, output);
    ghost var rest := input.Unread();
    if !ok {
      return;
    }
    if size == 0 {
      last := true;
      return;
    }
    DecodeShort(s, size, rest);
    ok, moved := RecvData(input, output, size);
    if !ok {
      return;
    }
    ghost var next := input.Unread();
    DecodeChunk(s, size, rest, moved, next);
    ok := RecvCrLf(input, output);
  }

  /** `recvchunks`: the decoded body is passed on and what follows it stays
      unread; it fails only for a malformed body or a failing device. */
  method RecvChunks(input: Bufio, output: Bufio) returns (ret: int, ghost moved: Bytes)
    requires Joined(input, output)
    modifies input`rh, input`eof, input`err, input.rbuf, input.rbuf.b, input.src
    modifies output`wh, output`err, output.wbuf, output.wbuf.b, output.dst
    ensures Joined(input, output)
    ensures ret == 0 || ret == -1
    ensures output.Accepted() == old(output.Accepted()) + moved
    ensures ret == 0 ==> Decode(old(input.Unread())) == Body(moved, input.Unread())
    ensures ret == -1 ==>
      Decode(old(input.Unread())) == Bad || (input.src != null && input.src.failed) || output.dst.failed
  {
    moved := [];
    Unit(output.Accepted());
    ghost var all := input.Unread();
    AfterNothing(Decode(all));
    while true
      invariant Joined(input, output)
      invariant input.rbuf.b == old(input.rbuf.b) || fresh(input.rbuf.b)
      invariant output.wbuf.b == old(output.wbuf.b) || fresh(output.wbuf.b)
      invariant output.Accepted() == old(output.Accepted()) + moved
      invariant Decode(all) == After(moved, Decode(input.Unread()))
      decreases |input.Unread()|
    {
      hide Decode, ReadSize, Bufio.Accepted, Bufio.Unread, Separate;
      ghost var s := input.Unread();
      var ok, last;
      ghost var more;
      ok, last, more := RecvChunk(input, output);
      ghost var rest := input.Unread();
      Assoc(old(output.Accepted()), moved, more);
      Afterwards(moved, more, Decode(rest));
      Unit(moved);
      ghost var before := moved;
      moved := moved + more;
      if !ok {
        return -1, moved;
      }
      if last {
        DecodeLast(s, rest);
        ok := RecvCrLf(input, output);
        return if ok then 0 else -1, moved;
      }
    }
  }

  /** `bioprintf` with its result ignored, beside another stream. */
  method Print(input: Bufio, output: Bufio, text: Bytes, flen: nat)
    requires Joined(input, output) && text != []
    modifies output`wh, output`err, output.wbuf, output.wbuf.b, output.dst
    ensures Joined(input, output)
    ensures output.wbuf.b == old(output.wbuf.b) || fresh(output.wbuf.b)
    ensures input.Unread() == old(input.Unread()) && input.BioRData() == old(input.BioRData())
    ensures !output.dst.failed ==> output.Accepted() == old(output.Accepted()) + text
    ensures old(output.dst.failed) ==> output.dst.failed
  {
    var r := output.BioPrintf(text, flen);
  }

  /** `bioflush`, beside another stream. */
  method Flush(input: Bufio, output: Bufio) returns (ret: int)
    requires Joined(input, output)
    modifies output`wh, output`err, output.dst
    ensures Joined(input, output)
    ensures ret == 0 || ret == -1
    ensures input.Unread() == old(input.Unread()) && output.Accepted() == old(output.Accepted())
    ensures if ret == 0 then output.BioWData() == 0 && output.dst.failed == old(output.dst.failed)
      else output.dst.failed
  {
    ret := output.BioFlush();
  }

  /** Everything buffered through `biowrite`. */
  method WriteBuffered(input: Bufio, output: Bufio) returns (ret: int, ghost piece: Bytes)
    requires Joined(input, output) && input.BioRData() > 0
    modifies input`rh, output`wh, output`err, output.wbuf, output.wbuf.b, output.dst
    ensures Joined(input, output)
    ensures output.wbuf.b == old(output.wbuf.b) || fresh(output.wbuf.b)
    ensures ret == 0 || ret == -1
    ensures ret == -1 ==> output.dst.failed && piece == []
    ensures old(input.Unread()) == piece + input.Unread()
    ensures ret == 0 ==> |piece| == old(input.BioRData()) && output.Accepted() == old(output.Accepted()) + piece
    ensures old(output.dst.failed) ==> output.dst.failed
  {
    piece := [];
    hide Bufio.Accepted;
    Unit(input.Unread());
    var read := input.BioRData();
    var data := input.rbuf.b[input.rh..input.rh + read];
    assert data == input.rbuf.Data()[input.rh..input.rh + read];
    var r := output.BioWrite(data);
    assert data[..|data|] == data;
    if r != read {
      return -1, [];
    }
    var taken := input.Take(read);
    return 0, taken;
  }

  /** One chunk of `passchunks`: everything buffered, printed as a chunk. The
      results of the two `bioprintf` calls are not looked at, so the text is
      what it should be only if the device does not fail. */
  method PassChunk(input: Bufio, output: Bufio) returns (ret: int, ghost piece: Bytes)
    requires Joined(input, output) && input.BioRData() > 0
    modifies input`rh, output`wh, output`err, output.wbuf, output.wbuf.b, output.dst
    ensures Joined(input, output)
    ensures output.wbuf.b == old(output.wbuf.b) || fresh(output.wbuf.b)
    ensures ret == 0 || ret == -1
    ensures ret == -1 ==> output.dst.failed
    ensures old(input.Unread()) == piece + input.Unread() && (ret == 0 ==> piece != [] && output.BioWData() == 0)
    ensures ret == 0 && !output.dst.failed ==> output.Accepted() == old(output.Accepted()) + Chunk(piece)
    ensures old(output.dst.failed) ==> output.dst.failed
  {
    piece := [];
    hide Bufio.Accepted, Bufio.Unread, Separate;
    Unit(input.Unread());
    ghost var was := output.Accepted();
    var read := input.BioRData();
    Print(input, output, Hex(read) + CRLF, 5);
    ret, piece := WriteBuffered(input, output);
    if ret < 0 {
      return;
    }
    Print(input, output, CRLF, 2);
    ret := Flush(input, output);
    Assoc(was, Hex(read) + CRLF, piece);
    Assoc(was, Hex(read) + CRLF + piece, CRLF);
  }

  /** One turn of the loop of `passchunks`. */
  method ChunkTurn(input: Bufio, output: Bufio) returns (ret: int, ghost piece: Bytes)
    requires Joined(input, output) && !input.BioEof()
    modifies input`rh, input`eof, input`err, input.rbuf, input.rbuf.b, input.src
    modifies output`wh, output`err, output.wbuf, output.wbuf.b, output.dst
    ensures Joined(input, output)
    ensures input.rbuf.b == old(input.rbuf.b) || fresh(input.rbuf.b)
    ensures output.wbuf.b == old(output.wbuf.b) || fresh(output.wbuf.b)
    ensures old(input.Unread()) == piece + input.Unread()
    ensures ret == 0 || ret == -1
    ensures ret == -1 ==> (input.src != null && input.src.failed) || output.dst.failed
    ensures ret == 0 && !output.dst.failed ==>
      output.Accepted() == old(output.Accepted()) + if piece == [] then [] else Chunk(piece)
    ensures old(output.dst.failed) ==> output.dst.failed
    ensures ret == 0 ==> (Work(input, output) < old(Work(input, output))
      || (Work(input, output) == old(Work(input, output)) && !old(input.eof) && input.eof))
  {
    piece := [];
    Unit(input.Unread());
    Unit(output.Accepted());
    ret := 0;
    if input.BioRData() > 0 {
      ret, piece := PassChunk(input, output);
      if ret < 0 {
        return;
      }
    }
    if input.BioRSpace() > 0 {
      var r := Fill(input, output);
      if r < 0 {
        return -1, piece;
      }
    }
  }

  /** The loop of `passchunks`. */
  method PassPieces(input: Bufio, output: Bufio) returns (ret: int, ghost pieces: seq<Bytes>)
    requires Joined(input, output)
    modifies input`rh, input`eof, input`err, input.rbuf, input.rbuf.b, input.src
    modifies output`wh, output`err, output.wbuf, output.wbuf.b, output.dst
    ensures Joined(input, output)
    ensures input.rbuf.b == old(input.rbuf.b) || fresh(input.rbuf.b)
    ensures output.wbuf.b == old(output.wbuf.b) || fresh(output.wbuf.b)
    ensures ret == 0 || ret == -1
    ensures ret == -1 ==> (input.src != null && input.src.failed) || output.dst.failed
    ensures forall i :: 0 <= i < |pieces| ==> pieces[i] != []
    ensures old(input.Unread()) == Concat(pieces) + input.Unread() && (ret == 0 ==> input.Unread() == [])
    ensures ret == 0 && !output.dst.failed ==> output.Accepted() == old(output.Accepted()) + Chunks(pieces)
  {
    hide Bufio.Accepted, Bufio.Unread, Bufio.BioEof, Separate, Chunk, Work;
    pieces := [];
    ret := 0;
    Unit(input.Unread());
    Unit(output.Accepted());
    while !input.BioEof()
      invariant Joined(input, output)
      invariant input.rbuf.b == old(input.rbuf.b) || fresh(input.rbuf.b)
      invariant output.wbuf.b == old(output.wbuf.b) || fresh(output.wbuf.b)
      invariant forall i :: 0 <= i < |pieces| ==> pieces[i] != []
      invariant old(input.Unread()) == Concat(pieces) + input.Unread()
      invariant !output.dst.failed ==> output.Accepted() == old(output.Accepted()) + Chunks(pieces)
      invariant ret == 0
      decreases Work(input, output), if input.eof then 0 else 1
    {
      hide Chunks, Concat;
      ghost var piece;
      ret, piece := ChunkTurn(input, output);
      ghost var before := pieces;
      if piece != [] {
        ChunksSnoc(pieces, piece);
        pieces := pieces + [piece];
      }
      Unit(input.Unread());
      Unit(old(output.Accepted()) + Chunks(before));
      Assoc(Concat(before), piece, input.Unread());
      Assoc(old(output.Accepted()), Chunks(before), Chunk(piece));
      if ret < 0 {
        return;
      }
    }
    AtEnd(input);
  }

  /** `passchunks`: unless a device fails, what is accepted for writing is the
      coding of everything there was to read. */
  method PassChunks(input: Bufio, output: Bufio) returns (ret: int, ghost pieces: seq<Bytes>)
    requires Joined(input, output)
    modifies input`rh, input`eof, input`err, input.rbuf, input.rbuf.b, input.src
    modifies output`wh, output`err, output.wbuf, output.wbuf.b, output.dst
    ensures Joined(input, output)
    ensures ret == 0 || ret == -1
    ensures ret == -1 ==> (input.src != null && input.src.failed) || output.dst.failed
    ensures forall i :: 0 <= i < |pieces| ==> pieces[i] != []
    ensures old(input.Unread()) == Concat(pieces) + input.Unread() && (ret == 0 ==> input.Unread() == [])
    ensures ret == 0 && !output.dst.failed ==> output.Accepted() == old(output.Accepted()) + Encode(pieces)
  {
    hide Bufio.Accepted, Bufio.Unread, Separate;
    ret, pieces := PassPieces(input, output);
    if ret < 0 {
      return;
    }
    EncodeChunks(pieces);
    Assoc(old(output.Accepted()), Chunks(pieces), Encode([]));
    hide Chunks, Concat, Encode;
    Print(input, output, Hex(0) + CRLF + CRLF, 5);
  }

  // ----- From one end to the other -----

  /** A stream that reads some bytes, however `plan` cuts them up, beside
      another stream. */
  method Carry(bytes: Bytes, plan: seq<int>, final: Bufio) returns (carrier: Bufio)
    requires final.Valid() && final.dst != null
    ensures fresh(carrier) && fresh(carrier.rbuf) && fresh(carrier.rbuf.b)
    ensures Joined(carrier, final) && final.Accepted() == old(final.Accepted())
    ensures carrier.src != null && fresh(carrier.src) && carrier.Unread() == bytes
  {
    hide Bufio.Accepted;
    var src := new Source(bytes, plan);
    carrier := new Bufio(src, null);
  }

  /** What is sent with `passchunks` and received with `recvchunks` arrives as
      it was, and what follows it stays unread, however the devices cut it up,
      unless one of them fails. */
  method Transfer(input: Bufio, output: Bufio, final: Bufio, tail: Bytes, plan: seq<int>)
    returns (ret: int, carrier: Bufio?)
    requires Joined(input, output) && output.Accepted() == []
    requires Joined(input, final) && Separate(final, output)
    modifies input`rh, input`eof, input`err, input.rbuf, input.rbuf.b, input.src
    modifies output`wh, output`err, output.wbuf, output.wbuf.b, output.dst
    modifies final`wh, final`err, final.wbuf, final.wbuf.b, final.dst
    ensures ret == 0 || ret == -1
    ensures ret == 0 ==> final.Valid() && final.Accepted() == old(final.Accepted()) + old(input.Unread())
    ensures ret == 0 ==> carrier != null && carrier.Valid() && carrier.Unread() == tail
    ensures ret == -1 ==>
      || (input.src != null && input.src.failed) || output.dst.failed || final.dst.failed
      || (carrier != null && carrier.src != null && carrier.src.failed)
  {
    hide Bufio.Accepted, Bufio.Unread, Bufio.Valid, Decode, Encode, Concat, After;
    carrier := null;
    ghost var pieces;
    ret, pieces := SendAll(input, output, final);
    if ret < 0 || output.dst.failed {
      return -1, null;
    }
    ChunkRoundTrip(pieces, tail);
    carrier := Carry(output.dst.written + tail, plan, final);
    ghost var moved;
    ret, moved := RecvChunks(carrier, final);
  }

  /** `passchunks`, flushed, beside a third stream. */
  method SendAll(input: Bufio, output: Bufio, final: Bufio) returns (ret: int, ghost pieces: seq<Bytes>)
    requires Joined(input, output) && output.Accepted() == []
    requires Joined(input, final) && Separate(final, output)
    modifies input`rh, input`eof, input`err, input.rbuf, input.rbuf.b, input.src
    modifies output`wh, output`err, output.wbuf, output.wbuf.b, output.dst
    ensures final.Valid() && final.dst != null && final.Accepted() == old(final.Accepted())
    ensures ret == 0 || ret == -1
    ensures ret == -1 ==> (input.src != null && input.src.failed) || output.dst.failed
    ensures forall i :: 0 <= i < |pieces| ==> pieces[i] != []
    ensures ret == 0 ==> Concat(pieces) == old(input.Unread())
    ensures ret == 0 && !output.dst.failed ==> output.dst.written == Encode(pieces)
  {
    hide Chunks, Concat, Encode;
    ret, pieces := PassChunks(input, output);
    if ret < 0 {
      return;
    }
    Unit(Concat(pieces));
    Unit(Encode(pieces));
    ret := Flush(input, output);
    Unit(output.dst.written);
  }
}
