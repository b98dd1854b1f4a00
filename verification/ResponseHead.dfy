// The reader and the printer of response heads in lib/req.c, over buffered
// streams.
module ResponseHead {
  import opened Octets
  import opened Seqs
  import opened BufIo
  import opened HeadText

  /** `struct hthead`, as far as responses use it. */
  class HtHead {
    var ver: Bytes
    var code: int
    var msg: Bytes
    var headers: Fields

    function Value(): Head
      reads this
    {
      Head(ver, code, msg, headers)
    }

    /** `mkresp`. */
    constructor (code: int, msg: Bytes, ver: Bytes)
      ensures Value() == Head(ver, code, msg, [])
    {
      this.ver, this.code, this.msg, headers := ver, code, msg, [];
    }

    /** `headappheader`, which copies its arguments as C strings. */
    method HeadAppHeader(name: Bytes, val: Bytes)
      modifies this`headers
      ensures headers == old(headers) + [(CString(name), CString(val))]
    {
      headers := headers + [(CString(name), CString(val))];
    }
  }

  /** `trim`. */
  method TrimBuf(b: Bytes) returns (t: Bytes)
    ensures t == HeadText.Trim(b)
  {
    t := b;
    while t != [] && IsSpace(t[0])
      invariant TrimLeft(t) == TrimLeft(b)
      decreases |t|
    {
      t := t[1..];
    }
    if t != [] {
      while |t| > 1 && IsSpace(t[|t| - 1])
        invariant t != [] && !IsSpace(t[0]) && TrimRight(t) == TrimRight(TrimLeft(b))
        decreases |t|
      {
        t := t[..|t| - 1];
      }
    }
  }

  /** `biogetc`, in terms of what there is to read. */
  method GetC(input: Bufio) returns (c: int)
    requires input.Valid()
    modifies input`rh, input`eof, input`err, input.rbuf, input.rbuf.b, input.src
    ensures input.Valid() && (input.rbuf.b == old(input.rbuf.b) || fresh(input.rbuf.b))
    ensures c == -1 || 0 <= c < 256
    ensures c >= 0 ==>
      old(input.Unread()) != [] && old(input.Unread())[0] == c && old(input.Unread())[1..] == input.Unread()
    ensures c < 0 ==> input.Unread() == old(input.Unread()) && (input.Unread() == [] || Broken(input))
  {
    ghost var was := input.Unread();
    c := input.BioGetC();
    assert c >= 0 ==> was[0] == c && was[1..] == input.Unread();
  }

  predicate Broken(input: Bufio)
    reads input.src
  {
    input.src != null && input.src.failed
  }

  method ReadVer(input: Bufio) returns (ok: bool, ver: Bytes)
    requires input.Valid()
    modifies input`rh, input`eof, input`err, input.rbuf, input.rbuf.b, input.src
    ensures input.Valid() && (input.rbuf.b == old(input.rbuf.b) || fresh(input.rbuf.b))
    ensures ok ==> VerOf(old(input.Unread()), []) == Done(ver, input.Unread())
    ensures !ok ==> VerOf(old(input.Unread()), []) == Fail || Broken(input)
  {
    hide Bufio.Unread;
    ver := [];
    while true
      invariant input.Valid() && (input.rbuf.b == old(input.rbuf.b) || fresh(input.rbuf.b))
      invariant VerOf(input.Unread(), ver) == VerOf(old(input.Unread()), [])
      decreases |input.Unread()|
    {
      ghost var was := input.Unread();
      var c := GetC(input);
      assert c >= 0 ==> |input.Unread()| < |was|;
      if c == 32 {
        return true, ver;
      } else if c < 32 || c >= 128 {
        return false, ver;
      } else {
        ver := ver + [c];
        if |ver| >= 128 {
          return false, ver;
        }
      }
    }
  }

  method ReadCode(input: Bufio) returns (ok: bool, code: nat)
    requires input.Valid()
    modifies input`rh, input`eof, input`err, input.rbuf, input.rbuf.b, input.src
    ensures input.Valid() && (input.rbuf.b == old(input.rbuf.b) || fresh(input.rbuf.b))
    ensures ok ==> CodeOf(old(input.Unread()), 0) == Done(code, input.Unread())
    ensures !ok ==> CodeOf(old(input.Unread()), 0) == Fail || Broken(input)
  {
    hide Bufio.Unread;
    code := 0;
    while true
      invariant input.Valid() && (input.rbuf.b == old(input.rbuf.b) || fresh(input.rbuf.b))
      invariant CodeOf(input.Unread(), code) == CodeOf(old(input.Unread()), 0)
      decreases |input.Unread()|
    {
      ghost var was := input.Unread();
      var c := GetC(input);
      assert c >= 0 ==> |input.Unread()| < |was|;
      if c == 32 {
        return true, code;
      } else if c < 48 || c > 57 {
        return false, code;
      } else {
        code := code * 10 + (c - 48);
        if code >= 10000 {
          return false, code;
        }
      }
    }
  }

  method ReadMsg(input: Bufio) returns (ok: bool, msg: Bytes)
    requires input.Valid()
    modifies input`rh, input`eof, input`err, input.rbuf, input.rbuf.b, input.src
    ensures input.Valid() && (input.rbuf.b == old(input.rbuf.b) || fresh(input.rbuf.b))
    ensures ok ==> MsgOf(old(input.Unread()), []) == Done(msg, input.Unread())
    ensures !ok ==> MsgOf(old(input.Unread()), []) == Fail || Broken(input)
  {
    hide Bufio.Unread;
    msg := [];
    while true
      invariant input.Valid() && (input.rbuf.b == old(input.rbuf.b) || fresh(input.rbuf.b))
      invariant MsgOf(input.Unread(), msg) == MsgOf(old(input.Unread()), [])
      decreases |input.Unread()|
    {
      ghost var was := input.Unread();
      var c := GetC(input);
      assert c >= 0 ==> |input.Unread()| < |was|;
      if c == 10 {
        return true, msg;
      } else if c == 13 {
      } else if c < 32 {
        return false, msg;
      } else {
        msg := msg + [c];
        if |msg| >= 512 {
          return false, msg;
        }
      }
    }
  }

  /** The machine of `parseheadersb` from one of its states on. */
  ghost function Ahead(state: nat, s: Bytes, n: nat, hs: Fields, name: Bytes, val: Bytes): HeadText.Result<Fields> {
    if state == 0 then Start(s, n, hs)
    else if state == 1 then InName(s, n, hs, name)
    else InValue(s, n, hs, name, val)
  }

  /** `parseheadersb`. */
  method ParseHeadersB(head: HtHead, input: Bufio) returns (ret: int)
    requires input.Valid()
    modifies head`headers, input`rh, input`eof, input`err, input.rbuf, input.rbuf.b, input.src
    ensures input.Valid() && (input.rbuf.b == old(input.rbuf.b) || fresh(input.rbuf.b))
    ensures ret == 0 || ret == -1
    ensures ret == 0 ==> Start(old(input.Unread()), 0, old(head.headers)) == Done(head.headers, input.Unread())
    ensures ret == -1 ==> Start(old(input.Unread()), 0, old(head.headers)) == Fail || Broken(input)
  {
    hide Bufio.Unread, CString, HeadText.Trim;
    ghost var all := Start(input.Unread(), 0, head.headers);
    var name: Bytes, val: Bytes := [], [];
    var state: nat := 0;
    var tsz: nat := 0;
    while true
      invariant input.Valid() && (input.rbuf.b == old(input.rbuf.b) || fresh(input.rbuf.b))
      invariant state <= 2 && (state == 0 ==> name == []) && (state < 2 ==> val == [])
      invariant Ahead(state, input.Unread(), tsz, head.headers, name, val) == all
      decreases |input.Unread()|
    {
      ghost var was := input.Unread();
      var c := GetC(input);
      assert c >= 0 ==> |input.Unread()| < |was|;
      tsz := tsz + 1;
      if tsz >= MAXHEAD || c < 0 {
        return -1;
      }
      if state == 0 {
        if c == 10 {
          return 0;
        } else if c != 13 {
          state := 1;
        }
      }
      assert state == 1 ==> InName(was, tsz - 1, head.headers, name) == all;
      if state == 1 {
        if c == 58 {
          name := TrimBuf(name);
          state := 2;
        } else if c == 13 {
        } else if c == 10 {
          return -1;
        } else {
          name := name + [c];
        }
      } else if state == 2 {
        if c == 13 {
        } else if c == 10 {
          val := TrimBuf(val);
          head.HeadAppHeader(name, val);
          name, val := [], [];
          state := 0;
        } else {
          val := val + [c];
        }
      }
    }
  }

  /** `parseresponseb`: the head at the front of what there is to read, or
      nothing if there is none within the limits. */
  method ParseResponseB(input: Bufio) returns (req: HtHead?)
    requires input.Valid()
    modifies input`rh, input`eof, input`err, input.rbuf, input.rbuf.b, input.src
    ensures input.Valid() && (input.rbuf.b == old(input.rbuf.b) || fresh(input.rbuf.b))
    ensures req != null ==> fresh(req) && Parse(old(input.Unread())) == Done(req.Value(), input.Unread())
    ensures req == null ==> Parse(old(input.Unread())) == Fail || Broken(input)
  {
    hide Bufio.Unread, VerOf, CodeOf, MsgOf, Start;
    var ok, ver := ReadVer(input);
    if !ok {
      return null;
    }
    var code;
    ok, code := ReadCode(input);
    if !ok {
      return null;
    }
    var msg;
    ok, msg := ReadMsg(input);
    if !ok {
      return null;
    }
    req := new HtHead(code, msg, ver);
    var ret := ParseHeadersB(req, input);
    if ret != 0 {
      req := null;
    }
  }

  /** The field lines of `writerespb`. */
  method WriteFields(out: Bufio, resp: HtHead) returns (ret: int)
    requires out.Valid()
    modifies out`wh, out`err, out.wbuf, out.wbuf.b, out.dst
    ensures out.Valid() && (out.wbuf.b == old(out.wbuf.b) || fresh(out.wbuf.b))
    ensures ret == 0 || ret == -1
    ensures ret == 0 ==> out.Accepted() == old(out.Accepted()) + FieldLines(resp.headers)
    ensures ret == -1 ==> out.dst == null || out.dst.failed
  {
    hide Bufio.Accepted;
    var i := 0;
    ghost var was, done: Bytes := out.Accepted(), [];
    Unit(was);
    while i < |resp.headers|
      invariant 0 <= i <= |resp.headers|
      invariant out.Valid() && (out.wbuf.b == old(out.wbuf.b) || fresh(out.wbuf.b))
      invariant out.Accepted() == was + done && done + FieldLines(resp.headers[i..]) == FieldLines(resp.headers)
    {
      var f := resp.headers[i];
      var r := out.BioPrintf(FieldLine(f.0, f.1), 8);
      if r < 0 {
        return -1;
      }
      assert resp.headers[i..][1..] == resp.headers[i + 1..];
      Assoc(was, done, FieldLine(f.0, f.1));
      Assoc(done, FieldLine(f.0, f.1), FieldLines(resp.headers[i + 1..]));
      done := done + FieldLine(f.0, f.1);
      i := i + 1;
    }
    Unit(done);
    ret := 0;
  }

  /** `writerespb`: the printed head, unless the device fails. */
  method WriteRespB(out: Bufio, resp: HtHead) returns (ret: int)
    requires out.Valid()
    modifies out`wh, out`err, out.wbuf, out.wbuf.b, out.dst
    ensures out.Valid() && (out.wbuf.b == old(out.wbuf.b) || fresh(out.wbuf.b))
    ensures ret == 0 || ret == -1
    ensures ret == 0 ==> out.Accepted() == old(out.Accepted()) + Print(resp.Value())
    ensures ret == -1 ==> out.dst == null || out.dst.failed
  {
    hide Bufio.Accepted, FieldLines;
    ghost var h := resp.Value();
    var r := out.BioPrintf(StatusLine(resp.Value()), 10);
    if r < 0 {
      return -1;
    }
    ret := WriteFields(out, resp);
    Assoc(old(out.Accepted()), StatusLine(h), FieldLines(h.headers));
  }
}
