// The buffered streams of lib/bufio.c over buffers that grow, shrink and
// compact in place, and devices that read and write as much as they like.
module BufIo {
  import opened Numbers
  import opened Octets
  import opened Seqs

  // ----- Devices -----

  /** What a stream reads from. `plan` decides, call by call, how much arrives
      at once; a negative entry is an error. */
  class Source {
    var pending: Bytes
    var plan: seq<int>
    var failed: bool
    var calls: nat    // how often it was read from

    constructor (pending: Bytes, plan: seq<int>)
      ensures this.pending == pending && !failed
    {
      this.pending, this.plan, failed, calls := pending, plan, false, 0;
    }

    method Read(len: nat) returns (ret: int, data: Bytes)
      requires len > 0
      modifies this
      ensures ret < 0 ==> failed && pending == old(pending)
      ensures ret >= 0 ==> failed == old(failed) && |data| == ret <= len && data + pending == old(pending)
      ensures ret == 0 ==> old(pending) == []
      ensures calls == old(calls) + 1
    {
      calls := calls + 1;
      var n := if plan == [] then len else plan[0];
      plan := if plan == [] then [] else plan[1..];
      if n < 0 {
        failed := true;
        return -1, [];
      }
      ret := if n == 0 then 1 else if n > len then len else n;
      ret := if ret > |pending| then |pending| else ret;
      data, pending := pending[..ret], pending[ret..];
    }
  }

  /** What a stream writes to. */
  class Sink {
    var written: Bytes
    var plan: seq<int>
    var failed: bool
    var calls: nat    // how often it was written to

    constructor (plan: seq<int>)
      ensures written == [] && !failed
    {
      this.plan, written, failed, calls := plan, [], false, 0;
    }

    method Write(data: Bytes) returns (ret: int)
      requires data != []
      modifies this
      ensures ret < 0 ==> failed && written == old(written)
      ensures ret >= 0 ==> failed == old(failed) && 0 < ret <= |data| && written == old(written) + data[..ret]
      ensures calls == old(calls) + 1
    {
      calls := calls + 1;
      var n := if plan == [] then |data| else plan[0];
      plan := if plan == [] then [] else plan[1..];
      if n < 0 {
        failed := true;
        return -1;
      }
      ret := if n == 0 then 1 else if n > |data| then |data| else n;
      written := written + data[..ret];
    }
  }

  // ----- Buffers -----

  /** `struct charbuf`: d bytes in use of the allocated b. */
  class CharBuf {
    var b: array<Byte>
    var d: nat

    ghost predicate Valid()
      reads this
    {
      d <= b.Length
    }

    ghost function Data(): Bytes
      reads this, b
      requires Valid()
    {
      b[..d]
    }

    constructor ()
      ensures Valid() && fresh(b) && d == 0 && b.Length == 0
    {
      b := new Byte[0];
      d := 0;
    }

    /** `srealloc` of the allocation to n bytes. */
    method Realloc(n: nat)
      requires Valid() && d <= n
      modifies this`b
      ensures Valid() && fresh(b) && b.Length == n && Data() == old(Data())
    {
      var c := new Byte[n](_ => 0);
      forall i | 0 <= i < d {
        c[i] := b[i];
      }
      b := c;
    }

    /** `_sizebuf`: double the allocation until it is large enough. */
    method SizeBuf(wanted: nat)
      requires Valid()
      modifies this`b
      ensures Valid() && Data() == old(Data())
      ensures wanted <= b.Length && old(b.Length) <= b.Length
      ensures b.Length == old(b.Length) || b.Length == 1 || b.Length < 2 * wanted
      ensures if wanted <= old(b.Length) && old(b.Length) > 0 then b == old(b) else fresh(b)
    {
      var n := b.Length;
      if n == 0 {
        n := 1;
      }
      while n < wanted
        invariant b.Length <= n && 0 < n && (wanted <= b.Length && 0 < b.Length ==> n == b.Length)
        invariant b.Length == 0 ==> 1 <= n
        invariant n == b.Length || n == 1 || n < 2 * wanted
        decreases wanted - n
      {
        n := n * 2;
      }
      if n <= b.Length {
        return;
      }
      Realloc(n);
    }

    /** `memmove` of what follows the first k bytes to the front. */
    method Eat(k: nat)
      requires Valid() && k <= d
      modifies this`d, b
      ensures Valid() && Data() == old(Data())[k..]
    {
      forall i | 0 <= i < d - k {
        b[i] := b[k + i];
      }
      d := d - k;
    }

    /** `memcpy` after the bytes in use. */
    method Append(data: Bytes)
      requires Valid() && d + |data| <= b.Length
      modifies this`d, b
      ensures Valid() && Data() == old(Data()) + data
    {
      forall i | 0 <= i < |data| {
        b[d + i] := data[i];
      }
      d := d + |data|;
    }
  }

  // ----- Streams -----

  /** `struct bufio`; a null device stands for a null operation. */
  class Bufio {
    const rbuf: CharBuf
    const wbuf: CharBuf
    const bufhint: nat
    const src: Source?
    const dst: Sink?
    var rh: nat
    var wh: nat
    var eof: bool
    var err: bool

    ghost predicate Valid()
      reads this, rbuf, wbuf, src
    {
      && bufhint > 0 && rbuf != wbuf && rbuf.b != wbuf.b
      && rbuf.Valid() && wbuf.Valid() && rh <= rbuf.d && wh <= wbuf.d
      && (eof && src != null ==> src.pending == [])
      && (dst == null ==> wbuf.b.Length == 0)
    }

    /** Everything that can still be read: buffered, then not yet read. */
    ghost function Unread(): Bytes
      reads this, rbuf, rbuf.b, src
      requires rbuf.Valid() && rh <= rbuf.d
    {
      rbuf.Data()[rh..] + if src == null then [] else src.pending
    }

    /** Everything accepted for writing: written, then still buffered. */
    ghost function Accepted(): Bytes
      reads this, wbuf, wbuf.b, dst
      requires wbuf.Valid() && wh <= wbuf.d
    {
      (if dst == null then [] else dst.written) + wbuf.Data()[wh..]
    }

    /** `bioopen`. */
    constructor (src: Source?, dst: Sink?)
      ensures Valid() && this.src == src && this.dst == dst && bufhint == 4096
      ensures fresh(rbuf) && fresh(wbuf) && fresh(rbuf.b) && fresh(wbuf.b)
      ensures Unread() == (if src == null then [] else src.pending)
      ensures Accepted() == (if dst == null then [] else dst.written)
      ensures !eof && !err
    {
      rbuf := new CharBuf();
      wbuf := new CharBuf();
      bufhint := 4096;
      this.src, this.dst := src, dst;
      rh, wh, eof, err := 0, 0, false, false;
    }

    function BioRData(): nat
      reads this, rbuf
      requires rh <= rbuf.d
    {
      rbuf.d - rh
    }

    function BioRSpace(): (n: nat)
      reads this, rbuf
      requires rh <= rbuf.d
      ensures n > 0 <==> BioRData() < bufhint
      ensures n > 0 ==> BioRData() + n == bufhint
    {
      if rbuf.d - rh >= bufhint then 0 else bufhint - (rbuf.d - rh)
    }

    predicate BioEof()
      reads this, rbuf
    {
      eof && rh >= rbuf.d
    }

    /** The room-making that opens `biofill`: afterwards there is room, so the
        source is never asked for nothing. */
    method MakeRoom()
      requires Valid()
      modifies this`rh, rbuf, rbuf.b
      ensures Valid() && rbuf.d < rbuf.b.Length && (rbuf.b == old(rbuf.b) || fresh(rbuf.b))
      ensures rbuf.Data()[rh..] == old(rbuf.Data()[rh..])
    {
      if rh == rbuf.d {
        rh, rbuf.d := 0, 0;
      }
      if rbuf.d == rbuf.b.Length {
        if rh > 0 {
          rbuf.Eat(rh);
          rh := 0;
        } else {
          var ns := rbuf.b.Length * 2;
          if ns < bufhint {
            ns := bufhint;
          }
          rbuf.SizeBuf(ns);
        }
      }
      if rbuf.b.Length > bufhint && rbuf.d < bufhint {
        rbuf.Realloc(bufhint);
      }
    }

    /** `biofill`: more bytes into the buffer, none lost or invented. */
    method BioFill() returns (ret: int)
      requires Valid()
      modifies this`rh, this`eof, this`err, rbuf, rbuf.b, src
      ensures Valid() && (rbuf.b == old(rbuf.b) || fresh(rbuf.b))
      ensures Unread() == old(Unread())
      ensures ret < 0 ==> src != null && src.failed && eof == old(eof) && BioRData() == old(BioRData())
      ensures ret == 0 ==> eof && BioRData() == old(BioRData()) && (src != null ==> src.pending == [])
      ensures ret > 0 ==> src != null && ret == BioRData() > old(BioRData()) && eof == old(eof)
      ensures ret >= 0 && src != null ==> src.failed == old(src.failed)
      ensures src != null ==> src.calls <= old(src.calls) + 1
    {
      if src == null {
        eof := true;
        return 0;
      }
      if eof {
        return 0;
      }
      ghost var was := rbuf.Data()[rh..];
      MakeRoom();
      var data;
      ret, data := src.Read(rbuf.b.Length - rbuf.d);
      if ret < 0 {
        err := true;
        return -1;
      } else if ret == 0 {
        eof := true;
        return 0;
      }
      rbuf.Append(data);
      assert rbuf.Data()[rh..] == was + data;
      Assoc(was, data, src.pending);
      ret := rbuf.d - rh;
    }

    /** `biorensure`. */
    method BioREnsure(bytes: nat) returns (ret: int)
      requires Valid()
      modifies this`rh, this`eof, this`err, rbuf, rbuf.b, src
      ensures Valid() && (rbuf.b == old(rbuf.b) || fresh(rbuf.b))
      ensures Unread() == old(Unread())
      ensures ret < 0 ==> src != null && src.failed
      ensures ret == 0 && bytes > 0 ==> eof && |Unread()| < bytes
      ensures ret > 0 ==> ret == BioRData() >= bytes
      ensures src != null && old(BioRData()) >= bytes ==> src.calls == old(src.calls)
    {
      while rbuf.d - rh < bytes
        invariant Valid() && (rbuf.b == old(rbuf.b) || fresh(rbuf.b)) && Unread() == old(Unread())
        invariant src != null && old(BioRData()) >= bytes ==> src.calls == old(src.calls) && BioRData() >= bytes
        decreases if src == null then 0 else |src.pending|
      {
        ret := BioFill();
        if ret <= 0 {
          return;
        }
      }
      ret := rbuf.d - rh;
    }

    /** `biogetc`: one byte, or -1 at the end or on an error. */
    method BioGetC() returns (c: int)
      requires Valid()
      modifies this`rh, this`eof, this`err, rbuf, rbuf.b, src
      ensures Valid() && (rbuf.b == old(rbuf.b) || fresh(rbuf.b))
      ensures c == -1 || 0 <= c < 256
      ensures c >= 0 ==> old(Unread()) == [c] + Unread()
      ensures c == -1 ==> Unread() == old(Unread()) && (Unread() == [] || (src != null && src.failed))
      ensures src != null && old(BioRData()) > 0 ==> src.calls == old(src.calls)
    {
      while rbuf.d <= rh
        invariant Valid() && (rbuf.b == old(rbuf.b) || fresh(rbuf.b)) && Unread() == old(Unread())
        invariant src != null && old(BioRData()) > 0 ==> src.calls == old(src.calls) && BioRData() > 0
        decreases if src == null then 0 else |src.pending|
      {
        var ret := BioFill();
        if ret <= 0 {
          return -1;
        }
      }
      var one := Take(1);
      c := one[0];
      assert one == [c];
    }

    /** Hand out the first n buffered bytes. */
    method Take(n: nat) returns (data: Bytes)
      requires Valid() && n <= BioRData()
      modifies this`rh
      ensures Valid() && data == old(rbuf.Data()[rh..rh + n]) && data + Unread() == old(Unread())
    {
      data := rbuf.b[rh..rh + n];
      assert rbuf.Data()[rh..] == data + rbuf.Data()[rh + n..];
      Assoc(data, rbuf.Data()[rh + n..], if src == null then [] else src.pending);
      rh := rh + n;
    }

    /** `bioreadsome`: up to len bytes from the front. */
    method BioReadSome(len: nat) returns (ret: int, data: Bytes)
      requires Valid()
      modifies this`rh, this`eof, this`err, rbuf, rbuf.b, src
      ensures Valid() && (rbuf.b == old(rbuf.b) || fresh(rbuf.b))
      ensures data + Unread() == old(Unread()) && |data| == if ret < 0 then 0 else ret
      ensures ret <= len && (ret == 0 && len > 0 ==> Unread() == [])
      ensures 0 <= ret < len ==> BioRData() == 0
      ensures old(BioRData()) > 0 ==> ret == Min(len, old(BioRData()))
      ensures src != null ==> src.calls <= old(src.calls) + if old(BioRData()) > 0 then 0 else 1
      ensures ret < 0 ==> src != null && src.failed
    {
      data := [];
      Unit(Unread());
      if rh >= rbuf.d {
        ret := BioFill();
        if ret <= 0 {
          return;
        }
      }
      ret := Min(len, rbuf.d - rh);
      data := Take(ret);
    }

    function BioWData(): nat
      reads this, wbuf
      requires wh <= wbuf.d
    {
      wbuf.d - wh
    }

    /** One write of the pending bytes. */
    method WriteOut() returns (ret: int)
      requires Valid() && dst != null && wh < wbuf.d
      modifies this`wh, this`err, dst
      ensures Valid() && Accepted() == old(Accepted())
      ensures if ret < 0 then wh == old(wh) && dst.failed else wh > old(wh) && dst.failed == old(dst.failed)
      ensures dst.calls == old(dst.calls) + 1
    {
      ghost var pending := wbuf.Data()[wh..];
      ret := dst.Write(wbuf.b[wh..wbuf.d]);
      if ret < 0 {
        err := true;
        return;
      }
      assert pending == pending[..ret] + wbuf.Data()[wh + ret..];
      Assoc(old(dst.written), pending[..ret], wbuf.Data()[wh + ret..]);
      wh := wh + ret;
    }

    /** `bioflush`: everything pending, unless the device fails. */
    method BioFlush() returns (ret: int)
      requires Valid() && (dst == null ==> wh == wbuf.d)
      modifies this`wh, this`err, dst
      ensures Valid() && Accepted() == old(Accepted())
      ensures ret == 0 || ret == -1
      ensures ret == 0 ==> wh == wbuf.d && (dst != null ==> dst.failed == old(dst.failed))
      ensures ret == -1 ==> dst != null && dst.failed
    {
      while wh < wbuf.d
        invariant Valid() && Accepted() == old(Accepted())
        invariant dst == null ==> wh == wbuf.d
        invariant dst != null ==> dst.failed == old(dst.failed)
        decreases wbuf.d - wh
      {
        var r := WriteOut();
        if r < 0 {
          return -1;
        }
      }
      ret := 0;
    }

    /** `bioflushsome`: at most one write. */
    method BioFlushSome() returns (ret: int)
      requires Valid() && dst != null
      modifies this`wh, this`err, dst
      ensures Valid() && Accepted() == old(Accepted())
      ensures ret == 0 ==> old(wh) == wbuf.d && wh == old(wh)
      ensures ret == 1 ==> wh > old(wh)
      ensures ret == -1 ==> wh == old(wh) < wbuf.d && dst.failed
      ensures -1 <= ret <= 1 && (ret >= 0 ==> dst.failed == old(dst.failed))
      ensures dst.calls == old(dst.calls) + if ret == 0 then 0 else 1
    {
      if wh < wbuf.d {
        var r := WriteOut();
        return if r < 0 then -1 else 1;
      }
      ret := 0;
    }

    /** Forget what has been flushed. */
    method Rewind()
      requires Valid() && wh == wbuf.d
      modifies this`wh, wbuf`d
      ensures Valid() && wh == wbuf.d == 0 && Accepted() == old(Accepted())
    {
      wh, wbuf.d := 0, 0;
    }

    /** Another allocation for the empty buffer. */
    method Resize(bytes: nat)
      requires Valid() && wbuf.d == wh == 0 && dst != null
      modifies wbuf`b
      ensures Valid() && (wbuf.b == old(wbuf.b) || fresh(wbuf.b)) && wbuf.b.Length >= bytes
      ensures Accepted() == old(Accepted())
    {
      if wbuf.b.Length > bufhint && bytes <= bufhint {
        wbuf.Realloc(bufhint);
      } else {
        wbuf.SizeBuf(if bytes < bufhint then bufhint else bytes);
      }
    }

    /** `biowensure`: room for so many bytes, or an error. */
    method BioWEnsure(bytes: nat) returns (ret: int)
      requires Valid()
      modifies this`wh, this`err, wbuf, wbuf.b, dst
      ensures Valid() && (wbuf.b == old(wbuf.b) || fresh(wbuf.b))
      ensures Accepted() == old(Accepted())
      ensures ret == 0 || ret == -1
      ensures ret == 0 ==> wbuf.b.Length - wbuf.d >= bytes && (bytes > 0 ==> dst != null)
      ensures ret == 0 && dst != null ==> dst.failed == old(dst.failed)
      ensures ret == -1 ==> dst == null || dst.failed
      ensures dst != null && old(wbuf.b.Length - wbuf.d) >= bytes ==> dst.calls == old(dst.calls)
    {
      if wbuf.b.Length - wbuf.d < bytes {
        if dst == null {
          err := true;
          return -1;
        }
        var r := BioFlush();
        if r < 0 {
          return -1;
        }
        Rewind();
        Resize(bytes);
      }
      ret := 0;
    }

    /** `memcpy` of data behind what is pending. */
    method Put(data: Bytes)
      requires Valid() && data != [] && wbuf.d + |data| <= wbuf.b.Length
      modifies wbuf`d, wbuf.b
      ensures Valid() && wbuf.d == old(wbuf.d) + |data|
      ensures Accepted() == old(Accepted()) + data
    {
      ghost var pending := wbuf.Data()[wh..];
      wbuf.Append(data);
      assert wbuf.Data()[wh..] == pending + data;
      Assoc(if dst == null then [] else dst.written, pending, data);
    }

    /** `biowrite`: exactly the first bytes it reports are accepted. */
    method BioWrite(data: Bytes) returns (ret: int)
      requires Valid()
      modifies this`wh, this`err, wbuf, wbuf.b, dst
      ensures Valid() && (wbuf.b == old(wbuf.b) || fresh(wbuf.b))
      ensures -1 <= ret <= |data|
      ensures Accepted() == old(Accepted()) + if ret < 0 then [] else data[..ret]
      ensures ret < |data| ==> dst == null || dst.failed
      ensures ret == |data| && dst != null ==> dst.failed == old(dst.failed)
    {
      var wb := 0;
      ghost var was := Accepted();
      Unit(was);
      while wb < |data|
        invariant 0 <= wb <= |data| && Valid() && (wbuf.b == old(wbuf.b) || fresh(wbuf.b))
        invariant Accepted() == was + data[..wb]
        invariant dst != null ==> dst.failed == old(dst.failed)
        decreases |data| - wb
      {
        hide Accepted, Valid;
        var r := BioWriteOnce(data[wb..]);
        if r < 0 {
          return if wb > 0 then wb else -1;
        }
        assert data[..wb + r] == data[..wb] + data[wb..][..r];
        Assoc(was, data[..wb], data[wb..][..r]);
        wb := wb + r;
      }
      assert data[..wb] == data;
      return wb;
    }

    /** One turn of the loop in `biowrite`. */
    method BioWriteOnce(data: Bytes) returns (ret: int)
      requires Valid() && data != []
      modifies this`wh, this`err, wbuf, wbuf.b, dst
      ensures Valid() && (wbuf.b == old(wbuf.b) || fresh(wbuf.b))
      ensures ret <= |data| && ret != 0
      ensures if ret < 0 then Accepted() == old(Accepted()) && (dst == null || dst.failed)
        else Accepted() == old(Accepted()) + data[..ret] && (dst != null ==> dst.failed == old(dst.failed))
    {
      ret := BioWEnsure(Min(|data|, bufhint));
      if ret < 0 {
        return;
      }
      if |data| < wbuf.b.Length - wbuf.d {
        Put(data);
        ret := |data|;
        assert data[..ret] == data;
      } else {
        ret := BioFlush();
        if ret < 0 {
          return;
        }
        Rewind();
        ret := Through(data);
      }
    }

    /** A write past the empty buffer. */
    method Through(data: Bytes) returns (ret: int)
      requires Valid() && dst != null && data != [] && wh == wbuf.d
      modifies this`err, dst
      ensures Valid() && ret <= |data|
      ensures if ret < 0 then Accepted() == old(Accepted()) && dst.failed
        else ret > 0 && Accepted() == old(Accepted()) + data[..ret] && dst.failed == old(dst.failed)
    {
      ret := dst.Write(data);
      if ret < 0 {
        err := true;
      }
      assert wbuf.Data()[wh..] == [];
      Unit(dst.written);
      Unit(old(dst.written));
    }

    /** `bioprintf` of a text, whose format has flen characters. */
    method BioPrintf(text: Bytes, flen: nat) returns (ret: int)
      requires Valid() && text != []
      modifies this`wh, this`err, wbuf, wbuf.b, dst
      ensures Valid() && (wbuf.b == old(wbuf.b) || fresh(wbuf.b))
      ensures ret == 0 || ret == -1
      ensures Accepted() == if ret == 0 then old(Accepted()) + text else old(Accepted())
      ensures ret == 0 && dst != null ==> dst.failed == old(dst.failed)
      ensures ret == -1 ==> dst == null || dst.failed
    {
      hide Accepted;
      var r := BioWEnsure(flen);
      if r < 0 {
        return -1;
      }
      while |text| >= wbuf.b.Length - wbuf.d
        invariant Valid() && (wbuf.b == old(wbuf.b) || fresh(wbuf.b))
        invariant Accepted() == old(Accepted()) && (dst != null ==> dst.failed == old(dst.failed))
        decreases |text| - (wbuf.b.Length - wbuf.d)
      {
        r := BioWEnsure(|text| + 1);
        if r < 0 {
          return -1;
        }
      }
      Put(text);
      ret := 0;
    }

    /** The preparation of `biowritesome` and `biocopybuf`: a buffer of at
        least the hinted size, compacted when full. */
    method Ready(reset: bool)
      requires Valid() && dst != null
      modifies this`wh, wbuf, wbuf.b
      ensures Valid() && (wbuf.b == old(wbuf.b) || fresh(wbuf.b))
      ensures Accepted() == old(Accepted()) && BioWData() == old(BioWData())
      ensures BioWData() < bufhint ==> wbuf.d < wbuf.b.Length
    {
      wbuf.SizeBuf(bufhint);
      if reset && wh == wbuf.d {
        Rewind();
      }
      if wbuf.d == wbuf.b.Length {
        if wh > 0 {
          wbuf.Eat(wh);
          wh := 0;
        }
      }
    }

    /** `biowritesome`: buffer what fits, then write once. An error of that
        write is reported exactly when something was pending before; if the
        buffer was empty the bytes just stay in it. */
    method BioWriteSome(data: Bytes) returns (ret: int)
      requires Valid() && dst != null
      modifies this`wh, this`err, wbuf, wbuf.b, dst
      ensures Valid() && (wbuf.b == old(wbuf.b) || fresh(wbuf.b))
      ensures -1 <= ret <= |data|
      ensures Accepted() == old(Accepted()) + if ret < 0 then [] else data[..ret]
      ensures ret < 0 ==> dst.failed && old(BioWData()) > 0
      ensures !old(dst.failed) && dst.failed && old(BioWData()) > 0 ==> ret < 0
      ensures ret >= 0 && data != [] ==> (if dst.failed && old(BioWData()) == 0 then ret > 0 && BioWData() <= ret
        else BioWData() < old(BioWData()) + ret)
      ensures data != [] && old(BioWData()) < bufhint ==> ret != 0
      ensures 0 <= ret < |data| ==> wbuf.d == wbuf.b.Length
      ensures dst.calls <= old(dst.calls) + 1
    {
      Ready(true);
      ret := Min(|data|, wbuf.b.Length - wbuf.d);
      ghost var pend := BioWData();
      Unit(Accepted());
      if ret > 0 {
        Put(data[..ret]);
      }
      var r := BioFlushSome();
      if r < 0 {
        if ret == 0 {
          return -1;
        }
        if ret < wbuf.d - wh {
          Retract(data[..ret], old(Accepted()));
          return -1;
        }
      }
    }

    /** Take back the bytes just put. */
    method Retract(data: Bytes, ghost was: Bytes)
      requires Valid() && |data| < BioWData() && Accepted() == was + data
      modifies wbuf`d
      ensures Valid() && Accepted() == was
    {
      wbuf.d := wbuf.d - |data|;
      assert Accepted() == old(Accepted())[..|was|];
    }
  }

  /** Two streams that share no memory and no device. */
  ghost predicate Separate(a: Bufio, b: Bufio)
    reads a, a.rbuf, a.wbuf, b, b.rbuf, b.wbuf
  {
    && a != b
    && {a.rbuf, a.wbuf} !! {b.rbuf, b.wbuf}
    && {a.rbuf.b, a.wbuf.b} !! {b.rbuf.b, b.wbuf.b}
    && (a.dst == null || a.dst != b.dst) && (a.src == null || a.src != b.src)
  }

  /** `biocopysome`: from one stream's read buffer into another stream. */
  method BioCopySome(dst: Bufio, src: Bufio) returns (ret: int, ghost moved: Bytes)
    requires dst.Valid() && src.Valid() && Separate(dst, src) && dst.dst != null
    modifies dst`wh, dst`err, dst.wbuf, dst.wbuf.b, dst.dst, src`rh
    ensures dst.Valid() && src.Valid() && Separate(dst, src)
    ensures |moved| == if ret < 0 then 0 else ret
    ensures old(src.Unread()) == moved + src.Unread() && dst.Accepted() == old(dst.Accepted()) + moved
    ensures ret < 0 ==> dst.dst.failed
    ensures old(src.BioRData()) > 0 && old(dst.BioWData()) < dst.bufhint ==> ret != 0
    ensures ret >= 0 && src.BioRData() > 0 ==> dst.wbuf.d == dst.wbuf.b.Length
  {
    Unit(src.Unread());
    Unit(dst.Accepted());
    moved := [];
    if src.rh >= src.rbuf.d {
      return 0, [];
    }
    var data := src.rbuf.b[src.rh..src.rbuf.d];
    ret := dst.BioWriteSome(data);
    if ret < 0 {
      return -1, [];
    }
    var taken := src.Take(ret);
    moved := taken;
    assert taken == data[..ret];
  }

  /** `biocopybuf`: from one stream's read buffer into another's write buffer. */
  method BioCopyBuf(dst: Bufio, src: Bufio) returns (ret: nat, ghost moved: Bytes)
    requires dst.Valid() && src.Valid() && Separate(dst, src) && dst.dst != null
    modifies dst`wh, dst.wbuf, dst.wbuf.b, src`rh
    ensures dst.Valid() && src.Valid() && Separate(dst, src)
    ensures |moved| == ret
    ensures old(src.Unread()) == moved + src.Unread() && dst.Accepted() == old(dst.Accepted()) + moved
    ensures old(src.BioRData()) > 0 && old(dst.BioWData()) < dst.bufhint ==> ret > 0
    ensures src.BioRData() > 0 ==> dst.wbuf.d == dst.wbuf.b.Length
  {
    dst.Ready(false);
    ret := Min(src.rbuf.d - src.rh, dst.wbuf.b.Length - dst.wbuf.d);
    var taken := src.Take(ret);
    moved := taken;
    Unit(dst.Accepted());
    hide Bufio.Accepted;
    if ret > 0 {
      dst.Put(taken);
    }
  }
}
