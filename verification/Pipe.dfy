// `struct pipe` of lib/mtio.c over a buffer changed in place. Each method is
// one stretch of code between coroutine switches, and equals a step of
// PipeSteps.
module Pipe {
  import opened Numbers
  import opened Octets
  import opened PipeSteps
  import BufIo

  class CoPipe {
    const data: BufIo.CharBuf
    const bufmax: nat
    var closed1: bool
    var closed2: bool
    var r: Waiter<nat>
    var w: Waiter<Bytes>
    var frees: nat
    ghost var turn: Turn
    ghost var readable: bool
    ghost var writable: bool
    ghost var read: Bytes
    ghost var written: Bytes

    ghost predicate Valid()
      reads this, data
    {
      data.Valid() && bufmax > 0
    }

    ghost function St(): State
      reads this, data, data.b
      requires Valid()
    {
      State(data.Data(), closed1, closed2, r, w, turn, readable, writable, frees, read, written)
    }

    /** `mtiopipe`. */
    constructor ()
      ensures Valid() && St() == INIT && bufmax == 4096 && fresh(data) && fresh(data.b)
    {
      data := new BufIo.CharBuf();
      bufmax := 4096;
      closed1, closed2, r, w, frees := false, false, NoOne, NoOne, 0;
      turn, readable, writable, read, written := Anyone, true, true, [], [];
    }

    /** `piperead` from the test of its loop on. */
    method ReadOrYield(len: nat) returns (out: Out)
      requires Valid() && turn == Anyone
      modifies this, data, data.b
      ensures Valid() && (data.b == old(data.b) || fresh(data.b)) && frees == old(frees)
      ensures (St(), out) == ReadLoop(old(St()), len)
    {
      if data.d == 0 {
        if closed2 {
          return Eof;
        }
        if r.Waiting? {
          return Busy;
        }
        r := Waiting(len);
        return Yields;
      }
      var ret := Min(len, data.d);
      var buf := data.b[..ret];
      assert buf == data.Data()[..ret];
      data.Eat(ret);
      read := read + buf;
      if w.Waiting? {
        turn := Writer;
      }
      out := Got(buf);
    }

    method PipeRead(len: nat) returns (out: Out)
      requires Valid() && Allowed(St(), Read(len))
      modifies this, data, data.b
      ensures Valid() && (data.b == old(data.b) || fresh(data.b))
      ensures (St(), out) == Step(old(St()), Read(len), bufmax)
    {
      out := ReadOrYield(len);
    }

    /** `piperead` after its yield. */
    method ReadResumed() returns (out: Out)
      requires Valid() && Allowed(St(), ReadOn)
      modifies this, data, data.b
      ensures Valid() && (data.b == old(data.b) || fresh(data.b))
      ensures (St(), out) == Step(old(St()), ReadOn, bufmax)
    {
      var len := r.request;
      turn := Anyone;
      r := NoOne;
      out := ReadOrYield(len);
    }

    /** `pipewrite` from the test of its loop on. */
    method WriteOrYield(buf: Bytes) returns (out: Out)
      requires Valid() && turn == Anyone
      modifies this, data, data.b
      ensures Valid() && (data.b == old(data.b) || fresh(data.b)) && frees == old(frees)
      ensures (St(), out) == WriteLoop(old(St()), buf, bufmax)
    {
      if data.d >= bufmax {
        if w.Waiting? {
          return Busy;
        }
        w := Waiting(buf);
        return Yields;
      }
      var ret := Min(|buf|, bufmax - data.d);
      data.SizeBuf(data.d + ret);
      data.Append(buf[..ret]);
      written := written + buf[..ret];
      if r.Waiting? {
        turn := Reader;
      }
      out := Took(ret);
    }

    method PipeWrite(buf: Bytes) returns (out: Out)
      requires Valid() && Allowed(St(), Write(buf))
      modifies this, data, data.b
      ensures Valid() && (data.b == old(data.b) || fresh(data.b))
      ensures (St(), out) == Step(old(St()), Write(buf), bufmax)
    {
      if closed1 {
        return Broken;
      }
      out := WriteOrYield(buf);
    }

    /** `pipewrite` after its yield. */
    method WriteResumed() returns (out: Out)
      requires Valid() && Allowed(St(), WriteOn)
      modifies this, data, data.b
      ensures Valid() && (data.b == old(data.b) || fresh(data.b))
      ensures (St(), out) == Step(old(St()), WriteOn, bufmax)
    {
      var buf := w.request;
      turn := Anyone;
      w := NoOne;
      if closed1 {
        return Broken;
      }
      out := WriteOrYield(buf);
    }

    method PipeRClose() returns (out: Out)
      requires Valid() && Allowed(St(), CloseRead)
      modifies this
      ensures Valid() && (St(), out) == Step(old(St()), CloseRead, bufmax)
    {
      readable := false;
      if closed2 {
        frees := frees + 1;
      } else {
        closed1 := true;
        if w.Waiting? {
          turn := Writer;
        }
      }
      out := Done;
    }

    method PipeWClose() returns (out: Out)
      requires Valid() && Allowed(St(), CloseWrite)
      modifies this
      ensures Valid() && (St(), out) == Step(old(St()), CloseWrite, bufmax)
    {
      writable := false;
      if closed1 {
        frees := frees + 1;
      } else {
        closed2 := true;
        if r.Waiting? {
          turn := Reader;
        }
      }
      out := Done;
    }
  }
}
