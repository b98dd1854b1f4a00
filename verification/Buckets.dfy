// Requesters and their buckets, as src/ratequeue.c keeps them.
module Buckets {

  const WORD: nat := 0x1_0000_0000

  /** A requester: address family and the signed bytes of its address. Two
      sources are the same for `srccmp` exactly when they are equal here. */
  datatype Source = Source(family: int, data: seq<int>) {
    /** The 32-bit hash that `reqsource` stores beside the address. */
    function Hash(): (h: nat)
      ensures h < WORD
    {
      HashFrom(family % WORD, data)
    }
  }

  function HashFrom(h: nat, data: seq<int>): (r: nat)
    requires h < WORD
    ensures r < WORD
    decreases |data|
  {
    if data == [] then h else HashFrom((h * 31 + data[0]) % WORD, data[1..])
  }

  /** A request held back, with the descriptor it answers on. */
  datatype Waiting = Waiting(req: int, fd: int)

  class Bucket {
    const id: Source
    var level: real
    var last: real
    var etime: real
    var wtime: real
    var brim: seq<Waiting>
    var thpos: int
    var blocked: int

    /** As `hashget` makes a bucket. */
    ghost predicate Idle(src: Source, now: real)
      reads this
    {
      && id == src && level == 0.0 && last == etime == now && wtime == 0.0
      && brim == [] && thpos == -1 && blocked == -1
    }

    constructor (id: Source, now: real)
      ensures Idle(id, now)
    {
      this.id := id;
      level, last, etime, wtime := 0.0, now, now, 0.0;
      brim, thpos, blocked := [], -1, -1;
    }
  }
}
