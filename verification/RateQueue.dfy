// The request limiter of src/ratequeue.c: hash table, wake-up heap and leaky
// buckets together, against the reference limiter.
module RateQueue {
  import opened Buckets
  import opened LeakyBucket
  import opened PlainLimiter
  import opened HashTable
  import opened TimeHeap
  import opened Schedule
  import opened Seqs

  ghost function Fields(bk: Bucket): State
    reads bk`level, bk`last, bk`etime, bk`wtime, bk`brim, bk`blocked
  {
    State(bk.level, bk.last, bk.etime, bk.wtime, bk.brim, bk.blocked)
  }

  ghost function Acct(bk: Bucket): Account
    reads bk`level, bk`last, bk`brim
  {
    Account(bk.level, bk.last, bk.brim)
  }

  /** Table and heap hold the same buckets, but for x perhaps not yet in the heap. */
  ghost predicate Linked(live: map<Source, Bucket>, keys: map<Bucket, real>, x: Bucket?) {
    && (forall k :: k in live ==> live[k].id == k && (live[k] != x ==> live[k] in keys))
    && (forall k :: k in live && live[k] == x ==> x.id == k)
    && keys.Keys <= live.Values
  }

  lemma LinkAdd(live: map<Source, Bucket>, keys: map<Bucket, real>, bk: Bucket, tm: real)
    requires Linked(live, keys, bk) && bk.id in live && live[bk.id] == bk
    ensures Linked(live, keys[bk := tm], null)
  {
  }

  lemma LinkNew(live: map<Source, Bucket>, keys: map<Bucket, real>, bk: Bucket)
    requires Linked(live, keys, null) && bk.id !in live
    ensures Linked(live[bk.id := bk], keys, bk) && bk !in keys
  {
    forall o | o in keys ensures o in live[bk.id := bk].Values && o != bk {
      var k :| k in live && live[k] == o;
      assert k in live[bk.id := bk] && live[bk.id := bk][k] == o;
    }
  }

  lemma LinkSome(live: map<Source, Bucket>, keys: map<Bucket, real>, bk: Bucket)
    requires Linked(live, keys, null) && bk.id in live && live[bk.id] == bk
    ensures Linked(live, keys, bk) && bk in keys
  {
  }

  lemma LinkDrop(live: map<Source, Bucket>, keys: map<Bucket, real>, bk: Bucket)
    requires Linked(live, keys, bk) && bk.id in live && live[bk.id] == bk
    ensures Linked(live - {bk.id}, keys - {bk}, null)
  {
    var rest := live - {bk.id};
    forall o | o in keys && o != bk ensures o in rest.Values {
      var k :| k in live && live[k] == o;
      assert k in rest && rest[k] == o;
    }
  }

  function Discards(src: Source, q: seq<Waiting>): (r: seq<Act>)
    ensures |r| == |q| && forall i :: 0 <= i < |q| ==> r[i] == Discard(src, q[i])
  {
    seq(|q|, i requires 0 <= i < |q| => Discard(src, q[i]))
  }

  ghost predicate Monotone(inputs: seq<Input>, from: real) {
    inputs != [] ==> from <= inputs[0].t && Monotone(inputs[1..], inputs[0].t)
  }

  /** What a limiter has seen and done: the account book, the buckets kept,
      the log and the time. */
  datatype Stand = Stand(book: Book, kept: Kept, log: seq<Act>, now: real)

  /** From one stand to another, the events evs took place, as the reference
      limiter and the schedule have it; they come from the inputs `done`. */
  ghost predicate Drove(cf: Config, from: Stand, evs: seq<Event>, done: seq<Input>, to: Stand) {
    && cf.rate > 0.0 && InOrder(evs, from.now) && LastTime(evs, from.now) <= to.now
    && to.book == Run(from.book, evs, cf).0 && to.log == from.log + Run(from.book, evs, cf).1
    && to.kept == Moves(from.kept, evs, cf) && Scheduled(cf, from.kept, from.book, evs, done)
  }

  lemma DroveNone(cf: Config, from: Stand)
    requires cf.rate > 0.0
    ensures Drove(cf, from, [], [], from)
  {
    Unit(from.log);
  }

  lemma DroveIdle(cf: Config, from: Stand, evs: seq<Event>, done: seq<Input>, at: Stand, input: Input)
    requires Drove(cf, from, evs, done, at) && input.Clock? && at.now <= input.t
    requires NoneDue(at.kept, input.t, cf) && AllQuiet(at.book, input.t, cf)
    ensures Drove(cf, from, evs, done + [input], at.(now := input.t))
  {
    hide Run, InOrder, LastTime, Moves, Scheduled, NoneDue, AllQuiet;
    ScheduledIdle(cf, from.kept, from.book, evs, done, input);
  }

  lemma DroveStep(cf: Config, from: Stand, evs: seq<Event>, done: seq<Input>, at: Stand, input: Input, ev: Event)
    requires Drove(cf, from, evs, done, at) && at.now <= input.t == ev.now && Caused(at.kept, ev, input, cf)
    ensures Drove(cf, from, evs + [ev], done + [input],
      Stand(Step(at.book, ev, cf).0, Move(at.kept, ev, cf), at.log + Step(at.book, ev, cf).1, input.t))
  {
    hide Run, Step, InOrder, LastTime, Moves, Move, Scheduled, Caused;
    ScheduledStep(cf, from.kept, from.book, evs, done, ev, input);
    MovesSnoc(from.kept, evs, ev, cf);
    InOrderSnoc(evs, ev, from.now);
    RunSnoc(from.book, evs, ev, cf);
    Assoc(from.log, Run(from.book, evs, cf).1, Step(at.book, ev, cf).1);
  }

  /** The rate bound and conservation, read off the log of such a run. */
  lemma DroveAll(cf: Config, from: Stand, evs: seq<Event>, done: seq<Input>, to: Stand)
    requires cf.Sane() && SoundBook(from.book, from.now, cf) && Drove(cf, from, evs, done, to)
    requires Coupled(from.kept, from.book)
    ensures from.log <= to.log && Arrivals(evs) == Requests(done) && AllFair(from.book, evs, cf)
    ensures var out := to.log[|from.log|..];
      && (forall src :: |Sent(out, src)| as real < cf.size + 1.0 + cf.rate * (to.now - from.now))
      && (forall src :: Sent(out, src) + Queue(to.book, src) == Queue(from.book, src) + Accepted(out, src))
      && (forall src :: Decided(out, src) == Arrived(evs, src))
      && (forall src :: Refused(out, src) + Unreported(from.kept, src)
            == Reported(from.kept, evs, src, cf) + Unreported(to.kept, src))
  {
    hide Run, InOrder, SoundBook, Sent, Accepted, Decided, Queue, LastTime, Moves, Scheduled, Arrivals, Requests;
    hide Coupled, Refused, Reported, Unreported, AllFair;
    AllArrive(cf, from.kept, from.book, evs, done);
    RunFair(from.book, evs, from.now, cf);
    var out := Run(from.book, evs, cf).1;
    AppendSplit(from.log, out);
    forall src ensures |Sent(out, src)| as real < cf.size + 1.0 + cf.rate * (to.now - from.now) {
      RateBound(from.book, evs, from.now, to.now, cf, src);
    }
    forall src
      ensures Sent(out, src) + Queue(to.book, src) == Queue(from.book, src) + Accepted(out, src)
      ensures Decided(out, src) == Arrived(evs, src)
      ensures Refused(out, src) + Unreported(from.kept, src)
        == Reported(from.kept, evs, src, cf) + Unreported(to.kept, src)
    {
      ReportsCount(from.kept, from.book, evs, from.now, src, cf);
      Conserved(from.book, evs, from.now, cf, src);
    }
  }

  lemma SoundSet(book: Book, src: Source, a: Account, t: real, cf: Config)
    requires SoundBook(book, t, cf) && Sound(a, cf) && a.last <= t
    ensures SoundBook(book[src := a], t, cf)
  {
  }

  class Limiter {
    const cf: Config
    const table: Table
    const heap: WakeHeap
    var now: real
    var log: seq<Act>
    ghost var book: Book
    ghost var kept: Kept

    /** A bucket as events leave it, with its key current. */
    ghost predicate Rested(bk: Bucket, key: real)
      reads this`now, bk`level, bk`last, bk`etime, bk`wtime, bk`brim, bk`blocked
    {
      cf.rate > 0.0 && key == Key(Fields(bk), cf) && Fields(bk).Rests(cf) && bk.last <= now
    }

    /** A bucket's account and its fields are on the books. */
    ghost predicate Booked(bk: Bucket)
      reads this`book, this`kept, bk`level, bk`last, bk`etime, bk`wtime, bk`brim, bk`blocked
    {
      && bk.id in book && book[bk.id] == Acct(bk)
      && bk.id in kept && kept[bk.id] == Fields(bk)
    }

    /** Accounts without a bucket are idle, and nothing else is kept. */
    ghost predicate Idles()
      reads this`book, this`kept, table`live
    {
      && kept.Keys <= table.live.Keys
      && forall k :: k in book && k !in table.live ==> book[k].level == 0.0 && book[k].queue == []
    }

    /** Every bucket but x is as events leave it. */
    ghost predicate Others(x: Bucket?)
      reads this`now, heap`keys, table`live, set o | o in table.live.Values && o != x
    {
      forall k :: k in table.live && table.live[k] != x ==>
        table.live[k] in heap.keys && Rested(table.live[k], heap.keys[table.live[k]])
    }

    ghost predicate OthersBooked(x: Bucket?)
      reads this`book, this`kept, table`live, set o | o in table.live.Values && o != x
    {
      forall k :: k in table.live && table.live[k] != x ==> Booked(table.live[k])
    }

    /** Everything is in order, but for the bucket x. */
    ghost predicate ValidBut(x: Bucket?)
      reads this`now, this`book, this`kept, table, table.Repr(), heap, heap.keys.Keys, table.live.Values
    {
      && cf.Sane() && table.Valid() && heap.Valid()
      && Linked(table.live, heap.keys, x) && Idles() && SoundBook(book, now, cf)
      && Others(x) && OthersBooked(x)
    }

    ghost predicate Valid()
      reads this`now, this`book, this`kept, table, table.Repr(), heap, heap.keys.Keys, table.live.Values
    {
      ValidBut(null)
    }

    constructor (cf: Config, t: real)
      requires cf.Sane()
      ensures Valid() && this.cf == cf && now == t && log == [] && book == map[] && kept == map[]
      ensures fresh(table) && fresh(table.Repr()) && fresh(heap) && table.live == map[]
    {
      this.cf := cf;
      table := new Table();
      heap := new WakeHeap();
      now, log, book, kept := t, [], map[], map[];
    }

    /** `tickbucket`: leak, release waiters while there is room, and report. */
    method TickBucket(bk: Bucket)
      requires cf.Sane()
      modifies bk`level, bk`last, bk`etime, bk`wtime, bk`brim, bk`blocked, this`log
      ensures Fields(bk) == Tick(old(Fields(bk)), now, cf)
      ensures log == old(log) + Releases(bk.id, LetGo(old(Acct(bk)), now, cf))
    {
      hide Leak, Released, EmptyAt, LetGo, Releases;
      LetGoFirst(Acct(bk), now, cf);
      Drain(bk);
      Release(bk);
      if bk.blocked > 0 && now - bk.wtime >= cf.warnrate {
        bk.blocked := 0;
        bk.wtime := now;
      }
    }

    /** The leak that opens `tickbucket`. */
    method Drain(bk: Bucket)
      requires cf.Sane()
      modifies bk`level, bk`last, bk`etime
      ensures bk.level == Leak(old(bk.level), now - old(bk.last), cf.rate)
      ensures bk.last == now && bk.etime == EmptyAt(old(Fields(bk)), now, cf)
    {
      var delta := now - bk.last;
      bk.last := now;
      var ll := bk.level;
      bk.level := bk.level - delta * cf.rate;
      if bk.level < 0.0 {
        if ll > 0.0 {
          bk.etime := now + bk.level / cf.rate;
        }
        bk.level := 0.0;
      }
    }

    /** The loop of `tickbucket`. */
    method Release(bk: Bucket)
      modifies bk`level, bk`brim, this`log
      ensures var k := Released(old(bk.level), |old(bk.brim)|, cf.size);
        && bk.level == old(bk.level) + k as real
        && bk.brim == old(bk.brim)[k..]
        && log == old(log) + Releases(bk.id, old(bk.brim)[..k])
    {
      ghost var level, brim, was := bk.level, bk.brim, log;
      ghost var k := 0;
      while |bk.brim| > 0 && bk.level < cf.size
        invariant 0 <= k <= |brim| && bk.brim == brim[k..] && bk.level == level + k as real
        invariant Released(level, |brim|, cf.size) == k + Released(bk.level, |bk.brim|, cf.size)
        invariant log == was + Releases(bk.id, brim[..k])
        decreases |bk.brim|
      {
        log := log + [Act.Release(bk.id, bk.brim[0])];
        bk.brim := bk.brim[1..];
        bk.level := bk.level + 1.0;
        k := k + 1;
        assert Releases(bk.id, brim[..k]) == Releases(bk.id, brim[..k - 1]) + [Act.Release(bk.id, brim[k - 1])];
      }
    }

    /** The time `updbtime` computes for a bucket. */
    method NextWake(bk: Bucket) returns (tm: real)
      requires cf.Sane()
      ensures tm == Key(Fields(bk), cf)
    {
      tm := if bk.level == 0.0 then bk.etime + cf.retain else bk.last + bk.level / cf.rate + cf.retain;
      if bk.blocked > 0 && bk.wtime + cf.warnrate > tm {
        tm := bk.wtime + cf.warnrate;
      }
      if |bk.brim| > 0 && bk.last + (bk.level - cf.size) / cf.rate < tm {
        tm := bk.last + (bk.level - cf.size) / cf.rate;
      }
      if bk.blocked > 0 && bk.wtime + cf.warnrate < tm {
        tm := bk.wtime + cf.warnrate;
      }
    }

    /** `updbtime`: schedule the bucket's next wake-up. */
    method UpdBTime(bk: Bucket)
      requires ValidBut(bk) && bk.id in table.live && table.live[bk.id] == bk
      requires bk.thpos < 0 <==> bk !in heap.keys
      requires Fields(bk).Rests(cf) && bk.last <= now && Booked(bk)
      modifies heap, heap.keys.Keys`thpos, bk`thpos
      ensures Valid()
    {
      hide Table.Valid, WakeHeap.Valid, Key, SoundBook, State.Rests, Idles, Booked;
      var tm := NextWake(bk);
      LinkAdd(table.live, heap.keys, bk, tm);
      if bk.thpos < 0 {
        heap.Push(bk, tm);
      } else {
        heap.ReKey(bk, tm);
      }
      assert table.Repr() == old(table.Repr());
      assert Rested(bk, tm);
    }

    /** A bucket about to be freed is kept no longer. */
    ghost method Forget(bk: Bucket)
      requires ValidBut(bk) && bk.id in table.live && table.live[bk.id] == bk
      modifies this`kept
      ensures ValidBut(bk) && kept == old(kept) - {bk.id}
    {
      hide Table.Valid, WakeHeap.Valid, Key, SoundBook, State.Rests, Others, Rested;
      kept := kept - {bk.id};
      assert table.Repr() == old(table.Repr());
    }

    /** `freebucket`; anyone still waiting would be thrown away. */
    method FreeBucket(bk: Bucket)
      requires ValidBut(bk) && bk.id in table.live && table.live[bk.id] == bk && bk in heap.keys && bk.thpos >= 0
      requires bk.level == 0.0 && bk.brim == [] && Booked(bk)
      modifies table, table.sbuckets, table.buckets, heap, heap.keys.Keys`thpos, this`log, this`kept
      ensures Valid() && log == old(log) && kept == old(kept) - {bk.id}
      ensures table.live == old(table.live) - {bk.id}
      ensures table.buckets == old(table.buckets) || table.buckets == table.sbuckets || fresh(table.buckets)
    {
      hide Table.Valid, WakeHeap.Valid, Key, SoundBook, State.Rests, Rested, Others, OthersBooked, Linked;
      Forget(bk);
      Unhook(bk);
      ghost var repr := table.Repr();
      ThrowAway(bk);
      assert table.Repr() == repr;
    }

    /** Table and heap lose the bucket; the others stay in order. */
    method Unhook(bk: Bucket)
      requires table.Valid() && heap.Valid() && Linked(table.live, heap.keys, bk) && Others(bk) && OthersBooked(bk)
      requires bk.id in table.live && table.live[bk.id] == bk && bk in heap.keys && bk.thpos >= 0
      modifies table, table.sbuckets, table.buckets, heap, heap.keys.Keys`thpos
      ensures table.Valid() && heap.Valid() && Linked(table.live, heap.keys, null) && Others(null) && OthersBooked(null)
      ensures table.live == old(table.live) - {bk.id}
      ensures table.buckets == old(table.buckets) || table.buckets == table.sbuckets || fresh(table.buckets)
    {
      hide Table.Valid, WakeHeap.Valid, Key, Rested, Booked;
      LinkDrop(table.live, heap.keys, bk);
      table.HashDel(bk);
      assert heap.keys.Keys == old(heap.keys.Keys);
      ghost var repr := table.Repr();
      if bk.thpos >= 0 {
        heap.Remove(bk);
      }
      assert table.Repr() == repr;
    }

    /** The loop of `freebucket` over whoever still waits. */
    method ThrowAway(bk: Bucket)
      modifies this`log
      ensures log == old(log) + Discards(bk.id, bk.brim)
    {
      var i := 0;
      ghost var was := log;
      while i < |bk.brim|
        invariant 0 <= i <= |bk.brim| && log == was + Discards(bk.id, bk.brim[..i])
      {
        log := log + [Discard(bk.id, bk.brim[i])];
        assert Discards(bk.id, bk.brim[..i + 1]) == Discards(bk.id, bk.brim[..i]) + [Discard(bk.id, bk.brim[i])];
        i := i + 1;
      }
      assert bk.brim[..i] == bk.brim;
    }

    /** Turn to one bucket, leaving the others in order. */
    lemma Focus(bk: Bucket)
      requires Valid() && bk in heap.keys
      ensures ValidBut(bk) && bk.id in table.live && table.live[bk.id] == bk && bk.thpos >= 0
      ensures Rested(bk, heap.keys[bk]) && Booked(bk) && Fields(bk).Rests(cf) && bk.last <= now
    {
      hide Table.Valid, WakeHeap.Valid, Key, SoundBook, Idles, Booked;
      heap.Placed(bk);
    }

    lemma KeysLive()
      requires Valid()
      ensures heap.keys.Keys <= table.live.Values
    {
    }

    /** Read the clock. */
    method Advance(t: real)
      requires Valid() && now <= t
      modifies this`now
      ensures Valid() && now == t
    {
      hide Table.Valid, WakeHeap.Valid, Key, State.Rests, Idles, Linked;
      now := t;
      assert table.Repr() == old(table.Repr());
    }

    lemma OtherIds(x: Bucket)
      requires Linked(table.live, heap.keys, x)
      ensures forall k :: k in table.live && table.live[k] != x ==> table.live[k].id == k
      ensures x.id in table.live && table.live[x.id] == x ==>
        forall k :: k in table.live && table.live[k] != x ==> k != x.id
    {
    }

    /** Book the current account of the bucket x. */
    ghost method Enter(x: Bucket)
      requires ValidBut(x) && x.id in table.live && table.live[x.id] == x
      requires Sound(Acct(x), cf) && x.last <= now
      modifies this`book, this`kept
      ensures ValidBut(x) && book == old(book)[x.id := Acct(x)] && kept == old(kept)[x.id := Fields(x)]
    {
      hide Table.Valid, WakeHeap.Valid, Key, Sound, Others, Rested, SoundBook, Linked;
      SoundSet(book, x.id, Acct(x), now, cf);
      OtherIds(x);
      book, kept := book[x.id := Acct(x)], kept[x.id := Fields(x)];
      assert table.Repr() == old(table.Repr());
    }

    /** Tick a bucket and book its account; the others stay in order. */
    method TickBooked(bk: Bucket)
      requires ValidBut(bk) && bk.id in table.live && table.live[bk.id] == bk
      requires Fields(bk).Rests(cf) && bk.last <= now
      requires Settle(Acct(bk), now, cf) == Settle(Get(book, bk.id, now), now, cf)
      requires LetGo(Acct(bk), now, cf) == LetGo(Get(book, bk.id, now), now, cf)
      modifies bk`level, bk`last, bk`etime, bk`wtime, bk`brim, bk`blocked, this`log, this`book, this`kept
      ensures ValidBut(bk) && Fields(bk) == Tick(old(Fields(bk)), now, cf)
      ensures Fields(bk).Rests(cf) && bk.last == now
      ensures book == Step(old(book), Wake(now, bk.id), cf).0
      ensures log == old(log) + Step(old(book), Wake(now, bk.id), cf).1
      ensures Booked(bk) && kept == old(kept)[bk.id := Fields(bk)]
    {
      hide Table.Valid, WakeHeap.Valid, LetGo, Releases, Settle, Linked, Tick, Others, OthersBooked, SoundBook, Idles;
      TickSettles(Fields(bk), now, cf);
      TickRests(Fields(bk), now, cf);
      TickBucket(bk);
      assert table.Repr() == old(table.Repr());
      Enter(bk);
    }

    /** `checkbtime`: what a wake-up does to the bucket. */
    method CheckBTime(bk: Bucket)
      requires Valid() && bk in heap.keys
      modifies this`log, this`book, this`kept, table, table.sbuckets, table.buckets, heap, table.live.Values
      ensures Valid()
      ensures book == Step(old(book), Wake(now, bk.id), cf).0
      ensures log == old(log) + Step(old(book), Wake(now, bk.id), cf).1
      ensures kept == Move(old(kept), Wake(now, bk.id), cf)
      ensures table.live == old(table.live) || table.live == old(table.live) - {bk.id}
      ensures table.buckets == old(table.buckets) || table.buckets == table.sbuckets || fresh(table.buckets)
    {
      hide Table.Valid, WakeHeap.Valid, Key, Step, Settle, LetGo, Tick, Others, SoundBook, Idles, Linked, OthersBooked;
      KeysLive();
      Focus(bk);
      TickBooked(bk);
      if bk.level == 0.0 && now >= bk.etime + cf.retain && bk.blocked <= 0 {
        FreeBucket(bk);
      } else {
        UpdBTime(bk);
      }
    }

    /** `hashget` as `serve` uses it: the bucket's account is the source's. */
    method GetBucket(src: Source) returns (bk: Bucket)
      requires Valid()
      modifies table, table.sbuckets, table.buckets
      ensures ValidBut(bk) && src in table.live && table.live[src] == bk && bk.id == src
      ensures bk.thpos < 0 <==> bk !in heap.keys
      ensures Fields(bk).Rests(cf) && bk.last <= now && Fields(bk) == BucketOf(kept, src, now)
      ensures Settle(Acct(bk), now, cf) == Settle(Get(book, src, now), now, cf)
      ensures LetGo(Acct(bk), now, cf) == LetGo(Get(book, src, now), now, cf)
      ensures src in old(table.live) ==> table.live == old(table.live)
      ensures src !in old(table.live) ==> table.live == old(table.live)[src := bk] && fresh(bk)
      ensures table.buckets == old(table.buckets) || table.buckets == table.sbuckets || fresh(table.buckets)
    {
      hide Table.Valid, WakeHeap.Valid, Key, Settle, LetGo, SoundBook, Rested, Booked;
      ghost var live := table.live;
      bk := table.HashGet(src, now);
      assert heap.keys.Keys == old(heap.keys.Keys);
      if src in live {
        LinkSome(live, heap.keys, bk);
        assert Valid();
        Focus(bk);
        BookedMeans(bk);
      } else {
        LinkNew(live, heap.keys, bk);
        NewAccount(src);
      }
    }

    lemma BookedMeans(bk: Bucket)
      requires Booked(bk)
      ensures bk.id in book && book[bk.id] == Acct(bk) && bk.id in kept && kept[bk.id] == Fields(bk)
    {
    }

    lemma NewAccount(src: Source)
      requires cf.Sane() && SoundBook(book, now, cf)
      requires src in book ==> book[src].level == 0.0 && book[src].queue == []
      ensures Settle(Account(0.0, now, []), now, cf) == Settle(Get(book, src, now), now, cf)
      ensures LetGo(Account(0.0, now, []), now, cf) == LetGo(Get(book, src, now), now, cf)
    {
      if src in book {
        IdleSettles(book[src], now, cf);
      }
    }

    /** The decision of `serve` on a ticked bucket. */
    method Rule(bk: Bucket, w: Waiting)
      modifies bk`level, bk`wtime, bk`brim, bk`blocked, this`log
      ensures (Acct(bk), log) ==
        (Admit(old(Acct(bk)), bk.id, w, cf).0, old(log) + [Admit(old(Acct(bk)), bk.id, w, cf).1])
      ensures Fields(bk) == Judged(old(Fields(bk)), w, now, cf)
    {
      if bk.level < cf.size {
        bk.level := bk.level + 1.0;
        log := log + [Pass(bk.id, w)];
      } else if |bk.brim| < cf.brimsize {
        bk.brim := bk.brim + [w];
        log := log + [Hold(bk.id, w)];
      } else {
        if bk.blocked < 0 {
          bk.blocked := 0;
          bk.wtime := now;
        }
        log := log + [Refuse(bk.id, w)];
        bk.blocked := bk.blocked + 1;
      }
    }

    method RuleBooked(bk: Bucket, w: Waiting)
      requires ValidBut(bk) && bk.id in table.live && table.live[bk.id] == bk
      requires Fields(bk).Rests(cf) && bk.last <= now
      modifies bk`level, bk`wtime, bk`brim, bk`blocked, this`log, this`book, this`kept
      ensures ValidBut(bk) && Fields(bk).Rests(cf) && bk.last <= now && Booked(bk)
      ensures Fields(bk) == Judged(old(Fields(bk)), w, now, cf) && kept == old(kept)[bk.id := Fields(bk)]
      ensures Acct(bk) == Admit(old(Acct(bk)), bk.id, w, cf).0
      ensures book == old(book)[bk.id := Acct(bk)]
      ensures log == old(log) + [Admit(old(Acct(bk)), bk.id, w, cf).1]
    {
      hide Table.Valid, WakeHeap.Valid, Linked, SoundBook, Idles, Others, OthersBooked, Judged;
      Rule(bk, w);
      assert table.Repr() == old(table.Repr());
      Enter(bk);
    }

    /** The first half of `serve`: the source's bucket, ticked. */
    method Meet(src: Source, t: real) returns (bk: Bucket)
      requires Valid() && now <= t
      modifies this`now, this`log, this`book, this`kept, table, table.sbuckets, table.buckets, table.live.Values
      ensures ValidBut(bk) && now == t && src in table.live && table.live[src] == bk && bk.id == src
      ensures bk.thpos < 0 <==> bk !in heap.keys
      ensures Fields(bk).Rests(cf) && bk.last <= now && Booked(bk)
      ensures Fields(bk) == Tick(BucketOf(old(kept), src, t), t, cf) && kept == old(kept)[src := Fields(bk)]
      ensures book == old(book)[src := Settle(Get(old(book), src, t), t, cf)]
      ensures log == old(log) + Releases(src, LetGo(Get(old(book), src, t), t, cf))
      ensures src in old(table.live) ==> table.live == old(table.live)
      ensures src !in old(table.live) ==> table.live == old(table.live)[src := bk] && fresh(bk)
      ensures table.buckets == old(table.buckets) || table.buckets == table.sbuckets || fresh(table.buckets)
    {
      hide Table.Valid, WakeHeap.Valid, Settle, LetGo, Releases, Linked, SoundBook, Idles, Others, OthersBooked;
      hide State.Rests, Admit, Tick, Booked, Get;
      Advance(t);
      bk := GetBucket(src);
      TickBooked(bk);
    }

    /** `serve`: pass a request on, hold it, or refuse it. */
    method Serve(src: Source, w: Waiting, t: real)
      requires Valid() && now <= t
      modifies this`now, this`log, this`book, this`kept, table, table.sbuckets, table.buckets, heap, table.live.Values
      ensures Valid() && now == t
      ensures book == Step(old(book), Arrive(t, src, w), cf).0
      ensures log == old(log) + Step(old(book), Arrive(t, src, w), cf).1
      ensures kept == Move(old(kept), Arrive(t, src, w), cf)
      ensures src in table.live
      ensures table.live == old(table.live)
        || (table.live == old(table.live)[src := table.live[src]] && fresh(table.live[src]))
      ensures table.buckets == old(table.buckets) || table.buckets == table.sbuckets || fresh(table.buckets)
    {
      hide Table.Valid, WakeHeap.Valid, Settle, LetGo, Releases, Linked, SoundBook, Idles, Others, OthersBooked;
      hide State.Rests, Admit, Tick, Judged, BucketOf, Get;
      KeysLive();
      var bk := Meet(src, t);
      ghost var a := Get(old(book), src, t);
      RuleBooked(bk, w);
      UpdBTime(bk);
      Assoc(old(log), Releases(src, LetGo(a, t, cf)), [Admit(Settle(a, t, cf), src, w, cf).1]);
      assert book == old(book)[src := Admit(Settle(a, t, cf), src, w, cf).0];
    }

    /** One test of the drain loop in `main`: the root's bucket, if due. */
    method WakeDue(t: real) returns (ghost woken: seq<Event>)
      requires Valid() && now <= t
      modifies this`now, this`log, this`book, this`kept, table, table.sbuckets, table.buckets, heap, table.live.Values
      ensures Valid() && now == t
      ensures woken == if old(heap.b) != [] && t >= old(heap.b[0].tm) then [Wake(t, old(heap.b[0].bk.id))] else []
      ensures woken == [] ==> book == old(book) && log == old(log) && kept == old(kept)
      ensures woken == [] ==> NoneDue(kept, t, cf) && AllQuiet(book, t, cf)
      ensures woken != [] ==>
        book == Step(old(book), woken[0], cf).0 && log == old(log) + Step(old(book), woken[0], cf).1
      ensures woken != [] ==> Due(old(kept), woken[0], t, cf) && kept == Move(old(kept), woken[0], cf)
      ensures table.live.Values <= old(table.live.Values)
      ensures table.buckets == old(table.buckets) || table.buckets == table.sbuckets || fresh(table.buckets)
    {
      hide Table.Valid, WakeHeap.Valid, Linked, SoundBook, Idles, Others, OthersBooked;
      hide Step, Key, Due, NoneDue, AllQuiet, Move;
      KeysLive();
      Advance(t);
      woken := [];
      RootFirst(t);
      if heap.b != [] && t >= heap.b[0].tm {
        heap.RootKept();
        woken := [Wake(t, heap.b[0].bk.id)];
        CheckBTime(heap.b[0].bk);
      } else {
        Quiet();
      }
    }

    /** The root of the heap is the bucket due first, if one is due. */
    lemma RootFirst(t: real)
      requires Valid()
      ensures cf.rate > 0.0
      ensures if heap.b != [] && t >= heap.b[0].tm then Due(kept, Wake(t, heap.b[0].bk.id), t, cf)
        else NoneDue(kept, t, cf)
    {
      hide Table.Valid, WakeHeap.Valid, Key, SoundBook, Linked, State.Rests;
      forall src | src in kept
        ensures heap.b != [] && heap.b[0].tm <= Key(kept[src], cf)
      {
        LiveKey(src);
      }
      if heap.b != [] {
        heap.RootKept();
        Focus(heap.b[0].bk);
        heap.Earliest(heap.b[0].bk);
      }
    }

    lemma LiveKey(src: Source)
      requires Valid() && src in kept
      ensures heap.b != [] && heap.b[0].tm <= Key(kept[src], cf)
    {
      hide Table.Valid, WakeHeap.Valid, Key, SoundBook, State.Rests;
      var bk := table.live[src];
      assert bk in heap.keys && Rested(bk, heap.keys[bk]) && bk.id == src;
      heap.Earliest(bk);
    }

    /** With nothing due, waking anybody at this moment would release nothing. */
    lemma Quiet()
      requires Valid() && (heap.b == [] || now < heap.b[0].tm)
      ensures AllQuiet(book, now, cf)
    {
      forall src ensures Step(book, Wake(now, src), cf).1 == [] {
        QuietFor(src);
      }
    }

    lemma QuietFor(src: Source)
      requires Valid() && (heap.b == [] || now < heap.b[0].tm)
      ensures Step(book, Wake(now, src), cf).1 == []
    {
      hide Table.Valid, WakeHeap.Valid, Key, Settle, Step, Tick, Idles, Rested;
      assert Idles() && SoundBook(book, now, cf);
      if src in table.live {
        QuietLive(table.live[src]);
      } else if src in book {
        IdleAccount(src);
        IdleSettles(book[src], now, cf);
      } else {
        IdleSettles(Account(0.0, now, []), now, cf);
      }
      WakeIdle(book, src, now, cf);
    }

    lemma IdleAccount(src: Source)
      requires Idles() && src in book && src !in table.live
      ensures book[src].level == 0.0 && book[src].queue == []
    {
    }

    lemma QuietLive(bk: Bucket)
      requires Valid() && (heap.b == [] || now < heap.b[0].tm) && bk in heap.keys
      ensures bk.id in book && Settle(book[bk.id], now, cf).queue == book[bk.id].queue
    {
      hide Table.Valid, WakeHeap.Valid, Key, Settle, Tick, Others, Idles, Linked, SoundBook, State.Rests;
      heap.Earliest(bk);
      Focus(bk);
      EarlyIsIdle(Fields(bk), now, cf);
      TickSettles(Fields(bk), now, cf);
    }

    /** The main loop on any requests and clock readings. */
    method Loop(inputs: seq<Input>) returns (ghost evs: seq<Event>)
      requires Valid() && Monotone(inputs, now)
      modifies this`now, this`log, this`book, this`kept, table, table.sbuckets, table.buckets, heap, table.live.Values
      ensures Valid()
      ensures Drove(cf, old(Here()), evs, inputs, Here())
    {
      hide Table.Valid, WakeHeap.Valid, Linked, SoundBook, Idles, Others, Step, Run;
      evs := [];
      ghost var from, live0, buckets0 := Here(), table.live.Values, table.buckets;
      DroveNone(cf, from);
      var i := 0;
      while i < |inputs|
        invariant 0 <= i <= |inputs| && Valid() && Monotone(inputs[i..], now)
        invariant Drove(cf, from, evs, inputs[..i], Here())
        invariant forall o :: o in table.live.Values ==> o in live0 || fresh(o)
        invariant table.buckets == buckets0 || table.buckets == table.sbuckets || fresh(table.buckets)
      {
        evs := Feed(inputs[i], evs, from, inputs[..i]);
        assert inputs[i..][0] == inputs[i] && inputs[i..][1..] == inputs[i + 1..];
        assert inputs[..i + 1] == inputs[..i] + [inputs[i]];
        i := i + 1;
      }
      assert inputs[..i] == inputs;
    }

    /** What the main loop guarantees, on any requests and clock readings.
        The requests are treated, one by one, as the reference limiter treats
        them; each clock reading wakes the bucket that is due first, and one
        that wakes none finds no source with a waiter that could go; the child
        gets fewer than size + 1 + rate * time requests of one source; each
        source's requests leave in the order they were let in; every one is
        passed, held or refused as room and brim have it; and every refusal
        is counted in the reports. */
    method Drive(inputs: seq<Input>) returns (ghost evs: seq<Event>)
      requires Valid() && Monotone(inputs, now)
      modifies this`now, this`log, this`book, this`kept, table, table.sbuckets, table.buckets, heap, table.live.Values
      ensures Valid() && old(log) <= log
      ensures InOrder(evs, old(now)) && LastTime(evs, old(now)) <= now && Arrivals(evs) == Requests(inputs)
      ensures book == Run(old(book), evs, cf).0 && log == old(log) + Run(old(book), evs, cf).1
      ensures cf.rate > 0.0 && kept == Moves(old(kept), evs, cf) && Scheduled(cf, old(kept), old(book), evs, inputs)
      ensures forall src :: |Sent(log[|old(log)|..], src)| as real < cf.size + 1.0 + cf.rate * (now - old(now))
      ensures forall src ::
        Sent(log[|old(log)|..], src) + Waits(src) == old(Waits(src)) + Accepted(log[|old(log)|..], src)
      ensures forall src :: Decided(log[|old(log)|..], src) == Arrived(evs, src)
      ensures AllFair(old(book), evs, cf)
      ensures forall src ::
        Refused(log[|old(log)|..], src) + Unreported(old(kept), src)
        == Reported(old(kept), evs, src, cf) + Unreported(kept, src)
    {
      hide Coupled, Refused, Reported, Unreported, AllFair;
      hide ValidBut, SoundBook, Run, InOrder, Sent, Accepted, Decided, LastTime, Waits, Arrivals, Requests, Queue,
        Monotone, Moves, Scheduled;
      OnTheBooks();
      ghost var from := Here();
      evs := Loop(inputs);
      OnTheBooks();
      DroveAll(cf, from, evs, inputs, Here());
    }

    ghost function Here(): Stand
      reads this`book, this`kept, this`log, this`now
    {
      Stand(book, kept, log, now)
    }

    /** Who really waits in a source's bucket. */
    ghost function Waits(src: Source): seq<Waiting>
      reads table, table.live.Values
    {
      if src in table.live then table.live[src].brim else []
    }

    lemma OnTheBooks()
      requires Valid()
      ensures cf.Sane() && SoundBook(book, now, cf)
      ensures forall src :: Queue(book, src) == Waits(src)
      ensures Coupled(kept, book)
    {
      hide Table.Valid, WakeHeap.Valid, Key, SoundBook;
      forall src ensures Queue(book, src) == Waits(src) {
        if src in table.live {
          assert table.live[src].id == src;
        }
      }
    }

    /** One request, or one reading of the clock. */
    method Feed(input: Input, ghost evs: seq<Event>, ghost from: Stand, ghost done: seq<Input>)
      returns (ghost evs': seq<Event>)
      requires Valid() && now <= input.t && Drove(cf, from, evs, done, Here())
      modifies this`now, this`log, this`book, this`kept, table, table.sbuckets, table.buckets, heap, table.live.Values
      ensures Valid() && now == input.t && Drove(cf, from, evs', done + [input], Here())
      ensures forall o :: o in table.live.Values ==> o in old(table.live.Values) || fresh(o)
      ensures table.buckets == old(table.buckets) || table.buckets == table.sbuckets || fresh(table.buckets)
    {
      hide Table.Valid, WakeHeap.Valid, Linked, SoundBook, Idles, Others, Step, Run, Drove, Move, Due, NoneDue,
        AllQuiet;
      ghost var at := Here();
      match input
      case Request(_, src, w) =>
        Serve(src, w, input.t);
        evs' := evs + [Arrive(input.t, src, w)];
        DroveStep(cf, from, evs, done, at, input, Arrive(input.t, src, w));
      case Clock(_) =>
        ghost var woken := WakeDue(input.t);
        evs' := evs + woken;
        if woken == [] {
          Unit(evs);
          DroveIdle(cf, from, evs, done, at, input);
        } else {
          DroveStep(cf, from, evs, done, at, input, woken[0]);
        }
    }
  }
}
