// The arithmetic of one bucket of src/ratequeue.c, on values: leaking,
// releasing waiters, and the time of the next wake-up.
module LeakyBucket {
  import opened Buckets

  datatype Config = Config(size: real, rate: real, retain: real, warnrate: real, brimsize: nat) {
    ghost predicate Sane() {
      size > 0.0 && rate > 0.0 && retain > 0.0 && warnrate > 0.0
    }
  }

  /** The changing fields of a bucket. */
  datatype State = State(level: real, last: real, etime: real, wtime: real, brim: seq<Waiting>, blocked: int) {

    /** Between events: nobody waits while there is room. */
    ghost predicate Rests(cf: Config) {
      0.0 <= level < cf.size + 1.0 && (brim != [] ==> level >= cf.size) && |brim| <= cf.brimsize
    }
  }

  /** How many of n waiters the loop of `tickbucket` forwards. */
  function Released(level: real, n: nat, size: real): (k: nat)
    ensures k <= n
    decreases n
  {
    if n > 0 && level < size then 1 + Released(level + 1.0, n - 1, size) else 0
  }

  function Leak(level: real, elapsed: real, rate: real): (l: real)
    ensures l >= 0.0
  {
    if level - elapsed * rate < 0.0 then 0.0 else level - elapsed * rate
  }

  /** When the bucket last became empty, as `tickbucket` keeps track of it. */
  function EmptyAt(s: State, now: real, cf: Config): real
    requires cf.rate > 0.0
  {
    var left := s.level - (now - s.last) * cf.rate;
    if left < 0.0 && s.level > 0.0 then now + left / cf.rate else s.etime
  }

  /** `tickbucket` on the fields of a bucket. */
  function Tick(s: State, now: real, cf: Config): State
    requires cf.rate > 0.0
  {
    var level := Leak(s.level, now - s.last, cf.rate);
    var k := Released(level, |s.brim|, cf.size);
    var reports := Reports(s, now, cf);
    State(level + k as real, now, EmptyAt(s, now, cf), if reports then now else s.wtime,
          s.brim[k..], if reports then 0 else s.blocked)
  }

  predicate Reports(s: State, now: real, cf: Config) {
    s.blocked > 0 && now - s.wtime >= cf.warnrate
  }

  /** Whether `checkbtime` frees the bucket it has just ticked to s. */
  predicate Expired(s: State, now: real, cf: Config) {
    s.level == 0.0 && now >= s.etime + cf.retain && s.blocked <= 0
  }

  /** The heap key that `updbtime` computes. */
  function Key(s: State, cf: Config): real
    requires cf.rate > 0.0
  {
    var tm0 := if s.level == 0.0 then s.etime + cf.retain else s.last + s.level / cf.rate + cf.retain;
    var tm1 := if s.blocked > 0 && s.wtime + cf.warnrate > tm0 then s.wtime + cf.warnrate else tm0;
    var tm2 := if s.brim != [] && RoomAt(s, cf) < tm1 then RoomAt(s, cf) else tm1;
    if s.blocked > 0 && s.wtime + cf.warnrate < tm2 then s.wtime + cf.warnrate else tm2
  }

  /** When the level has leaked down to the size. */
  function RoomAt(s: State, cf: Config): real
    requires cf.rate > 0.0
  {
    s.last + (s.level - cf.size) / cf.rate
  }

  // ----- Releasing -----

  lemma LeakRange(level: real, elapsed: real, rate: real)
    requires level >= 0.0 && elapsed >= 0.0 && rate > 0.0
    ensures 0.0 <= Leak(level, elapsed, rate) <= level
  {
    LeakLess(level, elapsed, rate);
  }

  /** The loop forwards the fewest waiters that fill the bucket, or all. */
  lemma {:induction false} ReleasedLeast(level: real, n: nat, size: real)
    ensures var k := Released(level, n, size);
      && (k == n || level + k as real >= size)
      && (k > 0 ==> level + (k - 1) as real < size)
    decreases n
  {
    if n > 0 && level < size {
      ReleasedLeast(level + 1.0, n - 1, size);
    }
  }

  lemma TickRests(s: State, now: real, cf: Config)
    requires cf.Sane() && s.Rests(cf) && s.last <= now
    ensures Tick(s, now, cf).Rests(cf) && Tick(s, now, cf).last == now
  {
    LeakLess(s.level, now - s.last, cf.rate);
    ReleasedLeast(Leak(s.level, now - s.last, cf.rate), |s.brim|, cf.size);
  }

  lemma LeakLess(level: real, elapsed: real, rate: real)
    requires level >= 0.0 && elapsed >= 0.0 && rate > 0.0
    ensures level - elapsed * rate <= Leak(level, elapsed, rate) <= level
    ensures level <= Leak(level, elapsed, rate) + rate * elapsed
  {
    assert elapsed * rate >= 0.0;
  }

  lemma Compare(a: real, b: real, rate: real)
    requires rate > 0.0
    ensures a < b <==> a * rate < b * rate
  {
    if a < b {
      assert (b - a) * rate > 0.0;
    } else {
      assert (a - b) * rate >= 0.0;
    }
  }

  lemma Drained(level: real, elapsed: real, rate: real)
    requires rate > 0.0
    ensures (elapsed + (level - elapsed * rate) / rate) * rate == level
  {
    var q := (level - elapsed * rate) / rate;
    assert q * rate == level - elapsed * rate;
    assert (elapsed + q) * rate == elapsed * rate + q * rate;
  }

  /** `etime` is set to the moment at which the level came to zero. */
  lemma EmptyExact(s: State, now: real, t: real, cf: Config)
    requires cf.Sane() && s.level > 0.0 && (now - s.last) * cf.rate > s.level && s.last <= t
    ensures s.last < EmptyAt(s, now, cf) < now
    ensures Leak(s.level, t - s.last, cf.rate) == 0.0 <==> t >= EmptyAt(s, now, cf)
  {
    hide Leak;
    var e := EmptyAt(s, now, cf) - s.last;
    DrainTime(s.level, now - s.last, cf.rate, e);
    LeakZero(s.level, t - s.last, cf.rate);
    Compare(t - s.last, e, cf.rate);
  }

  lemma DrainTime(level: real, x: real, rate: real, e: real)
    requires rate > 0.0 && level > 0.0 && x * rate > level && e == x + (level - x * rate) / rate
    ensures e * rate == level && 0.0 < e < x
  {
    Drained(level, x, rate);
    Compare(0.0, e, rate);
    Compare(e, x, rate);
  }

  lemma LeakZero(level: real, elapsed: real, rate: real)
    ensures Leak(level, elapsed, rate) == 0.0 <==> elapsed * rate >= level
  {
  }

  // ----- The wake-up schedule -----

  /** Times against a quotient, as levels against a product. */
  lemma Reached(now: real, last: real, amount: real, rate: real)
    requires rate > 0.0
    ensures now > last + amount / rate <==> (now - last) * rate > amount
    ensures now == last + amount / rate <==> (now - last) * rate == amount
  {
    var q := amount / rate;
    assert q * rate == amount;
    var d := now - last - q;
    assert (now - last) * rate == amount + d * rate;
    if d > 0.0 {
      assert d * rate > 0.0;
    } else if d < 0.0 {
      assert (-d) * rate > 0.0;
      assert d * rate < 0.0;
    }
  }

  /** What a check at `now` does that anyone could notice. */
  predicate Acts(s: State, now: real, cf: Config)
    requires cf.rate > 0.0
  {
    var t := Tick(s, now, cf);
    |t.brim| < |s.brim| || Reports(s, now, cf) || Expired(t, now, cf)
  }

  /** The bucket drains to exactly zero, leaving `etime` unrefreshed. */
  predicate DrainsExactly(s: State, now: real, cf: Config) {
    && s.blocked <= 0 && s.brim == [] && s.level > 0.0
    && s.level == (now - s.last) * cf.rate && now >= s.etime + cf.retain
  }

  lemma RetireAt(s: State, now: real, cf: Config)
    requires cf.Sane()
    ensures var left := s.level - (now - s.last) * cf.rate;
      now + left / cf.rate == s.last + s.level / cf.rate
  {
    var d := now - s.last;
    assert (s.level - d * cf.rate) / cf.rate == s.level / cf.rate - d by {
      assert (s.level / cf.rate - d) * cf.rate == s.level - d * cf.rate;
    }
  }

  /** While the key is ahead, the leak has not made room for a waiter. */
  lemma RoomOpens(s: State, now: real, cf: Config)
    requires cf.Sane() && s.Rests(cf) && s.last <= now && s.brim != []
    ensures s.last + s.level / cf.rate + cf.retain > RoomAt(s, cf)
    ensures now > RoomAt(s, cf) <==> Leak(s.level, now - s.last, cf.rate) < cf.size
    ensures now == RoomAt(s, cf) ==> Leak(s.level, now - s.last, cf.rate) == cf.size
  {
    Reached(now, s.last, s.level - cf.size, cf.rate);
    var q := (s.level - cf.size) / cf.rate;
    assert (s.level / cf.rate - q) * cf.rate == cf.size;
  }

  /** With nobody waiting, a bucket is empty and idle long enough to be freed
      from its retirement time on, and earlier only after an exact drain. */
  lemma Retires(s: State, now: real, cf: Config)
    requires cf.Sane() && s.Rests(cf) && s.last <= now && s.brim == [] && s.blocked <= 0
    ensures now >= Key(s, cf) ==> Expired(Tick(s, now, cf), now, cf)
    ensures now < Key(s, cf) ==> (Expired(Tick(s, now, cf), now, cf) <==> DrainsExactly(s, now, cf))
  {
    Reached(now, s.last, s.level, cf.rate);
    RetireAt(s, now, cf);
    if s.level == 0.0 {
      assert (now - s.last) * cf.rate >= 0.0;
    } else {
      var left := s.level - (now - s.last) * cf.rate;
      assert Key(s, cf) == s.last + s.level / cf.rate + cf.retain;
      if left < 0.0 {
        assert Tick(s, now, cf).etime == s.last + s.level / cf.rate;
      }
    }
  }

  /** Before its key a bucket forwards nothing and reports nothing; it would
      be freed early in exactly one case. */
  lemma EarlyIsIdle(s: State, now: real, cf: Config)
    requires cf.Sane() && s.Rests(cf) && s.last <= now < Key(s, cf)
    ensures Tick(s, now, cf).brim == s.brim && !Reports(s, now, cf)
    ensures Expired(Tick(s, now, cf), now, cf) <==> DrainsExactly(s, now, cf)
  {
    if s.brim != [] {
      RoomOpens(s, now, cf);
    } else if s.blocked <= 0 {
      Retires(s, now, cf);
    }
  }

  /** From its key on a check does something, except exactly at the moment
      a waiter's room opens with nothing else due. */
  lemma DueActs(s: State, now: real, cf: Config)
    requires cf.Sane() && s.Rests(cf) && s.last <= now && Key(s, cf) <= now
    ensures Acts(s, now, cf) <==>
      !(now == Key(s, cf) && s.brim != [] && !Reports(s, now, cf))
  {
    if s.brim != [] {
      RoomOpens(s, now, cf);
      ReleasedLeast(Leak(s.level, now - s.last, cf.rate), |s.brim|, cf.size);
    } else if s.blocked <= 0 {
      Retires(s, now, cf);
    }
  }

  // ----- Inputs at which the simple schedule fails -----

  /** Exactly at its key a bucket may have nothing to do: full, with one
      waiter, it finds no room when it is woken. */
  lemma WakeIdles(cf: Config, w: Waiting)
    requires cf.Sane() && cf.brimsize >= 1
    ensures var s := State(cf.size, 0.0, 0.0, 0.0, [w], -1);
      s.Rests(cf) && Key(s, cf) == 0.0 && !Acts(s, 0.0, cf)
  {
  }

  /** A bucket that drains to exactly zero keeps its old `etime`, and would
      then be fit to be freed before its key. */
  lemma DrainsEarly(cf: Config)
    requires cf.Sane() && cf.size > 1.0 && cf.rate == cf.retain == 1.0
    ensures var s := State(1.0, 5.0, 0.0, 0.0, [], -1);
      s.Rests(cf) && 6.0 < Key(s, cf) && Expired(Tick(s, 6.0, cf), 6.0, cf)
  {
  }
}
