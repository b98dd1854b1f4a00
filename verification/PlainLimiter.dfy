// The reference limiter: one account per source in a map that never forgets
// anybody. No hashing, no wake-up heap, no eviction.
module PlainLimiter {
  import opened Buckets
  import opened LeakyBucket
  import opened Seqs

  datatype Account = Account(level: real, last: real, queue: seq<Waiting>)

  type Book = map<Source, Account>

  datatype Event = Arrive(now: real, src: Source, w: Waiting) | Wake(now: real, src: Source)

  /** What is done with a request: sent on at once (Pass), held, sent on later
      (Release), refused, or thrown away. */
  datatype Act =
    | Pass(src: Source, w: Waiting)
    | Hold(src: Source, w: Waiting)
    | Release(src: Source, w: Waiting)
    | Refuse(src: Source, w: Waiting)
    | Discard(src: Source, w: Waiting)

  function Get(book: Book, src: Source, now: real): Account {
    if src in book then book[src] else Account(0.0, now, [])
  }

  /** Let an account leak until `now`, then release whom it has room for. */
  function Settle(a: Account, now: real, cf: Config): Account {
    var level := Leak(a.level, now - a.last, cf.rate);
    var k := Released(level, |a.queue|, cf.size);
    Account(level + k as real, now, a.queue[k..])
  }

  function Releases(src: Source, q: seq<Waiting>): (r: seq<Act>)
    ensures |r| == |q| && forall i :: 0 <= i < |q| ==> r[i] == Release(src, q[i])
  {
    seq(|q|, i requires 0 <= i < |q| => Release(src, q[i]))
  }

  /** The waiters that settling lets go. */
  function LetGo(a: Account, now: real, cf: Config): seq<Waiting> {
    a.queue[..|a.queue| - |Settle(a, now, cf).queue|]
  }

  lemma LetGoFirst(a: Account, now: real, cf: Config)
    ensures LetGo(a, now, cf) == a.queue[..Released(Leak(a.level, now - a.last, cf.rate), |a.queue|, cf.size)]
  {
  }

  function Admit(a: Account, src: Source, w: Waiting, cf: Config): (Account, Act) {
    if a.level < cf.size then
      (a.(level := a.level + 1.0), Pass(src, w))
    else if |a.queue| < cf.brimsize then
      (a.(queue := a.queue + [w]), Hold(src, w))
    else
      (a, Refuse(src, w))
  }

  /** An event for a settled account b that has let `go` leave. */
  function Handle(b: Account, go: seq<Waiting>, ev: Event, cf: Config): (Account, seq<Act>) {
    match ev
    case Wake(_, src) => (b, Releases(src, go))
    case Arrive(_, src, w) =>
      var (c, act) := Admit(b, src, w, cf);
      (c, Releases(src, go) + [act])
  }

  function Step(book: Book, ev: Event, cf: Config): (Book, seq<Act>) {
    var a := Get(book, ev.src, ev.now);
    var (c, out) := Handle(Settle(a, ev.now, cf), LetGo(a, ev.now, cf), ev, cf);
    (book[ev.src := c], out)
  }

  function Run(book: Book, evs: seq<Event>, cf: Config): (Book, seq<Act>)
    decreases |evs|
  {
    if evs == [] then (book, []) else
      var (b, out) := Step(book, evs[0], cf);
      var (c, rest) := Run(b, evs[1..], cf);
      (c, out + rest)
  }

  lemma {:induction false} RunAppend(book: Book, evs: seq<Event>, more: seq<Event>, cf: Config)
    ensures var (b, out) := Run(book, evs, cf);
      var (c, rest) := Run(b, more, cf);
      Run(book, evs + more, cf) == (c, out + rest)
    decreases |evs|
  {
    hide Step;
    if evs == [] {
      assert evs + more == more;
      assert [] + Run(book, more, cf).1 == Run(book, more, cf).1;
    } else {
      var (b, out) := Step(book, evs[0], cf);
      RunAppend(b, evs[1..], more, cf);
      assert (evs + more)[1..] == evs[1..] + more;
      var (c, mid) := Run(b, evs[1..], cf);
      var (d, rest) := Run(c, more, cf);
      assert out + (mid + rest) == out + mid + rest;
    }
  }

  lemma RunOne(book: Book, ev: Event, cf: Config)
    ensures Run(book, [ev], cf) == Step(book, ev, cf)
  {
    hide Step;
    var (b, out) := Step(book, ev, cf);
    assert [ev][1..] == [];
    assert Run(b, [], cf) == (b, []);
    Unit(out);
  }

  /** Running one event more. */
  lemma RunSnoc(book: Book, evs: seq<Event>, ev: Event, cf: Config)
    ensures var (b, out) := Run(book, evs, cf);
      var (c, more) := Step(b, ev, cf);
      Run(book, evs + [ev], cf) == (c, out + more)
  {
    hide Run, Step;
    RunAppend(book, evs, [ev], cf);
    RunOne(Run(book, evs, cf).0, ev, cf);
  }

  /** Waking a source whose waiters all stay does nothing to be seen. */
  lemma WakeIdle(book: Book, src: Source, now: real, cf: Config)
    requires Settle(Get(book, src, now), now, cf).queue == Get(book, src, now).queue
    ensures Step(book, Wake(now, src), cf).1 == []
  {
    hide Settle, Get;
  }

  // ----- Reading a log -----

  datatype Kind =
    | Out      // reached the child
    | In       // was let in
    | Ruled    // was decided on at arrival
    | Turned   // was refused

  predicate Is(a: Act, kind: Kind) {
    match kind
    case Out => a.Pass? || a.Release?
    case In => a.Pass? || a.Hold?
    case Ruled => !a.Release?
    case Turned => a.Refuse?
  }

  /** The requests of one source that a log mentions so, in order. */
  function Pick(acts: seq<Act>, src: Source, kind: Kind): seq<Waiting> {
    if acts == [] then []
    else (if acts[0].src == src && Is(acts[0], kind) then [acts[0].w] else []) + Pick(acts[1..], src, kind)
  }

  function Sent(acts: seq<Act>, src: Source): seq<Waiting> {
    Pick(acts, src, Out)
  }

  function Accepted(acts: seq<Act>, src: Source): seq<Waiting> {
    Pick(acts, src, In)
  }

  function Decided(acts: seq<Act>, src: Source): seq<Waiting> {
    Pick(acts, src, Ruled)
  }

  function Arrived(evs: seq<Event>, src: Source): seq<Waiting> {
    if evs == [] then []
    else (if evs[0].src == src && evs[0].Arrive? then [evs[0].w] else []) + Arrived(evs[1..], src)
  }

  lemma {:induction false} PickSplit(c: seq<Act>, n: nat, src: Source, kind: Kind)
    requires n <= |c|
    ensures Pick(c, src, kind) == Pick(c[..n], src, kind) + Pick(c[n..], src, kind)
  {
    hide Is;
    if n == 0 {
      assert c[..0] == [] && c[0..] == c;
      Unit(Pick(c, src, kind));
    } else {
      PickSplit(c[1..], n - 1, src, kind);
      TailSplit(c, n);
      var head := if c[0].src == src && Is(c[0], kind) then [c[0].w] else [];
      Assoc(head, Pick(c[1..][..n - 1], src, kind), Pick(c[n..], src, kind));
    }
  }

  lemma PickAppend(a: seq<Act>, b: seq<Act>, src: Source, kind: Kind)
    ensures Pick(a + b, src, kind) == Pick(a, src, kind) + Pick(b, src, kind)
  {
    hide Pick;
    PickSplit(a + b, |a|, src, kind);
    AppendSplit(a, b);
  }

  lemma LogAppend(a: seq<Act>, b: seq<Act>, src: Source)
    ensures Sent(a + b, src) == Sent(a, src) + Sent(b, src)
    ensures Accepted(a + b, src) == Accepted(a, src) + Accepted(b, src)
    ensures Decided(a + b, src) == Decided(a, src) + Decided(b, src)
  {
    PickAppend(a, b, src, Out);
    PickAppend(a, b, src, In);
    PickAppend(a, b, src, Ruled);
  }

  lemma {:induction false} PickReleases(q: seq<Waiting>, from: Source, src: Source, kind: Kind)
    ensures Pick(Releases(from, q), src, kind) == if from == src && kind == Out then q else []
  {
    var r := Releases(from, q);
    if q != [] {
      assert r[1..] == Releases(from, q[1..]);
      PickReleases(q[1..], from, src, kind);
      assert q == [q[0]] + q[1..];
    } else {
      assert r == [];
    }
  }

  lemma PickOne(act: Act, src: Source, kind: Kind)
    ensures Pick([act], src, kind) == if act.src == src && Is(act, kind) then [act.w] else []
  {
    assert [act][1..] == [];
  }

  // ----- Reachable accounts -----

  /** A reachable account: nobody waits while there is room. */
  ghost predicate Sound(a: Account, cf: Config) {
    0.0 <= a.level < cf.size + 1.0 && (a.queue != [] ==> a.level >= cf.size) && |a.queue| <= cf.brimsize
  }

  /** All accounts are reachable ones, last touched by time t. */
  ghost predicate SoundBook(book: Book, t: real, cf: Config) {
    forall src :: src in book ==> Sound(book[src], cf) && book[src].last <= t
  }

  ghost predicate InOrder(evs: seq<Event>, from: real) {
    evs != [] ==> from <= evs[0].now && InOrder(evs[1..], evs[0].now)
  }

  function LastTime(evs: seq<Event>, from: real): real {
    if evs == [] then from else evs[|evs| - 1].now
  }

  lemma {:induction false} InOrderSnoc(evs: seq<Event>, ev: Event, from: real)
    requires InOrder(evs, from) && LastTime(evs, from) <= ev.now
    ensures InOrder(evs + [ev], from) && LastTime(evs + [ev], from) == ev.now
    decreases |evs|
  {
    if evs == [] {
      assert [] + [ev] == [ev] && [ev][1..] == [];
    } else {
      assert LastTime(evs[1..], evs[0].now) == LastTime(evs, from);
      InOrderSnoc(evs[1..], ev, evs[0].now);
      assert (evs + [ev])[1..] == evs[1..] + [ev];
    }
  }

  /** The arrivals of a run, as events. */
  function Arrivals(evs: seq<Event>): seq<Event> {
    if evs == [] then []
    else Arrivals(evs[..|evs| - 1]) + if evs[|evs| - 1].Arrive? then [evs[|evs| - 1]] else []
  }

  lemma SettleSound(a: Account, now: real, cf: Config)
    requires cf.Sane() && Sound(a, cf) && a.last <= now
    ensures var b := Settle(a, now, cf);
      && Sound(b, cf) && b.last == now
      && (b.level < cf.size ==> b.queue == [])
      && a.level + |LetGo(a, now, cf)| as real <= b.level + cf.rate * (now - a.last)
  {
    hide Leak, Settle, LetGo;
    SettleRests(a, now, cf);
    LeakLess(a.level, now - a.last, cf.rate);
  }

  lemma SettleRests(a: Account, now: real, cf: Config)
    requires cf.Sane() && Sound(a, cf) && a.last <= now
    ensures var b := Settle(a, now, cf);
      && Sound(b, cf) && b.last == now
      && (b.level < cf.size ==> b.queue == [])
      && b.level == Leak(a.level, now - a.last, cf.rate) + |LetGo(a, now, cf)| as real
  {
    hide Leak, Released, LetGo, Settle;
    var left := Leak(a.level, now - a.last, cf.rate);
    LeakRange(a.level, now - a.last, cf.rate);
    LetGoFirst(a, now, cf);
    Filled(left, a.level, a.queue, cf);
    SettleIsFilled(a, now, cf);
  }

  lemma SettleIsFilled(a: Account, now: real, cf: Config)
    ensures var left := Leak(a.level, now - a.last, cf.rate);
      var k := Released(left, |a.queue|, cf.size);
      Settle(a, now, cf) == Account(left + k as real, now, a.queue[k..])
  {
  }

  /** Releasing waiters at some level not above the one before. */
  lemma Filled(left: real, level: real, queue: seq<Waiting>, cf: Config)
    requires 0.0 <= left <= level < cf.size + 1.0 && (queue != [] ==> level >= cf.size) && |queue| <= cf.brimsize
    ensures var k := Released(left, |queue|, cf.size);
      Sound(Account(left + k as real, 0.0, queue[k..]), cf) && |queue[..k]| == k
      && (left + k as real < cf.size ==> queue[k..] == [])
  {
    hide Released;
    ReleasedLeast(left, |queue|, cf.size);
  }

  lemma StepSound(book: Book, ev: Event, t: real, cf: Config)
    requires cf.Sane() && SoundBook(book, t, cf) && t <= ev.now
    ensures SoundBook(Step(book, ev, cf).0, ev.now, cf)
  {
    hide Leak, Released, LetGo, Releases, Settle;
    SettleSound(Get(book, ev.src, ev.now), ev.now, cf);
  }

  // ----- Order and conservation -----

  function Queue(book: Book, src: Source): seq<Waiting> {
    if src in book then book[src].queue else []
  }

  /** What one step adds to the log of one source. */
  lemma StepPicks(book: Book, ev: Event, cf: Config, src: Source, kind: Kind)
    ensures var a := Get(book, ev.src, ev.now);
      var go := LetGo(a, ev.now, cf);
      var mine := if ev.src == src && kind == Out then go else [];
      Pick(Step(book, ev, cf).1, src, kind) ==
        if ev.Wake? then mine else
          var act := Admit(Settle(a, ev.now, cf), ev.src, ev.w, cf).1;
          mine + if ev.src == src && Is(act, kind) then [ev.w] else []
  {
    hide Pick, Is, Releases, LetGo, Settle, Get;
    var a := Get(book, ev.src, ev.now);
    var go := LetGo(a, ev.now, cf);
    PickReleases(go, ev.src, src, kind);
    AdmitFor(Settle(a, ev.now, cf), ev, cf);
    if ev.Arrive? {
      var act := Admit(Settle(a, ev.now, cf), ev.src, ev.w, cf).1;
      PickAppend(Releases(ev.src, go), [act], src, kind);
      PickOne(act, src, kind);
    }
  }

  lemma AdmitFor(a: Account, ev: Event, cf: Config)
    ensures ev.Arrive? ==> var act := Admit(a, ev.src, ev.w, cf).1; act.src == ev.src && act.w == ev.w
  {
  }

  lemma StepElsewhere(book: Book, ev: Event, cf: Config, src: Source)
    ensures var b := Step(book, ev, cf).0;
      src != ev.src ==> (src in b <==> src in book) && (src in book ==> b[src] == book[src])
  {
  }

  lemma StepDecided(book: Book, ev: Event, cf: Config, src: Source)
    ensures Decided(Step(book, ev, cf).1, src) == Arrived([ev], src)
  {
    StepPicks(book, ev, cf, src, Ruled);
    assert [ev][1..] == [];
  }

  lemma OwnWake(book: Book, ev: Event, cf: Config)
    requires ev.Wake?
    ensures var (b, out) := Step(book, ev, cf);
      Sent(out, ev.src) + Queue(b, ev.src) == Queue(book, ev.src) + Accepted(out, ev.src)
  {
    StepPicks(book, ev, cf, ev.src, Out);
    StepPicks(book, ev, cf, ev.src, In);
    SplitQueue(Get(book, ev.src, ev.now), ev.now, cf);
    Unit(Queue(book, ev.src));
    hide Leak, Released, Releases, Pick, Settle, LetGo;
  }

  lemma StepSent(book: Book, ev: Event, cf: Config)
    requires ev.Arrive?
    ensures var a := Get(book, ev.src, ev.now);
      var act := Admit(Settle(a, ev.now, cf), ev.src, ev.w, cf).1;
      Sent(Step(book, ev, cf).1, ev.src) == LetGo(a, ev.now, cf) + if act.Pass? then [ev.w] else []
  {
    StepPicks(book, ev, cf, ev.src, Out);
  }

  lemma StepAccepted(book: Book, ev: Event, cf: Config)
    requires ev.Arrive?
    ensures var act := Admit(Settle(Get(book, ev.src, ev.now), ev.now, cf), ev.src, ev.w, cf).1;
      Accepted(Step(book, ev, cf).1, ev.src) == if act.Refuse? then [] else [ev.w]
  {
    StepPicks(book, ev, cf, ev.src, In);
  }

  lemma OwnArrive(book: Book, ev: Event, t: real, cf: Config)
    requires cf.Sane() && SoundBook(book, t, cf) && t <= ev.now && ev.Arrive?
    ensures var (b, out) := Step(book, ev, cf);
      Sent(out, ev.src) + Queue(b, ev.src) == Queue(book, ev.src) + Accepted(out, ev.src)
  {
    var src, w := ev.src, [ev.w];
    var a := Get(book, src, ev.now);
    var s := Settle(a, ev.now, cf);
    var go, left := LetGo(a, ev.now, cf), s.queue;
    SettleSound(a, ev.now, cf);
    SplitQueue(a, ev.now, cf);
    StepSent(book, ev, cf);
    StepAccepted(book, ev, cf);
    assert Queue(Step(book, ev, cf).0, src) == Admit(s, src, ev.w, cf).0.queue;
    assert Queue(book, src) == go + left;
    hide Leak, Released, Releases, Pick, Settle, LetGo, SoundBook, Sound, Step, Queue, Get, Sent, Accepted;
    Assoc(go, left, w);
    Unit(w);
    Unit(go);
    Unit(go + left);
    Unit(go + w);
  }

  lemma StepLog(book: Book, ev: Event, t: real, cf: Config, src: Source)
    requires cf.Sane() && SoundBook(book, t, cf) && t <= ev.now
    ensures var (b, out) := Step(book, ev, cf);
      && Sent(out, src) + Queue(b, src) == Queue(book, src) + Accepted(out, src)
      && Decided(out, src) == Arrived([ev], src)
  {
    StepDecided(book, ev, cf, src);
    if src == ev.src {
      if ev.Wake? { OwnWake(book, ev, cf); } else { OwnArrive(book, ev, t, cf); }
    } else {
      StepPicks(book, ev, cf, src, Out);
      StepPicks(book, ev, cf, src, In);
      StepElsewhere(book, ev, cf, src);
      Unit(Queue(book, src));
      hide Step, Pick;
    }
  }

  lemma SplitQueue(a: Account, now: real, cf: Config)
    ensures a.queue == LetGo(a, now, cf) + Settle(a, now, cf).queue
  {
  }

  lemma NothingPicked(src: Source)
    ensures Sent([], src) == Accepted([], src) == Decided([], src) == []
  {
  }

  /** In every run each source's requests leave in the order they came: those
      sent and then those waiting are those let in. Every arrival is decided
      on once, in order. */
  lemma {:induction false} Conserved(book: Book, evs: seq<Event>, t: real, cf: Config, src: Source)
    requires cf.Sane() && SoundBook(book, t, cf) && InOrder(evs, t)
    ensures var (b, out) := Run(book, evs, cf);
      && Sent(out, src) + Queue(b, src) == Queue(book, src) + Accepted(out, src)
      && Decided(out, src) == Arrived(evs, src)
    decreases |evs|
  {
    hide Step, SoundBook, Queue, Sent, Accepted, Decided;
    if evs == [] {
      NothingPicked(src);
      Unit(Queue(book, src));
    } else {
      var (b, out) := Step(book, evs[0], cf);
      var (c, rest) := Run(b, evs[1..], cf);
      StepSound(book, evs[0], t, cf);
      StepLog(book, evs[0], t, cf, src);
      Conserved(b, evs[1..], evs[0].now, cf, src);
      LogAppend(out, rest, src);
      assert [evs[0]][1..] == [];
      Regroup(Sent(out, src), Sent(rest, src), Queue(c, src), Queue(b, src),
              Accepted(rest, src), Queue(book, src), Accepted(out, src));
    }
  }

  lemma Regroup<T>(s1: seq<T>, s2: seq<T>, q2: seq<T>, q1: seq<T>, a2: seq<T>, q0: seq<T>, a1: seq<T>)
    requires s1 + q1 == q0 + a1 && s2 + q2 == q1 + a2
    ensures (s1 + s2) + q2 == q0 + (a1 + a2)
  {
    Assoc(s1, s2, q2);
    Assoc(s1, q1, a2);
    Assoc(q0, a1, a2);
  }

  // ----- The rate bound -----

  /** The level at time t of a source's account, its queue aside. */
  function LevelAt(book: Book, src: Source, t: real, cf: Config): real {
    if src in book then Leak(book[src].level, t - book[src].last, cf.rate) else 0.0
  }

  /** What a span of time leaks away at most. */
  function Earned(rate: real, span: real): real {
    rate * span
  }

  lemma EarnedPos(rate: real, span: real)
    requires rate > 0.0 && span >= 0.0
    ensures Earned(rate, span) >= 0.0
  {
  }

  lemma EarnedSum(rate: real, d: real, e: real)
    ensures Earned(rate, d) + Earned(rate, e) == Earned(rate, d + e)
  {
  }

  lemma LeakTwice(level: real, d: real, e: real, rate: real)
    requires level >= 0.0 && d >= 0.0 && e >= 0.0 && rate > 0.0
    ensures Leak(Leak(level, d, rate), e, rate) == Leak(level, d + e, rate)
    ensures Leak(level, d, rate) <= Leak(level, d + e, rate) + Earned(rate, e)
  {
    assert (d + e) * rate == d * rate + e * rate;
    assert e * rate >= 0.0;
  }

  lemma LeakNone(level: real, rate: real)
    requires level >= 0.0
    ensures Leak(level, 0.0, rate) == level
  {
  }

  /** Releasing costs level; only time gives it back. */
  lemma SettleBound(a: Account, t: real, now: real, cf: Config)
    requires cf.Sane() && a.level >= 0.0 && a.last <= t <= now
    ensures Leak(a.level, t - a.last, cf.rate) + |LetGo(a, now, cf)| as real
      <= Settle(a, now, cf).level + Earned(cf.rate, now - t)
  {
    hide Earned, Leak;
    LeakTwice(a.level, t - a.last, now - t, cf.rate);
    assert (t - a.last) + (now - t) == now - a.last;
  }

  lemma OwnBound(book: Book, ev: Event, t: real, cf: Config)
    requires cf.Sane() && SoundBook(book, t, cf) && t <= ev.now
    ensures var (b, out) := Step(book, ev, cf);
      LevelAt(book, ev.src, t, cf) + |Sent(out, ev.src)| as real <= LevelAt(b, ev.src, ev.now, cf) + Earned(cf.rate,
        ev.now - t)
  {
    var now := ev.now;
    var a := Get(book, ev.src, now);
    var b := Step(book, ev, cf).0;
    StepPicks(book, ev, cf, ev.src, Out);
    hide Pick, Releases, Earned;
    assert LevelAt(book, ev.src, t, cf) + |LetGo(a, now, cf)| as real <= Settle(a, now, cf).level + Earned(cf.rate,
      now - t) by {
      if ev.src in book {
        SettleBound(a, t, now, cf);
      } else {
        EarnedPos(cf.rate, now - t);
      }
    }
    hide Leak, Released, LetGo, SoundBook;
    LeakNone(b[ev.src].level, cf.rate);
  }

  lemma OtherBound(book: Book, ev: Event, t: real, cf: Config, src: Source)
    requires cf.Sane() && SoundBook(book, t, cf) && t <= ev.now && src != ev.src
    ensures var (b, out) := Step(book, ev, cf);
      LevelAt(book, src, t, cf) + |Sent(out, src)| as real <= LevelAt(b, src, ev.now, cf) + Earned(cf.rate, ev.now - t)
  {
    StepPicks(book, ev, cf, src, Out);
    StepElsewhere(book, ev, cf, src);
    assert Sent(Step(book, ev, cf).1, src) == [];
    hide Step, Sent, Earned;
    if src in book {
      var a := book[src];
      LeakTwice(a.level, t - a.last, ev.now - t, cf.rate);
      assert (t - a.last) + (ev.now - t) == ev.now - a.last;
    } else {
      EarnedPos(cf.rate, ev.now - t);
    }
  }

  /** Level now plus requests sent since t is at most what time allows. */
  ghost predicate Bounded(book: Book, t: real, out: seq<Act>, b: Book, u: real, cf: Config, src: Source) {
    LevelAt(book, src, t, cf) + |Sent(out, src)| as real <= LevelAt(b, src, u, cf) + Earned(cf.rate, u - t)
  }

  lemma BoundedNone(book: Book, t: real, cf: Config, src: Source)
    ensures Bounded(book, t, [], book, t, cf, src)
  {
  }

  lemma StepBound(book: Book, ev: Event, t: real, cf: Config, src: Source)
    requires cf.Sane() && SoundBook(book, t, cf) && t <= ev.now
    ensures var (b, out) := Step(book, ev, cf);
      Bounded(book, t, out, b, ev.now, cf, src)
  {
    hide Step, SoundBook, LevelAt, Sent, Earned;
    if src == ev.src {
      OwnBound(book, ev, t, cf);
    } else {
      OtherBound(book, ev, t, cf, src);
    }
  }

  lemma BoundedChain(b0: Book, t0: real, o1: seq<Act>, b1: Book, t1: real, o2: seq<Act>, b2: Book, t2: real,
    cf: Config, src: Source)
    requires Bounded(b0, t0, o1, b1, t1, cf, src) && Bounded(b1, t1, o2, b2, t2, cf, src)
    ensures Bounded(b0, t0, o1 + o2, b2, t2, cf, src)
  {
    LogAppend(o1, o2, src);
    hide Sent, LevelAt, Earned;
    EarnedSum(cf.rate, t1 - t0, t2 - t1);
    assert (t1 - t0) + (t2 - t1) == t2 - t0;
  }

  lemma {:induction false} RunBound(book: Book, evs: seq<Event>, t: real, cf: Config, src: Source)
    requires cf.Sane() && SoundBook(book, t, cf) && InOrder(evs, t)
    ensures var (b, out) := Run(book, evs, cf);
      var u := LastTime(evs, t);
      t <= u && SoundBook(b, u, cf) && Bounded(book, t, out, b, u, cf, src)
    decreases |evs|
  {
    hide Step, SoundBook, Bounded, Earned;
    BoundedNone(book, t, cf, src);
    if evs != [] {
      var (b, out) := Step(book, evs[0], cf);
      var (c, rest) := Run(b, evs[1..], cf);
      StepSound(book, evs[0], t, cf);
      StepBound(book, evs[0], t, cf, src);
      RunBound(b, evs[1..], evs[0].now, cf, src);
      assert LastTime(evs[1..], evs[0].now) == LastTime(evs, t);
      BoundedChain(book, t, out, b, evs[0].now, rest, c, LastTime(evs, t), cf, src);
    }
  }

  lemma LevelBound(book: Book, src: Source, t: real, cf: Config)
    requires cf.Sane() && SoundBook(book, t, cf)
    ensures 0.0 <= LevelAt(book, src, t, cf) < cf.size + 1.0
  {
    if src in book {
      LeakLess(book[src].level, t - book[src].last, cf.rate);
    }
  }

  /** Over any window [s, t] of any run, from any reachable book, fewer than
      size + 1 + rate * (t - s) requests of one source reach the child. */
  lemma RateBound(book: Book, evs: seq<Event>, s: real, t: real, cf: Config, src: Source)
    requires cf.Sane() && SoundBook(book, s, cf) && InOrder(evs, s) && LastTime(evs, s) <= t
    ensures |Sent(Run(book, evs, cf).1, src)| as real < cf.size + 1.0 + cf.rate * (t - s)
  {
    hide Run, LevelAt, SoundBook, InOrder, LastTime, Sent;
    var (b, out) := Run(book, evs, cf);
    var u := LastTime(evs, s);
    RunBound(book, evs, s, cf, src);
    LevelBound(book, src, s, cf);
    LevelBound(b, src, u, cf);
    EarnedSum(cf.rate, u - s, t - u);
    EarnedPos(cf.rate, t - u);
    assert (u - s) + (t - u) == t - s;
    assert |Sent(out, src)| as real < cf.size + 1.0 + Earned(cf.rate, t - s) by {
      hide Earned;
    }
  }

  /** Two arrivals at one reading of the clock fill a limiter of size 1 and
      leave a waiter, who is due at that very reading. */
  lemma FullAtOnce(src: Source, w1: Waiting, w2: Waiting, cf: Config)
    requires cf.Sane() && cf.size == 1.0 && cf.brimsize >= 1
    ensures var b := Run(map[], [Arrive(0.0, src, w1), Arrive(0.0, src, w2)], cf).0;
      Get(b, src, 0.0) == Account(cf.size, 0.0, [w2])
  {
    var evs := [Arrive(0.0, src, w1), Arrive(0.0, src, w2)];
    var b := Step(map[], evs[0], cf).0;
    assert b[src] == Account(1.0, 0.0, []);
    assert Step(b, evs[1], cf).0[src] == Account(1.0, 0.0, [w2]);
    assert evs == [evs[0]] + [evs[1]];
    RunOne(map[], evs[0], cf);
    RunSnoc(map[], [evs[0]], evs[1], cf);
  }

  // ----- Who is let in -----

  /** What an event does, told by what was read off before and after: `level`
      is what has not leaked away yet, and out the actions.
      - The first waiters leave, as many as it takes to fill the bucket, or all.
      - A newcomer passes exactly if there is room for it behind all waiters; it
        is refused exactly if there is no room and the brim is full.
      - Each request sent adds one to the level, and no other source is touched. */
  ghost predicate Fair(a: Book, ev: Event, out: seq<Act>, b: Book, cf: Config) {
    exists k: nat :: FairWith(a, ev, out, b, cf, k)
  }

  /** ... k waiters leaving. */
  ghost predicate FairWith(a: Book, ev: Event, out: seq<Act>, b: Book, cf: Config, k: nat) {
    var src, level, q := ev.src, LevelAt(a, ev.src, ev.now, cf), Queue(a, ev.src);
    && k <= |q| && Elsewhere(a, b, src)
    && (k < |q| ==> level + k as real >= cf.size)
    && (k > 0 ==> level + (k - 1) as real < cf.size)
    &&
    var rest := q[k..];
    match ev
    case Wake(_, _) =>
      out == Releases(src, q[..k]) && Stands(b, src, level + k as real, ev.now, rest)
    case Arrive(_, _, w) =>
      if level + |q| as real < cf.size then
        out == Releases(src, q[..k]) + [Pass(src, w)] && Stands(b, src, level + k as real + 1.0, ev.now, [])
      else if |rest| < cf.brimsize then
        out == Releases(src, q[..k]) + [Hold(src, w)] && Stands(b, src, level + k as real, ev.now, rest + [w])
      else
        out == Releases(src, q[..k]) + [Refuse(src, w)] && Stands(b, src, level + k as real, ev.now, rest)
  }

  ghost predicate Stands(b: Book, src: Source, level: real, t: real, q: seq<Waiting>) {
    src in b && b[src] == Account(level, t, q)
  }

  ghost predicate Elsewhere(a: Book, b: Book, src: Source) {
    b.Keys == a.Keys + {src} && forall s :: s in a && s != src ==> b[s] == a[s]
  }

  lemma StepFair(book: Book, ev: Event, t: real, cf: Config)
    requires cf.Sane() && SoundBook(book, t, cf) && t <= ev.now
    ensures Fair(book, ev, Step(book, ev, cf).1, Step(book, ev, cf).0, cf)
  {
    hide Leak, Released, SoundBook, Releases, Settle, LetGo, LevelAt, Queue, Get;
    var src, now := ev.src, ev.now;
    var level, q := LevelAt(book, src, now, cf), Queue(book, src);
    var a, k := Get(book, src, now), Released(level, |q|, cf.size);
    ReleasedLeast(level, |q|, cf.size);
    SettleIs(book, src, now, cf);
    assert FairWith(book, ev, Step(book, ev, cf).1, Step(book, ev, cf).0, cf, k);
  }

  /** Settling, told by level and queue. */
  lemma SettleIs(book: Book, src: Source, t: real, cf: Config)
    ensures var a, level, q := Get(book, src, t), LevelAt(book, src, t, cf), Queue(book, src);
      var k := Released(level, |q|, cf.size);
      LetGo(a, t, cf) == q[..k] && Settle(a, t, cf) == Account(level + k as real, t, q[k..])
  {
    FreshLeak(book, src, t, cf);
    LetGoFirst(Get(book, src, t), t, cf);
  }

  lemma FreshLeak(book: Book, src: Source, t: real, cf: Config)
    ensures var a := Get(book, src, t);
      a.queue == Queue(book, src) && Leak(a.level, t - a.last, cf.rate) == LevelAt(book, src, t, cf)
  {
  }

  /** So it goes for every event of a run. */
  ghost predicate AllFair(book: Book, evs: seq<Event>, cf: Config) {
    forall i :: 0 <= i < |evs| ==> FairAt(book, evs, i, cf)
  }

  ghost predicate FairAt(book: Book, evs: seq<Event>, i: nat, cf: Config)
    requires i < |evs|
  {
    var (a, before) := Run(book, evs[..i], cf);
    var (b, after) := Run(book, evs[..i + 1], cf);
    before <= after && Fair(a, evs[i], after[|before|..], b, cf)
  }

  /** Every run is fair, event by event. */
  lemma RunFair(book: Book, evs: seq<Event>, t: real, cf: Config)
    requires cf.Sane() && SoundBook(book, t, cf) && InOrder(evs, t)
    ensures AllFair(book, evs, cf)
  {
    hide Run, Step, Fair, SoundBook, InOrder, LastTime;
    forall i | 0 <= i < |evs| ensures FairAt(book, evs, i, cf) {
      InOrderSplit(evs, t, i);
      RunBound(book, evs[..i], t, cf, evs[i].src);
      assert evs[..i + 1] == evs[..i] + [evs[i]];
      RunSnoc(book, evs[..i], evs[i], cf);
      StepFair(Run(book, evs[..i], cf).0, evs[i], LastTime(evs[..i], t), cf);
    }
  }

  lemma {:induction false} InOrderSplit(evs: seq<Event>, t: real, i: nat)
    requires InOrder(evs, t) && i < |evs|
    ensures InOrder(evs[..i], t) && LastTime(evs[..i], t) <= evs[i].now
    decreases i
  {
    if i > 0 {
      InOrderSplit(evs[1..], evs[0].now, i - 1);
      TailSplit(evs, i);
      assert LastTime(evs[..i], t) == LastTime(evs[1..][..i - 1], evs[0].now);
    }
  }

  /** In a fair run, a request that comes when nobody waits and there is room
      reaches the child at once. */
  lemma RoomPasses(book: Book, evs: seq<Event>, i: nat, cf: Config)
    requires i < |evs| && FairAt(book, evs, i, cf) && evs[i].Arrive?
    requires var b := Run(book, evs[..i], cf).0;
      Queue(b, evs[i].src) == [] && LevelAt(b, evs[i].src, evs[i].now, cf) < cf.size
    ensures Run(book, evs[..i + 1], cf).1 == Run(book, evs[..i], cf).1 + [Pass(evs[i].src, evs[i].w)]
  {
    hide Run, LevelAt;
    var before, after := Run(book, evs[..i], cf).1, Run(book, evs[..i + 1], cf).1;
    assert Releases(evs[i].src, []) == [];
    Unit([Pass(evs[i].src, evs[i].w)]);
    assert after == before + after[|before|..];
  }

  // ----- Forgetting -----

  /** `small` is `big` with some idle accounts left out. */
  ghost predicate Forgets(small: Book, big: Book) {
    && small.Keys <= big.Keys
    && (forall src :: src in small ==> big[src] == small[src])
    && (forall src :: src in big && src !in small ==> big[src].level == 0.0 && big[src].queue == [])
  }

  /** An idle account settles like a new one. */
  lemma IdleSettles(a: Account, now: real, cf: Config)
    requires cf.Sane() && a.level == 0.0 && a.queue == [] && a.last <= now
    ensures Settle(a, now, cf) == Settle(Account(0.0, now, []), now, cf) == Account(0.0, now, [])
    ensures LetGo(a, now, cf) == LetGo(Account(0.0, now, []), now, cf) == []
  {
    assert (now - a.last) * cf.rate >= 0.0;
  }

  lemma ForgetSettle(small: Book, big: Book, src: Source, now: real, t: real, cf: Config)
    requires cf.Sane() && Forgets(small, big) && SoundBook(big, t, cf) && t <= now
    ensures Settle(Get(small, src, now), now, cf) == Settle(Get(big, src, now), now, cf)
    ensures LetGo(Get(small, src, now), now, cf) == LetGo(Get(big, src, now), now, cf)
  {
    if src !in small && src in big {
      IdleSettles(big[src], now, cf);
    }
  }

  lemma ForgetSet(small: Book, big: Book, src: Source, c: Account)
    requires Forgets(small, big)
    ensures Forgets(small[src := c], big[src := c])
  {
  }

  /** A source whose idle account was dropped is treated as before. */
  lemma ForgetStep(small: Book, big: Book, ev: Event, t: real, cf: Config)
    requires cf.Sane() && Forgets(small, big) && SoundBook(big, t, cf) && t <= ev.now
    ensures Step(small, ev, cf).1 == Step(big, ev, cf).1
    ensures Forgets(Step(small, ev, cf).0, Step(big, ev, cf).0)
  {
    ForgetSettle(small, big, ev.src, ev.now, t, cf);
    hide Settle, LetGo, Handle, SoundBook, Get, Forgets;
    var a := Get(big, ev.src, ev.now);
    ForgetSet(small, big, ev.src, Handle(Settle(a, ev.now, cf), LetGo(a, ev.now, cf), ev, cf).0);
  }

  predicate IdleAccount(a: Account) {
    a.level == 0.0 && a.queue == []
  }

  /** The book without those of some sources whose account is idle. */
  function Thin(book: Book, drop: set<Source>): Book {
    book - (set src | src in drop && src in book && IdleAccount(book[src]))
  }

  /** A run that forgets idle accounts, any of them, after every event. */
  function RunThin(book: Book, evs: seq<Event>, drops: seq<set<Source>>, cf: Config): (Book, seq<Act>)
    requires |drops| == |evs|
    decreases |evs|
  {
    if evs == [] then (book, []) else
      var (b, out) := Step(book, evs[0], cf);
      var (c, rest) := RunThin(Thin(b, drops[0]), evs[1..], drops[1..], cf);
      (c, out + rest)
  }

  lemma ForgetThin(small: Book, big: Book, drop: set<Source>)
    requires Forgets(small, big)
    ensures Forgets(Thin(small, drop), big)
  {
  }

  /** Forgetting cannot be noticed: over every run, whichever idle accounts
      are dropped and whenever, exactly the same is done. */
  lemma {:induction false} ForgetRun(small: Book, big: Book, evs: seq<Event>, drops: seq<set<Source>>, t: real,
    cf: Config)
    requires cf.Sane() && Forgets(small, big) && SoundBook(big, t, cf) && InOrder(evs, t) && |drops| == |evs|
    ensures RunThin(small, evs, drops, cf).1 == Run(big, evs, cf).1
    ensures Forgets(RunThin(small, evs, drops, cf).0, Run(big, evs, cf).0)
    decreases |evs|
  {
    hide Step, Thin, Forgets, SoundBook;
    if evs != [] {
      ForgetStep(small, big, evs[0], t, cf);
      StepSound(big, evs[0], t, cf);
      var b := Step(small, evs[0], cf).0;
      ForgetThin(b, Step(big, evs[0], cf).0, drops[0]);
      ForgetRun(Thin(b, drops[0]), Step(big, evs[0], cf).0, evs[1..], drops[1..], evs[0].now, cf);
    }
  }
}
