// The schedule of the request limiter, on values: the state of every bucket
// that is kept, and which of them a reading of the clock wakes.
module Schedule {
  import opened Buckets
  import opened LeakyBucket
  import opened PlainLimiter
  import opened Seqs

  /** The fields of the buckets kept, by source. */
  type Kept = map<Source, State>

  /** A source's bucket, or the one `hashget` would make at time t. */
  function BucketOf(kept: Kept, src: Source, t: real): State {
    if src in kept then kept[src] else State(0.0, t, t, 0.0, [], -1)
  }

  /** What `serve` does to a bucket it has just ticked. */
  function Judged(s: State, w: Waiting, t: real, cf: Config): State {
    if s.level < cf.size then s.(level := s.level + 1.0)
    else if |s.brim| < cf.brimsize then s.(brim := s.brim + [w])
    else if s.blocked < 0 then s.(blocked := 1, wtime := t)
    else s.(blocked := s.blocked + 1)
  }

  /** The buckets kept after an event. */
  function Move(kept: Kept, ev: Event, cf: Config): Kept
    requires cf.rate > 0.0
  {
    var s := Tick(BucketOf(kept, ev.src, ev.now), ev.now, cf);
    match ev
    case Arrive(t, src, w) => kept[src := Judged(s, w, t, cf)]
    case Wake(t, src) => if Expired(s, t, cf) then kept - {src} else kept[src := s]
  }

  function Moves(kept: Kept, evs: seq<Event>, cf: Config): Kept
    requires cf.rate > 0.0
  {
    if evs == [] then kept else Move(Moves(kept, evs[..|evs| - 1], cf), evs[|evs| - 1], cf)
  }

  /** What the main loop takes in: requests and readings of the clock. */
  datatype Input = Request(t: real, src: Source, w: Waiting) | Clock(t: real)

  /** A wake-up at time t of a bucket that is due, and due first. */
  ghost predicate Due(kept: Kept, ev: Event, t: real, cf: Config)
    requires cf.rate > 0.0
  {
    && ev == Wake(t, ev.src) && ev.src in kept && Key(kept[ev.src], cf) <= t
    && forall src :: src in kept ==> Key(kept[ev.src], cf) <= Key(kept[src], cf)
  }

  ghost predicate NoneDue(kept: Kept, t: real, cf: Config)
    requires cf.rate > 0.0
  {
    forall src :: src in kept ==> t < Key(kept[src], cf)
  }

  /** Waking any source at time t, kept or long forgotten, would send nothing. */
  ghost predicate AllQuiet(book: Book, t: real, cf: Config) {
    forall src :: Step(book, Wake(t, src), cf).1 == []
  }

  /** How the events of a run come from its inputs. A request arrives. A
      reading of the clock wakes the bucket that is due first; if none is due,
      it wakes nobody, and nobody could have gone. */
  ghost predicate Scheduled(cf: Config, kept: Kept, book: Book, evs: seq<Event>, inputs: seq<Input>)
    requires cf.rate > 0.0
    decreases |inputs|
  {
    if inputs == [] then evs == [] else
      var input, before := inputs[|inputs| - 1], inputs[..|inputs| - 1];
      || (evs != []
          && Caused(Moves(kept, evs[..|evs| - 1], cf), evs[|evs| - 1], input, cf)
          && Scheduled(cf, kept, book, evs[..|evs| - 1], before))
      || (input.Clock?
          && NoneDue(Moves(kept, evs, cf), input.t, cf) && AllQuiet(Run(book, evs, cf).0, input.t, cf)
          && Scheduled(cf, kept, book, evs, before))
  }

  ghost predicate Caused(kept: Kept, ev: Event, input: Input, cf: Config)
    requires cf.rate > 0.0
  {
    match input
    case Request(t, src, w) => ev == Arrive(t, src, w)
    case Clock(t) => Due(kept, ev, t, cf)
  }

  lemma MovesSnoc(kept: Kept, evs: seq<Event>, ev: Event, cf: Config)
    requires cf.rate > 0.0
    ensures Moves(kept, evs + [ev], cf) == Move(Moves(kept, evs, cf), ev, cf)
  {
    assert (evs + [ev])[..|evs|] == evs;
  }

  lemma ScheduledStep(cf: Config, kept: Kept, book: Book, evs: seq<Event>, inputs: seq<Input>, ev: Event, input: Input)
    requires cf.rate > 0.0 && Scheduled(cf, kept, book, evs, inputs) && Caused(Moves(kept, evs, cf), ev, input, cf)
    ensures Scheduled(cf, kept, book, evs + [ev], inputs + [input])
  {
    hide Moves, Caused, NoneDue, AllQuiet, Run;
    assert (evs + [ev])[..|evs|] == evs && (inputs + [input])[..|inputs|] == inputs;
  }

  lemma ScheduledIdle(cf: Config, kept: Kept, book: Book, evs: seq<Event>, inputs: seq<Input>, input: Input)
    requires cf.rate > 0.0 && Scheduled(cf, kept, book, evs, inputs) && input.Clock?
    requires NoneDue(Moves(kept, evs, cf), input.t, cf) && AllQuiet(Run(book, evs, cf).0, input.t, cf)
    ensures Scheduled(cf, kept, book, evs, inputs + [input])
  {
    hide Moves, Caused, NoneDue, AllQuiet, Run;
    assert (inputs + [input])[..|inputs|] == inputs;
  }

  /** The requests among some inputs, as arrivals. */
  function Requests(inputs: seq<Input>): seq<Event> {
    if inputs == [] then []
    else Requests(inputs[..|inputs| - 1]) + RequestOf(inputs[|inputs| - 1])
  }

  function RequestOf(input: Input): seq<Event> {
    match input
    case Request(t, src, w) => [Arrive(t, src, w)]
    case Clock(_) => []
  }

  /** The arrivals of a run are its requests, in order. */
  lemma {:induction false} AllArrive(cf: Config, kept: Kept, book: Book, evs: seq<Event>, inputs: seq<Input>)
    requires cf.rate > 0.0 && Scheduled(cf, kept, book, evs, inputs)
    ensures Arrivals(evs) == Requests(inputs)
    decreases |inputs|
  {
    hide Moves, NoneDue, AllQuiet, Run;
    if inputs != [] {
      var input, before := inputs[|inputs| - 1], inputs[..|inputs| - 1];
      if evs != [] && Caused(Moves(kept, evs[..|evs| - 1], cf), evs[|evs| - 1], input, cf)
         && Scheduled(cf, kept, book, evs[..|evs| - 1], before) {
        AllArrive(cf, kept, book, evs[..|evs| - 1], before);
      } else {
        AllArrive(cf, kept, book, evs, before);
        Unit(Requests(before));
      }
    }
  }

  // ----- Reports of refusals -----

  function AcctOf(s: State): Account {
    Account(s.level, s.last, s.brim)
  }

  /** Ticking a bucket settles its account. */
  lemma TickSettles(s: State, now: real, cf: Config)
    requires cf.rate > 0.0
    ensures AcctOf(Tick(s, now, cf)) == Settle(AcctOf(s), now, cf)
  {
  }

  /** The buckets kept have the accounts of the book, and others are idle. */
  ghost predicate Coupled(kept: Kept, book: Book) {
    && (forall src :: src in kept ==> src in book && book[src] == AcctOf(kept[src]))
    && (forall src :: src in book && src !in kept ==> IdleAccount(book[src]))
  }

  /** How many refusals of a source an event reports. */
  function ReportedBy(kept: Kept, ev: Event, src: Source, cf: Config): nat {
    var s := BucketOf(kept, ev.src, ev.now);
    if ev.src == src && Reports(s, ev.now, cf) then s.blocked else 0
  }

  function Reported(kept: Kept, evs: seq<Event>, src: Source, cf: Config): nat
    requires cf.rate > 0.0
  {
    if evs == [] then 0 else
      var before := evs[..|evs| - 1];
      Reported(kept, before, src, cf) + ReportedBy(Moves(kept, before, cf), evs[|evs| - 1], src, cf)
  }

  /** How many have not been reported yet. */
  function Unreported(kept: Kept, src: Source): nat {
    if src in kept && kept[src].blocked > 0 then kept[src].blocked else 0
  }

  /** How many requests of a source some actions refuse. */
  function Refused(out: seq<Act>, src: Source): nat {
    |Pick(out, src, Turned)|
  }

  lemma MoveCoupled(kept: Kept, book: Book, ev: Event, t: real, cf: Config)
    requires cf.Sane() && Coupled(kept, book) && SoundBook(book, t, cf) && t <= ev.now
    ensures Coupled(Move(kept, ev, cf), Step(book, ev, cf).0)
  {
    hide Tick, Settle, LetGo, SoundBook, Leak;
    TickIs(kept, book, ev.src, ev.now, t, cf);
  }

  /** A ticked bucket has the settled account, and can only expire idle. */
  lemma TickIs(kept: Kept, book: Book, src: Source, now: real, t: real, cf: Config)
    requires cf.Sane() && Coupled(kept, book) && SoundBook(book, t, cf) && t <= now
    ensures var s := Tick(BucketOf(kept, src, now), now, cf);
      && AcctOf(s) == Settle(Get(book, src, now), now, cf)
      && (Expired(s, now, cf) ==> IdleAccount(AcctOf(s)))
  {
    hide Tick, Settle, LetGo, Leak, SoundBook, Coupled;
    SoundGet(book, src, now, t, cf);
    TickSettles(BucketOf(kept, src, now), now, cf);
    IdleAccounts(kept, book, src, now, t, cf);
    SettleSound(Get(book, src, now), now, cf);
  }

  lemma SoundGet(book: Book, src: Source, now: real, t: real, cf: Config)
    requires cf.Sane() && SoundBook(book, t, cf) && t <= now
    ensures Sound(Get(book, src, now), cf) && Get(book, src, now).last <= now
  {
  }

  /** A source without a bucket settles like one that was never heard of. */
  lemma IdleAccounts(kept: Kept, book: Book, src: Source, now: real, t: real, cf: Config)
    requires cf.Sane() && Coupled(kept, book) && SoundBook(book, t, cf) && t <= now
    ensures Settle(AcctOf(BucketOf(kept, src, now)), now, cf) == Settle(Get(book, src, now), now, cf)
  {
    if src !in kept && src in book {
      IdleSettles(book[src], now, cf);
    }
  }

  /** One event's share in the count. */
  lemma MoveReports(kept: Kept, book: Book, ev: Event, t: real, src: Source, cf: Config)
    requires cf.Sane() && Coupled(kept, book) && SoundBook(book, t, cf) && t <= ev.now
    ensures Refused(Step(book, ev, cf).1, src) + Unreported(kept, src)
      == ReportedBy(kept, ev, src, cf) + Unreported(Move(kept, ev, cf), src)
  {
    hide Settle, LetGo, SoundBook, Leak, Pick, Step, Tick, Coupled, Reports, Get;
    TickIs(kept, book, ev.src, ev.now, t, cf);
    TickBlocked(BucketOf(kept, ev.src, ev.now), ev.now, cf);
    StepPicks(book, ev, cf, src, Turned);
  }

  lemma TickBlocked(s: State, now: real, cf: Config)
    requires cf.rate > 0.0
    ensures Tick(s, now, cf).blocked == if Reports(s, now, cf) then 0 else s.blocked
    ensures Reports(s, now, cf) ==> s.blocked > 0
  {
  }

  /** Every refusal is counted: over every run, those refused are those that
      have been reported and those that still will be. Buckets are freed only
      when there is nothing left to report. */
  lemma {:induction false} ReportsCount(kept: Kept, book: Book, evs: seq<Event>, t: real, src: Source, cf: Config)
    requires cf.Sane() && Coupled(kept, book) && SoundBook(book, t, cf) && InOrder(evs, t)
    ensures Refused(Run(book, evs, cf).1, src) + Unreported(kept, src)
      == Reported(kept, evs, src, cf) + Unreported(Moves(kept, evs, cf), src)
    ensures Coupled(Moves(kept, evs, cf), Run(book, evs, cf).0)
    decreases |evs|
  {
    hide Step, Move, SoundBook, Coupled, InOrder, LastTime, Unreported, ReportedBy;
    if evs == [] {
      assert Pick([], src, Turned) == [];
    } else {
      var n := |evs| - 1;
      var before := evs[..n];
      InOrderSplit(evs, t, n);
      ReportsCount(kept, book, before, t, src, cf);
      RunBound(book, before, t, cf, src);
      var b, k := Run(book, before, cf).0, Moves(kept, before, cf);
      MoveReports(k, b, evs[n], LastTime(before, t), src, cf);
      MoveCoupled(k, b, evs[n], LastTime(before, t), cf);
      assert evs == before + [evs[n]];
      RunSnoc(book, before, evs[n], cf);
      PickAppend(Run(book, before, cf).1, Step(b, evs[n], cf).1, src, Turned);
    }
  }

  /** Event i reports refusals of its source. */
  predicate ReportsAt(kept: Kept, evs: seq<Event>, i: nat, cf: Config)
    requires cf.rate > 0.0 && i < |evs|
  {
    Reports(BucketOf(Moves(kept, evs[..i], cf), evs[i].src, evs[i].now), evs[i].now, cf)
  }

  /** Nothing reported or first refused since t is due before warnrate later. */
  predicate Since(kept: Kept, src: Source, t: real) {
    src in kept && kept[src].blocked >= 0 ==> kept[src].wtime >= t
  }

  /** Reports on one source are at least warnrate apart, over every run, even
      if its bucket was freed in between. */
  lemma ReportsSpaced(kept: Kept, evs: seq<Event>, from: real, i: nat, j: nat, cf: Config)
    requires cf.Sane() && InOrder(evs, from) && i < j < |evs| && evs[i].src == evs[j].src
    requires ReportsAt(kept, evs, i, cf) && ReportsAt(kept, evs, j, cf)
    ensures evs[j].now - evs[i].now >= cf.warnrate
  {
    hide Tick, Judged;
    SinceReport(kept, evs, from, i, j, cf);
  }

  lemma {:induction false} SinceReport(kept: Kept, evs: seq<Event>, from: real, i: nat, j: nat, cf: Config)
    requires cf.Sane() && InOrder(evs, from) && i < j < |evs| && ReportsAt(kept, evs, i, cf)
    ensures Since(Moves(kept, evs[..j], cf), evs[i].src, evs[i].now)
    decreases j
  {
    hide Reports, Since, Move;
    assert evs[..j][..j - 1] == evs[..j - 1] && evs[..j][j - 1] == evs[j - 1];
    var k := Moves(kept, evs[..j - 1], cf);
    if i < j - 1 {
      SinceReport(kept, evs, from, i, j - 1, cf);
      TimesGrow(evs, from, i, j - 1);
      SinceMove(k, evs[j - 1], evs[i].src, evs[i].now, cf);
    } else {
      SinceNow(k, evs[i], cf);
    }
  }

  lemma SinceMove(kept: Kept, ev: Event, src: Source, t: real, cf: Config)
    requires cf.Sane() && Since(kept, src, t) && t <= ev.now
    ensures Since(Move(kept, ev, cf), src, t)
  {
  }

  lemma SinceNow(kept: Kept, ev: Event, cf: Config)
    requires cf.Sane() && Reports(BucketOf(kept, ev.src, ev.now), ev.now, cf)
    ensures Since(Move(kept, ev, cf), ev.src, ev.now)
  {
  }

  lemma {:induction false} TimesGrow(evs: seq<Event>, from: real, i: nat, j: nat)
    requires InOrder(evs, from) && i <= j < |evs|
    ensures evs[i].now <= evs[j].now
    decreases |evs|
  {
    if j > 0 {
      TimesGrow(evs[1..], evs[0].now, if i == 0 then 0 else i - 1, j - 1);
    }
  }

  /** Refusals that have not been reported make their bucket due by warnrate
      after the first of them or the last report, and are reported then. */
  lemma ReportDue(s: State, now: real, cf: Config)
    requires cf.Sane() && s.blocked > 0 && now >= s.wtime + cf.warnrate
    ensures Key(s, cf) <= now && Reports(s, now, cf)
  {
  }
}
