// The coroutine pipe of lib/mtio.c as a machine whose steps run from one
// coroutine switch to the next, and what every run of it keeps.
module PipeSteps {
  import opened Numbers
  import opened Octets
  import opened Seqs

  /** A suspended coroutine with what it asked for. */
  datatype Waiter<T> = NoOne | Waiting(request: T)

  /** Who runs next: a coroutine just resumed does so at once. */
  datatype Turn = Anyone | Reader | Writer

  datatype State = State(
    data: Bytes,            // the buffer
    closed1: bool,          // `closed & 1`: the reader closed first
    closed2: bool,          // `closed & 2`: the writer closed first
    r: Waiter<nat>,         // how many bytes the waiting reader wants
    w: Waiter<Bytes>,       // what the waiting writer offers
    turn: Turn,
    readable: bool,         // the reading end is still in use
    writable: bool,         // the writing end is still in use
    frees: nat,             // how often the pipe was freed
    read: Bytes,            // everything handed out
    written: Bytes)         // everything accepted

  datatype Act = Read(len: nat) | ReadOn | CloseRead | Write(buf: Bytes) | WriteOn | CloseWrite

  datatype Out = Got(bytes: Bytes) | Eof | Took(n: nat) | Busy | Broken | Yields | Done

  const INIT := State([], false, false, NoOne, NoOne, Anyone, true, true, 0, [], [])

  /** Whether coroutines that close an end once, and then leave it alone, may
      take a step. */
  predicate Allowed(s: State, a: Act) {
    match a
    case Read(_) => s.turn == Anyone && s.readable
    case CloseRead => s.turn == Anyone && s.readable
    case Write(_) => s.turn == Anyone && s.writable
    case CloseWrite => s.turn == Anyone && s.writable
    case ReadOn => s.turn == Reader && s.r.Waiting?
    case WriteOn => s.turn == Writer && s.w.Waiting?
  }

  /** The loop of `piperead`, until it returns or yields. */
  function ReadLoop(s: State, len: nat): (State, Out) {
    if s.data == [] then
      if s.closed2 then (s, Eof)
      else if s.r.Waiting? then (s, Busy)
      else (s.(r := Waiting(len)), Yields)
    else
      var n := Min(len, |s.data|);
      var turn := if s.w.Waiting? then Writer else Anyone;
      (s.(data := s.data[n..], read := s.read + s.data[..n], turn := turn), Got(s.data[..n]))
  }

  /** The loop of `pipewrite`. */
  function WriteLoop(s: State, buf: Bytes, max: nat): (State, Out) {
    if |s.data| >= max then
      if s.w.Waiting? then (s, Busy) else (s.(w := Waiting(buf)), Yields)
    else
      var n := Min(|buf|, max - |s.data|);
      var turn := if s.r.Waiting? then Reader else Anyone;
      (s.(data := s.data + buf[..n], written := s.written + buf[..n], turn := turn), Took(n))
  }

  function Step(s: State, a: Act, max: nat): (State, Out)
    requires Allowed(s, a)
  {
    match a
    case Read(len) => ReadLoop(s, len)
    case ReadOn => ReadLoop(s.(r := NoOne, turn := Anyone), s.r.request)
    case Write(buf) => if s.closed1 then (s, Broken) else WriteLoop(s, buf, max)
    case WriteOn =>
      var s1 := s.(w := NoOne, turn := Anyone);
      if s.closed1 then (s1, Broken) else WriteLoop(s1, s.w.request, max)
    case CloseRead =>
      if s.closed2 then (s.(frees := s.frees + 1, readable := false), Done)
      else (s.(closed1 := true, readable := false, turn := if s.w.Waiting? then Writer else Anyone), Done)
    case CloseWrite =>
      if s.closed1 then (s.(frees := s.frees + 1, writable := false), Done)
      else (s.(closed2 := true, writable := false, turn := if s.r.Waiting? then Reader else Anyone), Done)
  }

  // ----- What every step keeps -----

  /** A reader that yielded and has not been resumed. */
  predicate ReaderSleeps(s: State) {
    s.r.Waiting? && s.turn != Reader
  }

  predicate WriterSleeps(s: State) {
    s.w.Waiting? && s.turn != Writer
  }

  predicate Inv(s: State, max: nat) {
    && s.read + s.data == s.written && |s.data| <= max
    && s.frees == (if s.readable || s.writable then 0 else 1)
    && (s.closed1 ==> !s.readable) && (s.closed2 ==> !s.writable) && !(s.closed1 && s.closed2)
    && (!s.readable && s.writable ==> s.closed1) && (!s.writable && s.readable ==> s.closed2)
    && (s.turn == Reader ==> s.r.Waiting? && !s.w.Waiting?) && (s.turn == Writer ==> s.w.Waiting? && !s.r.Waiting?)
    && (s.turn != Anyone ==> s.frees == 0)
    && (s.frees == 0 && ReaderSleeps(s) ==> s.data == [] && !s.closed2)
    && (s.frees == 0 && WriterSleeps(s) ==> |s.data| == max && !s.closed1)
  }

  lemma StepKeeps(s: State, a: Act, max: nat)
    requires Inv(s, max) && Allowed(s, a) && max > 0
    ensures Inv(Step(s, a, max).0, max)
  {
    match a
    case Read(len) => ReadKeeps(s, len);
    case ReadOn => ReadKeeps(s.(r := NoOne, turn := Anyone), s.r.request);
    case Write(buf) => Assoc(s.read, s.data, buf[..Min(|buf|, max - |s.data|)]);
    case WriteOn => Assoc(s.read, s.data, s.w.request[..Min(|s.w.request|, max - |s.data|)]);
    case CloseRead =>
    case CloseWrite =>
  }

  lemma ReadKeeps(s: State, len: nat)
    ensures var t := ReadLoop(s, len).0; t.read + t.data == s.read + s.data
  {
    var n := Min(len, |s.data|);
    assert s.data == s.data[..n] + s.data[n..];
    Assoc(s.read, s.data[..n], s.data[n..]);
  }

  // ----- What a step answers -----

  /** What a read, asked for len bytes, answers, given who waits to read but
      the one who asks: what it hands out leaves the front of the buffer, and
      is as much as there is and was asked for; a waiting writer then goes on. */
  ghost predicate ReadAnswers(s: State, len: nat, others: Waiter<nat>, t: State, out: Out) {
    && t.written == s.written && t.w == s.w
    && t.r == (if out == Yields then Waiting(len) else others)
    && t.turn == (if out.Got? && s.w.Waiting? then Writer else Anyone)
    && if s.data != [] then
         && out.Got? && t.read == s.read + out.bytes && out.bytes + t.data == s.data
         && |out.bytes| <= len && (t.data != [] ==> |out.bytes| == len)
       else
         && t.read == s.read && t.data == s.data
         && out == if s.closed2 then Eof else if others.Waiting? then Busy else Yields
  }

  /** What a write, offered buf, answers: as much as it reports has joined the
      end of the buffer, and is as much as fits; a waiting reader then goes on. */
  ghost predicate WriteAnswers(s: State, buf: Bytes, others: Waiter<Bytes>, t: State, out: Out, max: nat) {
    && t.read == s.read && t.r == s.r
    && t.w == (if out == Yields then Waiting(buf) else others)
    && t.turn == (if out.Took? && s.r.Waiting? then Reader else Anyone)
    && if !s.closed1 && |s.data| < max then
         && out.Took? && out.n <= |buf| && t.written == s.written + buf[..out.n] && t.data == s.data + buf[..out.n]
         && |t.data| <= max && (out.n < |buf| ==> |t.data| == max)
       else
         && t.written == s.written && t.data == s.data
         && out == if s.closed1 then Broken else if others.Waiting? then Busy else Yields
  }

  /** Every step of every run answers so. */
  ghost predicate Answers(s: State, a: Act, t: State, out: Out, max: nat)
    requires Allowed(s, a)
  {
    match a
    case Read(len) => ReadAnswers(s, len, s.r, t, out)
    case ReadOn => ReadAnswers(s, s.r.request, NoOne, t, out)
    case Write(buf) => WriteAnswers(s, buf, s.w, t, out, max)
    case WriteOn => WriteAnswers(s, s.w.request, NoOne, t, out, max)
    case CloseRead => out == Done && t.read == s.read && t.written == s.written && t.data == s.data && !t.readable
    case CloseWrite => out == Done && t.read == s.read && t.written == s.written && t.data == s.data && !t.writable
  }

  lemma StepAnswers(s: State, a: Act, max: nat)
    requires Allowed(s, a)
    ensures Answers(s, a, Step(s, a, max).0, Step(s, a, max).1, max)
  {
    hide ReadLoop, WriteLoop, ReadAnswers, WriteAnswers;
    match a
    case Read(len) => ReadLoopAnswers(s, len);
    case ReadOn => ReadOnAnswers(s);
    case Write(buf) => WriteOrBroken(s, buf, max);
    case WriteOn => WriteOnAnswers(s, max);
    case CloseRead =>
    case CloseWrite =>
  }

  lemma ReadLoopAnswers(s: State, len: nat)
    requires s.turn == Anyone
    ensures ReadAnswers(s, len, s.r, ReadLoop(s, len).0, ReadLoop(s, len).1)
  {
    Cut(s.data, Min(len, |s.data|));
  }

  lemma ReadOnAnswers(s: State)
    requires s.r.Waiting?
    ensures var (t, out) := ReadLoop(s.(r := NoOne, turn := Anyone), s.r.request);
      ReadAnswers(s, s.r.request, NoOne, t, out)
  {
    ReadLoopAnswers(s.(r := NoOne, turn := Anyone), s.r.request);
  }

  lemma WriteOrBroken(s: State, buf: Bytes, max: nat)
    requires s.turn == Anyone
    ensures var (t, out) := if s.closed1 then (s, Broken) else WriteLoop(s, buf, max);
      WriteAnswers(s, buf, s.w, t, out, max)
  {
    FrontOf(buf, max - |s.data|);
  }

  lemma WriteOnAnswers(s: State, max: nat)
    requires s.w.Waiting?
    ensures var s1 := s.(w := NoOne, turn := Anyone);
      var (t, out) := if s.closed1 then (s1, Broken) else WriteLoop(s1, s.w.request, max);
      WriteAnswers(s, s.w.request, NoOne, t, out, max)
  {
    WriteOrBroken(s.(w := NoOne, turn := Anyone), s.w.request, max);
  }

  lemma Cut(d: Bytes, n: nat)
    requires n <= |d|
    ensures d[..n] + d[n..] == d
  {
  }

  lemma FrontOf(buf: Bytes, room: int)
    ensures room > 0 ==> |buf[..Min(|buf|, room)]| == Min(|buf|, room)
  {
  }

  // ----- Runs -----

  predicate Legal(s: State, acts: seq<Act>, max: nat)
    decreases |acts|
  {
    acts == [] || (Allowed(s, acts[0]) && Legal(Step(s, acts[0], max).0, acts[1..], max))
  }

  function Run(s: State, acts: seq<Act>, max: nat): State
    requires Legal(s, acts, max)
    decreases |acts|
  {
    if acts == [] then s else Run(Step(s, acts[0], max).0, acts[1..], max)
  }

  lemma {:induction false} RunKeeps(s: State, acts: seq<Act>, max: nat)
    requires Inv(s, max) && Legal(s, acts, max) && max > 0
    ensures Inv(Run(s, acts, max), max)
    decreases |acts|
  {
    if acts != [] {
      StepKeeps(s, acts[0], max);
      RunKeeps(Step(s, acts[0], max).0, acts[1..], max);
    }
  }

  /** After any run: nothing is lost, reordered or invented, the buffer stays
      within its bound, no two sides sleep at once, and a sleeping side of a
      live pipe has a reason to. */
  lemma Safe(acts: seq<Act>, max: nat)
    requires Legal(INIT, acts, max) && max > 0
    ensures var s := Run(INIT, acts, max);
      && s.read + s.data == s.written && |s.data| <= max
      && (s.frees == 0 ==> !(ReaderSleeps(s) && WriterSleeps(s)))
      && (s.frees == 0 && ReaderSleeps(s) ==> s.read == s.written && !s.closed2)
      && (s.frees == 0 && WriterSleeps(s) ==> |s.data| == max && !s.closed1)
  {
    RunKeeps(INIT, acts, max);
  }

  /** The pipe is freed once, by the second close, and no step that may still
      be taken touches it afterwards. */
  lemma FreedOnce(acts: seq<Act>, a: Act, max: nat)
    requires Legal(INIT, acts, max) && max > 0
    ensures var s := Run(INIT, acts, max);
      && s.frees == (if s.readable || s.writable then 0 else 1)
      && (Allowed(s, a) ==> s.frees == 0)
  {
    RunKeeps(INIT, acts, max);
  }

  /** End of file means that the writer closed and everything was read. */
  lemma EofMeans(acts: seq<Act>, a: Act, max: nat)
    requires Legal(INIT, acts, max) && max > 0 && Allowed(Run(INIT, acts, max), a)
    ensures var s := Run(INIT, acts, max);
      Step(s, a, max).1 == Eof ==> s.closed2 && s.read == s.written && AtEnd(Step(s, a, max).0)
  {
    RunKeeps(INIT, acts, max);
    StepKeeps(Run(INIT, acts, max), a, max);
  }

  /** Nothing is left to read and nothing can come. */
  predicate AtEnd(s: State) {
    s.data == [] && !s.writable && s.read == s.written && (s.frees == 0 ==> !s.w.Waiting?)
  }

  /** Nothing is ever accepted, or read, after the end of file. */
  lemma {:induction false} EofStays(s: State, acts: seq<Act>, max: nat)
    requires Inv(s, max) && AtEnd(s) && Legal(s, acts, max) && max > 0
    ensures AtEnd(Run(s, acts, max)) && Run(s, acts, max).written == s.written
    decreases |acts|
  {
    if acts != [] {
      StepKeeps(s, acts[0], max);
      EofStays(Step(s, acts[0], max).0, acts[1..], max);
    }
  }

  /** A write to a pipe with a sleeping reader hands it over at once: the
      reader gets the front of what was written. */
  lemma WriteWakes(s: State, buf: Bytes, max: nat)
    requires Inv(s, max) && Allowed(s, Write(buf)) && ReaderSleeps(s) && !s.closed1 && buf != [] && max > 0
    ensures var t := Step(s, Write(buf), max).0;
      && Allowed(t, ReadOn) && Step(s, Write(buf), max).1 == Took(Min(|buf|, max))
      && Step(t, ReadOn, max).1 == Got(buf[..Min(Min(|buf|, max), s.r.request)])
  {
    var k := Min(|buf|, max);
    assert [] + buf[..k] == buf[..k];
    assert buf[..k][..Min(k, s.r.request)] == buf[..Min(k, s.r.request)];
  }

  /** Reading from a full pipe lets the sleeping writer go on at once, and it
      does not have to yield again. */
  lemma ReadWakes(s: State, len: nat, max: nat)
    requires Inv(s, max) && Allowed(s, Read(len)) && WriterSleeps(s) && len > 0 && max > 0
    ensures var t := Step(s, Read(len), max).0;
      && Allowed(t, WriteOn) && Step(s, Read(len), max).1 == Got(s.data[..Min(len, max)])
      && Step(t, WriteOn, max).1 == Took(Min(|s.w.request|, Min(len, max)))
  {
  }

  /** Closing either end wakes whoever sleeps at the other: a reader sees the
      end of file, a writer a broken pipe. */
  lemma CloseWakes(s: State, max: nat)
    requires Inv(s, max) && s.turn == Anyone && max > 0
    ensures ReaderSleeps(s) && s.writable && s.readable ==>
      var t := Step(s, CloseWrite, max).0; Allowed(t, ReadOn) && Step(t, ReadOn, max).1 == Eof
    ensures WriterSleeps(s) && s.readable && s.writable ==>
      var t := Step(s, CloseRead, max).0; Allowed(t, WriteOn) && Step(t, WriteOn, max).1 == Broken
  {
  }

  /** Everything handed out in a run, put together. */
  ghost function Received(s: State, acts: seq<Act>, max: nat): Bytes
    requires Legal(s, acts, max)
    decreases |acts|
  {
    if acts == [] then [] else
      var (t, out) := Step(s, acts[0], max);
      (if out.Got? then out.bytes else []) + Received(t, acts[1..], max)
  }

  /** The fronts of what was offered, as long as was reported, put together. */
  ghost function Reported(s: State, acts: seq<Act>, max: nat): Bytes
    requires Legal(s, acts, max)
    decreases |acts|
  {
    if acts == [] then [] else
      var (t, out) := Step(s, acts[0], max);
      Share(s, acts[0], out) + Reported(t, acts[1..], max)
  }

  function Share(s: State, a: Act, out: Out): Bytes {
    var buf := if a.Write? then a.buf else if a.WriteOn? && s.w.Waiting? then s.w.request else [];
    if out.Took? && out.n <= |buf| then buf[..out.n] else []
  }

  /** A run's readers have been handed exactly what was read, and its writers
      told exactly what was accepted. */
  lemma {:induction false} RunAnswers(s: State, acts: seq<Act>, max: nat)
    requires Legal(s, acts, max)
    ensures Run(s, acts, max).read == s.read + Received(s, acts, max)
    ensures Run(s, acts, max).written == s.written + Reported(s, acts, max)
    decreases |acts|
  {
    Unit(s.read);
    Unit(s.written);
    if acts != [] {
      var (t, out) := Step(s, acts[0], max);
      StepAnswers(s, acts[0], max);
      RunAnswers(t, acts[1..], max);
      Assoc(s.read, if out.Got? then out.bytes else [], Received(t, acts[1..], max));
      Assoc(s.written, Share(s, acts[0], out), Reported(t, acts[1..], max));
    }
  }

  /** What the readers got is the front of what the writers were told. */
  lemma Delivered(acts: seq<Act>, max: nat)
    requires Legal(INIT, acts, max) && max > 0
    ensures Received(INIT, acts, max) <= Reported(INIT, acts, max)
    ensures |Reported(INIT, acts, max)| <= |Received(INIT, acts, max)| + max
  {
    RunKeeps(INIT, acts, max);
    RunAnswers(INIT, acts, max);
    Unit(Received(INIT, acts, max));
    Unit(Reported(INIT, acts, max));
  }
}
