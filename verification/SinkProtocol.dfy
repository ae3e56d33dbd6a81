/** sink.go: the queue, its producers, and the batching consumer with its bounded retry and its close-and-drain
    protocol, as interleaved atomic steps. */
module SinkProtocol {
  import opened Partition

  const EVENT_OVERHEAD := 26
  const MAX_FLUSH_ATTEMPTS := 3

  datatype Event = Event(message: seq<bv8>, timestamp: int)

  datatype Options = Options(queueSize: int, maxBatchSize: int, maxBatchBytes: int, maxEventBytes: int)

  /** `New` replaces every limit that is not positive by its default. */
  function Normalize(o: Options): Options {
    Options(if o.queueSize <= 0 then 1024 else o.queueSize,
            if o.maxBatchSize <= 0 then 1000 else o.maxBatchSize,
            if o.maxBatchBytes <= 0 then 900 * 1024 else o.maxBatchBytes,
            if o.maxEventBytes <= 0 then 256 * 1024 else o.maxEventBytes)
  }

  predicate Positive(o: Options) {
    o.queueSize > 0 && o.maxBatchSize > 0 && o.maxBatchBytes > 0 && o.maxEventBytes > 0
  }

  type Config = o: Options | Positive(o) witness Options(1, 1, 1, 1)

  datatype Outcome = Success | Retryable | Fatal

  /** One `PutLogEvents` call and its answer. */
  datatype Call = Call(events: seq<Event>, outcome: Outcome)

  datatype Flush = Flush(batch: seq<Event>, calls: seq<Call>)

  /** What the consumer does once the flush in progress is over. */
  datatype Resume = ToLoop | ToAppend(event: Event) | ToExit

  datatype Pc = Select | Drain | Flushing(resume: Resume) | Done

  /** The sink's variables, and the history the results speak about: accepted events, finished flushes, counts of
      enqueue attempts and cancellations, whether a tick was served, and how much was accepted when stop closed. */
  datatype State = State(
    queue: seq<Event>, batch: seq<Event>, batchBytes: nat, calls: seq<Call>, pc: Pc, draining: bool,
    stopped: bool, dropped: nat,
    accepted: seq<Event>, flushed: seq<Flush>, attempts: nat, cancelled: nat, ticked: bool, acceptedAtStop: nat)

  datatype Action =
    | Enqueue(event: Event, cancelled: bool)
    | Stop
    | Receive
    | Tick
    | SeeStop
    | DrainEmpty
    | Put(outcome: Outcome)

  const INITIAL := State([], [], 0, [], Select, false, false, 0, [], [], 0, 0, false, 0)

  function Size(e: Event): nat {
    |e.message| + EVENT_OVERHEAD
  }

  function Bytes(events: seq<Event>): nat {
    if events == [] then 0 else Bytes(events[..|events| - 1]) + Size(events[|events| - 1])
  }

  // ---------------------------------------------------------------- the steps

  function EnqueueStep(c: Config, s: State, e: Event, cancelled: bool): State {
    var s := s.(attempts := s.attempts + 1);
    if |e.message| > c.maxEventBytes then s.(dropped := s.dropped + 1)
    else if cancelled then s.(cancelled := s.cancelled + 1)
    else if |s.queue| < c.queueSize then s.(queue := s.queue + [e], accepted := s.accepted + [e])
    else s.(dropped := s.dropped + 1)
  }

  function Continue(s: State, resume: Resume): State {
    match resume
    case ToLoop => s.(pc := if s.draining then Drain else Select)
    case ToAppend(e) =>
      s.(batch := s.batch + [e], batchBytes := s.batchBytes + Size(e), pc := if s.draining then Drain else Select)
    case ToExit => s.(pc := Done)
  }

  /** `flush`: nothing to do for an empty batch. */
  function StartFlush(s: State, resume: Resume): State {
    if s.batch == [] then Continue(s, resume) else s.(pc := Flushing(resume), calls := [])
  }

  predicate MustFlush(c: Config, batch: seq<Event>, batchBytes: nat, e: Event) {
    |batch| >= c.maxBatchSize || batchBytes + Size(e) > c.maxBatchBytes
  }

  function ReceiveStep(c: Config, s: State): State
    requires s.queue != []
  {
    var e, s := s.queue[0], s.(queue := s.queue[1..]);
    if MustFlush(c, s.batch, s.batchBytes, e) then StartFlush(s, ToAppend(e)) else Continue(s, ToAppend(e))
  }

  /** One call; the loop ends on success, on a fatal error and after the third call. */
  function PutStep(s: State, outcome: Outcome): State
    requires s.pc.Flushing?
  {
    var calls := s.calls + [Call(s.batch, outcome)];
    if outcome == Retryable && |calls| < MAX_FLUSH_ATTEMPTS then s.(calls := calls)
    else
      var s' := s.(flushed := s.flushed + [Flush(s.batch, calls)], calls := [], batch := [], batchBytes := 0);
      Continue(s', s.pc.resume)
  }

  predicate Enabled(s: State, a: Action) {
    match a
    case Enqueue(_, _) => true
    case Stop => !s.stopped
    case Receive => (s.pc == Select || s.pc == Drain) && s.queue != []
    case Tick => s.pc == Select
    case SeeStop => s.pc == Select && s.stopped
    case DrainEmpty => s.pc == Drain && s.queue == []
    case Put(_) => s.pc.Flushing?
  }

  function Next(c: Config, s: State, a: Action): State
    requires Enabled(s, a)
  {
    match a
    case Enqueue(e, cancelled) => EnqueueStep(c, s, e, cancelled)
    case Stop => s.(stopped := true, acceptedAtStop := |s.accepted|)
    case Receive => ReceiveStep(c, s)
    case Tick => StartFlush(s.(ticked := true), ToLoop)
    case SeeStop => s.(pc := Drain, draining := true)
    case DrainEmpty => StartFlush(s, ToExit)
    case Put(outcome) => PutStep(s, outcome)
  }

  /** Every step of the run is possible when it is taken. */
  predicate CanRun(c: Config, s: State, run: seq<Action>)
    decreases |run|
  {
    run == [] || (Enabled(s, run[0]) && CanRun(c, Next(c, s, run[0]), run[1..]))
  }

  function Run(c: Config, s: State, run: seq<Action>): State
    requires CanRun(c, s, run)
    decreases |run|
  {
    if run == [] then s else Run(c, Next(c, s, run[0]), run[1..])
  }

  // ---------------------------------------------------------------- what every step keeps

  function Batches(flushed: seq<Flush>): seq<seq<Event>> {
    seq(|flushed|, i requires 0 <= i < |flushed| => flushed[i].batch)
  }

  function Delivered(s: State): seq<Event> {
    Concat(Batches(s.flushed))
  }

  function InHand(s: State): seq<Event> {
    if s.pc.Flushing? && s.pc.resume.ToAppend? then [s.pc.resume.event] else []
  }

  /** A batch the packing rule allows: a single event, or several within both limits. */
  predicate Fits(c: Config, batch: seq<Event>) {
    |batch| <= c.maxBatchSize && (|batch| <= 1 || Bytes(batch) <= c.maxBatchBytes)
  }

  function Packs(c: Config): seq<Event> -> bool {
    batch => Fits(c, batch)
  }

  /** Every accepted event is in exactly one place, in acceptance order. */
  predicate Conserved(s: State) {
    s.accepted == Delivered(s) + s.batch + InHand(s) + s.queue
  }

  predicate Accounted(s: State) {
    s.attempts == |s.accepted| + s.dropped + s.cancelled
  }

  /** One to three calls, all with the flush's batch; all but the last were answered retryable, and the last was too
      only if it was the third. */
  predicate FlushDone(f: Flush) {
    var n := |f.calls|;
    && 1 <= n <= MAX_FLUSH_ATTEMPTS
    && (forall i | 0 <= i < n :: f.calls[i].events == f.batch)
    && (forall i | 0 <= i < n - 1 :: f.calls[i].outcome == Retryable)
    && (f.calls[n - 1].outcome == Retryable ==> n == MAX_FLUSH_ATTEMPTS)
  }

  predicate FlushesFit(c: Config, flushed: seq<Flush>) {
    forall f | f in flushed :: f.batch != [] && Fits(c, f.batch) && FlushDone(f)
  }

  predicate Bounded(c: Config, s: State) {
    && |s.queue| <= c.queueSize
    && (forall e | e in s.accepted :: |e.message| <= c.maxEventBytes)
    && s.batchBytes == Bytes(s.batch) && Fits(c, s.batch)
    && FlushesFit(c, s.flushed)
  }

  predicate ControlOk(s: State) {
    && (if s.pc.Flushing? then s.batch != [] && |s.calls| < MAX_FLUSH_ATTEMPTS else s.calls == [])
    && (forall i | 0 <= i < |s.calls| :: s.calls[i] == Call(s.batch, Retryable))
    && (s.draining ==> s.stopped && s.pc != Select && s.pc != Flushing(ToLoop))
    && (s.pc == Drain || s.pc == Done || s.pc == Flushing(ToExit) ==> s.draining)
    && (s.pc == Done ==> s.batch == [])
    && (s.stopped ==> s.acceptedAtStop <= |s.accepted|)
    && (s.pc == Done || s.pc == Flushing(ToExit) ==> s.acceptedAtStop <= |Delivered(s)| + |s.batch|)
  }

  /** As long as no tick was served, the batches are the greedy packing of what has been consumed. */
  ghost predicate Packed(c: Config, s: State) {
    !s.ticked ==>
      && s.pc != Flushing(ToLoop)
      && (s.batch == [] && s.pc != Done ==> s.flushed == [])
      && (s.pc.Flushing? && s.pc.resume.ToAppend? ==> !Fits(c, s.batch + InHand(s)))
      && Greedy(Packs(c), Delivered(s) + s.batch) ==
         Batches(s.flushed) + if s.batch == [] then [] else [s.batch]
  }

  ghost predicate Inv(c: Config, s: State) {
    Conserved(s) && Accounted(s) && Bounded(c, s) && ControlOk(s) && Packed(c, s)
  }
}
