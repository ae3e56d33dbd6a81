/** metrics.go: the asynchronous publisher, the sink's smaller sibling, as interleaved atomic steps. */
module Publisher {
  import opened Partition
  import EmfBatch

  type Datum = EmfBatch.Datum

  datatype Config = Config(queueSize: nat, maxBatchSize: nat)

  /** `NewAsyncPublisher` replaces limits that are not positive. */
  function Normalize(queueSize: int, maxBatchSize: int): (c: Limits)
    ensures c.queueSize == if queueSize > 0 then queueSize else 1024
    ensures c.maxBatchSize == if maxBatchSize > 0 then maxBatchSize else 20
  {
    Config(if queueSize <= 0 then 1024 else queueSize, if maxBatchSize <= 0 then 20 else maxBatchSize)
  }

  type Limits = c: Config | c.queueSize > 0 && c.maxBatchSize > 0 witness Config(1, 1)

  datatype Cause = Full | OnTick | OnClose

  /** One `Put` of the client. */
  datatype Put = Put(batch: seq<Datum>, cause: Cause)

  datatype Pc = Select | Drain | Done

  /** The publisher's variables, and the history the results speak about. */
  datatype State = State(
    queue: seq<Datum>, batch: seq<Datum>, pc: Pc, stopped: bool, dropped: nat,
    accepted: seq<Datum>, puts: seq<Put>, attempts: nat, cancelled: nat, acceptedAtStop: nat)

  datatype Action = Offer(datum: Datum, cancelled: bool) | Stop | Receive | Tick | SeeStop | DrainEmpty

  const INITIAL := State([], [], Select, false, 0, [], [], 0, 0, 0)

  function OfferStep(c: Limits, s: State, d: Datum, cancelled: bool): State {
    var s := s.(attempts := s.attempts + 1);
    if cancelled then s.(cancelled := s.cancelled + 1)
    else if |s.queue| < c.queueSize then s.(queue := s.queue + [d], accepted := s.accepted + [d])
    else s.(dropped := s.dropped + 1)
  }

  function FlushStep(s: State, cause: Cause): State {
    if s.batch == [] then s else s.(puts := s.puts + [Put(s.batch, cause)], batch := [])
  }

  function ReceiveStep(c: Limits, s: State): State
    requires s.queue != []
  {
    var s := s.(queue := s.queue[1..], batch := s.batch + [s.queue[0]]);
    if |s.batch| >= c.maxBatchSize then FlushStep(s, Full) else s
  }

  predicate Enabled(s: State, a: Action) {
    match a
    case Offer(_, _) => true
    case Stop => !s.stopped
    case Receive => s.pc != Done && s.queue != []
    case Tick => s.pc == Select
    case SeeStop => s.pc == Select && s.stopped
    case DrainEmpty => s.pc == Drain && s.queue == []
  }

  function Next(c: Limits, s: State, a: Action): State
    requires Enabled(s, a)
  {
    match a
    case Offer(d, cancelled) => OfferStep(c, s, d, cancelled)
    case Stop => s.(stopped := true, acceptedAtStop := |s.accepted|)
    case Receive => ReceiveStep(c, s)
    case Tick => FlushStep(s, OnTick)
    case SeeStop => s.(pc := Drain)
    case DrainEmpty => FlushStep(s, OnClose).(pc := Done)
  }

  predicate CanRun(c: Limits, s: State, run: seq<Action>)
    decreases |run|
  {
    run == [] || (Enabled(s, run[0]) && CanRun(c, Next(c, s, run[0]), run[1..]))
  }

  function Run(c: Limits, s: State, run: seq<Action>): State
    requires CanRun(c, s, run)
    decreases |run|
  {
    if run == [] then s else Run(c, Next(c, s, run[0]), run[1..])
  }

  /** A run of a run and one more step. */
  lemma {:induction false} RunNext(c: Limits, s: State, run: seq<Action>, a: Action)
    ensures CanRun(c, s, run + [a]) <==> CanRun(c, s, run) && Enabled(Run(c, s, run), a)
    ensures CanRun(c, s, run + [a]) ==> Run(c, s, run + [a]) == Next(c, Run(c, s, run), a)
    decreases |run|
  {
    if run == [] {
      assert [] + [a] == [a] && [a][1..] == [];
    } else {
      assert (run + [a])[0] == run[0] && (run + [a])[1..] == run[1..] + [a];
      if Enabled(s, run[0]) { RunNext(c, Next(c, s, run[0]), run[1..], a); }
    }
  }

  /** The last step of a run. */
  lemma RunLast(c: Limits, s: State, run: seq<Action>)
    requires run != [] && CanRun(c, s, run)
    ensures var n := |run| - 1;
            && CanRun(c, s, run[..n]) && Enabled(Run(c, s, run[..n]), run[n])
            && Run(c, s, run) == Next(c, Run(c, s, run[..n]), run[n])
  {
    var n := |run| - 1;
    assert run == run[..n] + [run[n]];
    RunNext(c, s, run[..n], run[n]);
  }

  // ---------------------------------------------------------------- what every step keeps

  function Delivered(puts: seq<Put>): seq<Datum> {
    if puts == [] then [] else Delivered(puts[..|puts| - 1]) + puts[|puts| - 1].batch
  }

  predicate Conserved(s: State) {
    && s.accepted == Delivered(s.puts) + s.batch + s.queue
    && s.attempts == |s.accepted| + s.dropped + s.cancelled
  }

  /** A batch that was not flushed because it was full was flushed early, by a tick or by the close. */
  predicate Sized(c: Limits, p: Put) {
    0 < |p.batch| <= c.maxBatchSize && (p.cause == Full <==> |p.batch| == c.maxBatchSize)
  }

  predicate Bounded(c: Limits, s: State) {
    && |s.queue| <= c.queueSize && |s.batch| < c.maxBatchSize
    && forall i | 0 <= i < |s.puts| :: Sized(c, s.puts[i])
  }

  /** The close flushes last, and only when nothing is left to take. */
  predicate Closing(s: State) {
    && (s.pc != Select ==> s.stopped)
    && (s.stopped ==> s.acceptedAtStop <= |s.accepted|)
    && (s.pc == Done ==> s.batch == [] && s.acceptedAtStop <= |Delivered(s.puts)|)
    && forall i | 0 <= i < |s.puts| && s.puts[i].cause == OnClose :: s.pc == Done && i == |s.puts| - 1
  }

  predicate Inv(c: Limits, s: State) {
    Conserved(s) && Bounded(c, s) && Closing(s)
  }

  lemma DeliveredSnoc(puts: seq<Put>, p: Put)
    ensures Delivered(puts + [p]) == Delivered(puts) + p.batch
  {
    assert (puts + [p])[..|puts|] == puts;
  }

  lemma FlushKeeps(c: Limits, s: State, cause: Cause)
    requires |s.batch| <= c.maxBatchSize && (cause == Full <==> |s.batch| == c.maxBatchSize)
    requires Conserved(s) && |s.queue| <= c.queueSize && forall i | 0 <= i < |s.puts| :: Sized(c, s.puts[i])
    ensures Conserved(FlushStep(s, cause)) && Bounded(c, FlushStep(s, cause))
    ensures Delivered(FlushStep(s, cause).puts) == Delivered(s.puts) + s.batch
  {
    FlushMoves(s, cause);
    assert Delivered(s.puts) + s.batch + [] == Delivered(s.puts) + s.batch;
    forall i | 0 <= i < |FlushStep(s, cause).puts| ensures Sized(c, FlushStep(s, cause).puts[i]) {}
  }

  lemma FlushMoves(s: State, cause: Cause)
    ensures Delivered(FlushStep(s, cause).puts) == Delivered(s.puts) + s.batch
  {
    DeliveredSnoc(s.puts, Put(s.batch, cause));
  }

  lemma OfferKeeps(c: Limits, s: State, d: Datum, cancelled: bool)
    requires Inv(c, s)
    ensures Inv(c, OfferStep(c, s, d, cancelled))
  {
    assert Delivered(s.puts) + s.batch + (s.queue + [d]) == Delivered(s.puts) + s.batch + s.queue + [d];
  }

  lemma ReceiveKeeps(c: Limits, s: State)
    requires Inv(c, s) && Enabled(s, Receive)
    ensures Inv(c, ReceiveStep(c, s))
  {
    var taken := s.(queue := s.queue[1..], batch := s.batch + [s.queue[0]]);
    assert s.batch + [s.queue[0]] + s.queue[1..] == s.batch + s.queue;
    assert Delivered(s.puts) + (s.batch + [s.queue[0]]) + s.queue[1..] == Delivered(s.puts) + s.batch + s.queue;
    if |taken.batch| >= c.maxBatchSize { FlushKeeps(c, taken, Full); }
  }

  lemma DrainEmptyKeeps(c: Limits, s: State)
    requires Inv(c, s) && Enabled(s, DrainEmpty)
    ensures Inv(c, Next(c, s, DrainEmpty))
  {
    FlushKeeps(c, s, OnClose);
    assert s.accepted == Delivered(s.puts) + s.batch + [];
  }

  lemma StepKeeps(c: Limits, s: State, a: Action)
    requires Inv(c, s) && Enabled(s, a)
    ensures Inv(c, Next(c, s, a))
  {
    match a
    case Offer(d, cancelled) => OfferKeeps(c, s, d, cancelled);
    case Stop =>
    case Receive => ReceiveKeeps(c, s);
    case Tick => FlushKeeps(c, s, OnTick);
    case SeeStop =>
    case DrainEmpty => DrainEmptyKeeps(c, s);
  }

  lemma {:induction false} RunKeepsFrom(c: Limits, s: State, run: seq<Action>)
    requires Inv(c, s) && CanRun(c, s, run)
    ensures Inv(c, Run(c, s, run))
    decreases |run|
  {
    if run != [] {
      StepKeeps(c, s, run[0]);
      RunKeepsFrom(c, Next(c, s, run[0]), run[1..]);
    }
  }

  lemma RunKeeps(c: Limits, run: seq<Action>)
    requires CanRun(c, INITIAL, run)
    ensures Inv(c, Run(c, INITIAL, run))
  {
    RunKeepsFrom(c, INITIAL, run);
  }

  // ---------------------------------------------------------------- every reachable state

  /** No accepted datum is lost, duplicated or reordered, and every attempt has one outcome. Every `Put` but those of
      a tick or of the close carries exactly `maxBatchSize` data; the close's comes last. */
  lemma PutsAreExact(c: Limits, run: seq<Action>)
    requires CanRun(c, INITIAL, run)
    ensures var s := Run(c, INITIAL, run);
            && s.accepted == Delivered(s.puts) + s.batch + s.queue
            && s.attempts == |s.accepted| + s.dropped + s.cancelled
            && (forall i | 0 <= i < |s.puts| :: s.puts[i].cause == Full <==> |s.puts[i].batch| == c.maxBatchSize)
            && (forall i | 0 <= i < |s.puts| - 1 :: s.puts[i].cause != OnClose)
            && forall i | 0 <= i < |s.puts| :: 0 < |s.puts[i].batch| <= c.maxBatchSize
  {
    RunKeeps(c, run);
  }

  /** `Close` returns nil only once the publisher is done; everything accepted before stop has been put by then. */
  lemma CloseDelivers(c: Limits, run: seq<Action>)
    requires CanRun(c, INITIAL, run) && Run(c, INITIAL, run).pc == Done
    ensures var s := Run(c, INITIAL, run);
            s.acceptedAtStop <= |Delivered(s.puts)| && Delivered(s.puts) <= s.accepted
            && (Delivered(s.puts) == s.accepted <==> s.queue == [])
  {
    RunKeeps(c, run);
    var s := Run(c, INITIAL, run);
    assert s.accepted == Delivered(s.puts) + s.queue;
    assert |s.accepted| == |Delivered(s.puts)| + |s.queue|;
    assert s.queue == [] ==> Delivered(s.puts) + s.queue == Delivered(s.puts);
  }

  lemma DoneStays(c: Limits, s: State, a: Action)
    requires s.pc == Done && Enabled(s, a)
    ensures a != DrainEmpty && Next(c, s, a).pc == Done && Next(c, s, a).puts == s.puts
  {}

  lemma LookPuts(c: Limits, s: State, a: Action)
    requires Conserved(s) && s.pc != Done && Enabled(s, a) && Next(c, s, a).pc == Done
    ensures a == DrainEmpty && Delivered(Next(c, s, a).puts) == s.accepted
  {
    match a
    case DrainEmpty =>
      FlushMoves(s, OnClose);
      assert s.accepted == Delivered(s.puts) + s.batch + [];
    case _ =>
  }

  /** Of every finished publisher: the one time the drain found the queue empty decides. What had been accepted by then
      was put, in order; what was accepted later never is. */
  lemma {:induction false} PutExactlyBeforeLastLook(c: Limits, run: seq<Action>) returns (k: nat)
    requires CanRun(c, INITIAL, run) && Run(c, INITIAL, run).pc == Done
    ensures k < |run| && run[k] == DrainEmpty && (forall i | 0 <= i < |run| && run[i] == DrainEmpty :: i == k)
    ensures CanRun(c, INITIAL, run[..k]) && Delivered(Run(c, INITIAL, run).puts) == Run(c, INITIAL, run[..k]).accepted
  {
    var n := |run| - 1;
    RunLast(c, INITIAL, run);
    var before := Run(c, INITIAL, run[..n]);
    if before.pc == Done {
      DoneStays(c, before, run[n]);
      k := PutExactlyBeforeLastLook(c, run[..n]);
      assert run[..n][..k] == run[..k];
      assert forall i | 0 <= i < n :: run[..n][i] == run[i];
    } else {
      k := n;
      RunKeeps(c, run[..n]);
      LookPuts(c, before, run[n]);
      NotLookedYet(c, run[..n]);
      assert forall i | 0 <= i < n :: run[..n][i] == run[i];
    }
  }

  lemma NotLookedYet(c: Limits, run: seq<Action>)
    requires CanRun(c, INITIAL, run) && Run(c, INITIAL, run).pc != Done
    ensures forall i | 0 <= i < |run| :: run[i] != DrainEmpty
  {
    forall i | 0 <= i < |run| && run[i] == DrainEmpty ensures false { LookedIsDone(c, run, i); }
  }

  lemma {:induction false} LookedIsDone(c: Limits, run: seq<Action>, i: nat)
    requires CanRun(c, INITIAL, run) && i < |run| && run[i] == DrainEmpty
    ensures Run(c, INITIAL, run).pc == Done
  {
    var n := |run| - 1;
    RunLast(c, INITIAL, run);
    if i < n {
      LookedIsDone(c, run[..n], i);
      DoneStays(c, Run(c, INITIAL, run[..n]), run[n]);
    }
  }

  /** A datum accepted after the last look is stranded, though `Close` returns nil. */
  lemma LateDatumIsStranded(c: Limits, d: Datum)
    ensures var run := [Stop, SeeStop, DrainEmpty, Offer(d, false)];
            CanRun(c, INITIAL, run) &&
            var s := Run(c, INITIAL, run);
            s.pc == Done && s.accepted == [d] && s.queue == [d] && s.puts == []
  {
    var s1 := Next(c, INITIAL, Stop);
    var s2 := Next(c, s1, SeeStop);
    var s3 := Next(c, s2, DrainEmpty);
    var s4 := Next(c, s3, Offer(d, false));
    assert [] + [d] == [d];
    RunTwo(c, s2, DrainEmpty, Offer(d, false));
    var rest, run := [DrainEmpty, Offer(d, false)], [Stop, SeeStop, DrainEmpty, Offer(d, false)];
    assert run[1..] == [SeeStop] + rest && ([SeeStop] + rest)[1..] == rest;
    assert CanRun(c, s1, [SeeStop] + rest) && Run(c, s1, [SeeStop] + rest) == s4;
  }

  lemma RunTwo(c: Limits, s: State, a: Action, b: Action)
    requires Enabled(s, a) && Enabled(Next(c, s, a), b)
    ensures CanRun(c, s, [a, b]) && Run(c, s, [a, b]) == Next(c, Next(c, s, a), b)
  {
    var t := Next(c, s, a);
    assert [a, b][1..] == [b] && [b][1..] == [];
    assert CanRun(c, Next(c, t, b), []) && CanRun(c, t, [b]) && Run(c, t, [b]) == Next(c, t, b);
  }

  /** A tick leaves nothing pending: everything taken from the queue before it has been put. */
  lemma TickPuts(c: Limits, run: seq<Action>)
    requires CanRun(c, INITIAL, run + [Tick])
    ensures CanRun(c, INITIAL, run)
    ensures var s, t := Run(c, INITIAL, run), Run(c, INITIAL, run + [Tick]);
            && Delivered(t.puts) == Delivered(s.puts) + s.batch && t.batch == [] && t.queue == s.queue
            && (s.batch != [] ==> t.puts == s.puts + [Put(s.batch, OnTick)]) && (s.batch == [] ==> t.puts == s.puts)
  {
    RunNext(c, INITIAL, run, Tick);
    FlushMoves(Run(c, INITIAL, run), OnTick);
  }

  /** Without ticks the number of `Put`s is the number of data divided by the batch size, rounded up. */
  lemma PutsAreFewest(c: Limits, run: seq<Action>)
    requires CanRun(c, INITIAL, run) && Run(c, INITIAL, run).pc == Done
    requires forall i | 0 <= i < |run| :: run[i] != Tick
    ensures var s := Run(c, INITIAL, run);
            (|s.puts| - 1) * c.maxBatchSize < |Delivered(s.puts)| <= |s.puts| * c.maxBatchSize || s.puts == []
  {
    RunKeeps(c, run);
    NoTickPuts(c, run);
    var puts := Run(c, INITIAL, run).puts;
    if puts != [] {
      FullButLast(c, puts);
    }
  }

  lemma FullButLast(c: Limits, puts: seq<Put>)
    requires puts != [] && 0 < |puts[|puts| - 1].batch| <= c.maxBatchSize
    requires forall i | 0 <= i < |puts| - 1 :: |puts[i].batch| == c.maxBatchSize
    ensures (|puts| - 1) * c.maxBatchSize < |Delivered(puts)| <= |puts| * c.maxBatchSize
  {
    var n, m := |puts| - 1, c.maxBatchSize;
    FullPuts(c, puts[..n]);
    assert (n + 1) * m == n * m + m;
  }

  lemma {:induction false} NoTickPuts(c: Limits, run: seq<Action>)
    requires CanRun(c, INITIAL, run) && forall i | 0 <= i < |run| :: run[i] != Tick
    ensures forall i | 0 <= i < |Run(c, INITIAL, run).puts| :: Run(c, INITIAL, run).puts[i].cause != OnTick
  {
    if run != [] {
      RunLast(c, INITIAL, run);
      NoTickPuts(c, run[..|run| - 1]);
    }
  }

  lemma {:induction false} FullPuts(c: Limits, puts: seq<Put>)
    requires forall i | 0 <= i < |puts| :: |puts[i].batch| == c.maxBatchSize
    ensures |Delivered(puts)| == |puts| * c.maxBatchSize
  {
    if puts != [] {
      var n, m := |puts| - 1, c.maxBatchSize;
      FullPuts(c, puts[..n]);
      assert (n + 1) * m == n * m + m;
    }
  }

  // ---------------------------------------------------------------- the code

  datatype PublishResult = Published | Closed | Cancelled | QueueFull

  /** How many of i data are kept if nothing is taken meanwhile. */
  function Room(c: Limits, s: State, i: nat): nat {
    if |s.queue| + i <= c.queueSize then i else if |s.queue| <= c.queueSize then c.queueSize - |s.queue| else 0
  }

  /** From `s` to `t`, i of the data were tried, and `kept` of them were accepted; `idle` if nothing was taken meanwhile. */
  ghost predicate Tried(c: Limits, s: State, t: State, data: seq<Datum>, i: nat, kept: seq<Datum>, idle: bool) {
    && i <= |data| && |kept| <= i && t.accepted == s.accepted + kept && Subsequence(kept, data[..i])
    && t.dropped == s.dropped + i - |kept| && |t.queue| <= |s.queue| + |kept|
    && (|s.queue| + i <= c.queueSize ==> kept == data[..i])
    && (idle ==> t.queue == s.queue + kept && kept == data[..Room(c, s, i)])
  }

  lemma TriedNone(c: Limits, s: State, data: seq<Datum>, idle: bool)
    ensures Tried(c, s, s, data, 0, [], idle)
  {
    assert s.accepted + [] == s.accepted && s.queue + [] == s.queue && data[..0] == [];
  }

  lemma TriedTaken(c: Limits, s: State, t: State, u: State, data: seq<Datum>, i: nat, kept: seq<Datum>, idle: bool)
    requires Tried(c, s, t, data, i, kept, idle)
    requires u.accepted == t.accepted && u.dropped == t.dropped && |u.queue| <= |t.queue| && (idle ==> u.queue == t.queue)
    ensures Tried(c, s, u, data, i, kept, idle)
  {}

  lemma TriedNext(c: Limits, s: State, t: State, u: State, data: seq<Datum>, i: nat, kept: seq<Datum>, idle: bool)
    requires Tried(c, s, t, data, i, kept, idle) && i < |data| && |s.queue| <= c.queueSize
    requires u.queue == t.queue + [data[i]] && u.dropped == t.dropped && u.accepted == t.accepted + [data[i]]
    requires |t.queue| < c.queueSize
    ensures Tried(c, s, u, data, i + 1, kept + [data[i]], idle)
  {
    assert data[..i + 1] == data[..i] + [data[i]];
    SubsequenceSnoc(kept, data[..i], data[i]);
    assert s.accepted + kept + [data[i]] == s.accepted + (kept + [data[i]]);
    assert idle ==> Room(c, s, i) == i && s.queue + kept + [data[i]] == s.queue + (kept + [data[i]]);
  }

  lemma TriedDropped(c: Limits, s: State, t: State, u: State, data: seq<Datum>, i: nat, kept: seq<Datum>, idle: bool)
    requires Tried(c, s, t, data, i, kept, idle) && i < |data| && |s.queue| <= c.queueSize
    requires u.queue == t.queue && u.dropped == t.dropped + 1 && u.accepted == t.accepted
    requires |t.queue| >= c.queueSize
    ensures Tried(c, s, u, data, i + 1, kept, idle)
  {
    assert data[..i + 1] == data[..i] + [data[i]];
    SubsequenceSnoc(kept, data[..i], data[i]);
    assert idle ==> Room(c, s, i + 1) == Room(c, s, i);
  }

  class AsyncPublisher {
    const c: Limits
    const hasClient: bool
    var queue: seq<Datum>
    var batch: seq<Datum>
    var dropped: nat
    var closed: bool
    ghost var trace: seq<Action>

    ghost function Proto(): State
      requires CanRun(c, INITIAL, trace)
      reads this
    {
      Run(c, INITIAL, trace)
    }

    ghost predicate Holds(s: State)
      reads this
    {
      s.queue == queue && s.batch == batch && s.dropped == dropped && s.stopped == closed
    }

    ghost predicate Valid()
      reads this
    {
      CanRun(c, INITIAL, trace) && Holds(Proto())
    }

    constructor (hasClient: bool, queueSize: int, maxBatchSize: int)
      ensures Valid() && trace == [] && c == Normalize(queueSize, maxBatchSize) && this.hasClient == hasClient
    {
      this.hasClient, c := hasClient, Normalize(queueSize, maxBatchSize);
      queue, batch, dropped, closed, trace := [], [], 0, false, [];
    }

    /** `Close`, up to its wait: closing twice does nothing. */
    method Close()
      requires Valid()
      modifies this
      ensures Valid() && closed
      ensures trace == if old(closed) then old(trace) else old(trace) + [Stop]
    {
      if !closed {
        RunNext(c, INITIAL, trace, Stop);
        closed := true;
        trace := trace + [Stop];
      }
    }

    /** The closure `flush`. */
    method Flush() returns (put: seq<Datum>)
      modifies this`batch
      ensures put == old(batch) && batch == []
    {
      put := batch;
      if |batch| == 0 {
        return;
      }
      batch := [];
    }

    /** Taking one datum from the queue, in either select. */
    method Receive() returns (put: seq<Datum>)
      requires Valid() && queue != [] && Proto().pc != Done
      modifies this
      ensures Valid() && trace == old(trace) + [Action.Receive] && queue == old(queue)[1..]
      ensures Proto().pc == old(Proto().pc) && closed == old(closed)
      ensures put + batch == old(batch) + [old(queue)[0]] && dropped == old(dropped)
      ensures Proto().accepted == old(Proto().accepted)
    {
      RunNext(c, INITIAL, trace, Action.Receive);
      trace := trace + [Action.Receive];
      batch, queue := batch + [queue[0]], queue[1..];
      put := [];
      if |batch| >= c.maxBatchSize {
        put := Flush();
      }
    }

    /** The ticker's branch of the select. */
    method Tick() returns (put: seq<Datum>)
      requires Valid() && Proto().pc == Select
      modifies this
      ensures Valid() && trace == old(trace) + [Action.Tick] && queue == old(queue) && closed == old(closed)
      ensures put == old(batch) && batch == []
      ensures Delivered(Proto().puts) == Delivered(old(Proto().puts)) + put
    {
      RunNext(c, INITIAL, trace, Action.Tick);
      TickPuts(c, trace);
      trace := trace + [Action.Tick];
      put := Flush();
    }

    /** The consumer takes up to n data. */
    method Consume(n: nat, ghost idle: bool)
      requires Valid() && Proto().pc == Select && (idle ==> n == 0)
      modifies this
      ensures Valid() && Proto().pc == Select && old(trace) <= trace && closed == old(closed)
      ensures Proto().accepted == old(Proto().accepted) && Proto().dropped == old(Proto().dropped)
      ensures |Proto().queue| <= |old(Proto().queue)| && (idle ==> Proto().queue == old(Proto().queue))
    {
      var i := 0;
      while i < n && |queue| > 0
        invariant Valid() && Proto().pc == Select && old(trace) <= trace && closed == old(closed)
        invariant Proto().accepted == old(Proto().accepted) && Proto().dropped == old(Proto().dropped)
        invariant i <= n && |queue| <= |old(queue)| && (i == 0 ==> queue == old(queue))
      {
        var put := Receive();
        i := i + 1;
      }
    }

    /** The first select of `Publish` once the context is done. */
    method GiveUp(datum: Datum)
      requires Valid()
      modifies this`trace
      ensures Valid() && trace == old(trace) + [Offer(datum, true)] && closed == old(closed)
      ensures Proto().accepted == old(Proto().accepted) && Proto().dropped == old(Proto().dropped)
      ensures Proto().queue == old(Proto().queue)
    {
      RunNext(c, INITIAL, trace, Offer(datum, true));
      trace := trace + [Offer(datum, true)];
    }

    /** The second select of `Publish`: queue the datum or drop it. */
    method Send(data: seq<Datum>, i: nat, ghost base: State, ghost kept: seq<Datum>, ghost idle: bool)
      returns (sent: bool, ghost kept': seq<Datum>)
      requires Valid() && i < |data| && |base.queue| <= c.queueSize && Tried(c, base, Proto(), data, i, kept, idle)
      modifies this
      ensures Valid() && trace == old(trace) + [Offer(data[i], false)] && closed == old(closed)
      ensures sent == (|old(queue)| < c.queueSize) && Proto().pc == old(Proto().pc)
      ensures kept' == (if sent then kept + [data[i]] else kept) && Tried(c, base, Proto(), data, i + 1, kept', idle)
    {
      ghost var before := Proto();
      RunNext(c, INITIAL, trace, Offer(data[i], false));
      trace := trace + [Offer(data[i], false)];
      sent := |queue| < c.queueSize;
      if sent {
        queue := queue + [data[i]];
        TriedNext(c, base, before, Proto(), data, i, kept, idle);
        kept' := kept + [data[i]];
      } else {
        dropped := dropped + 1;
        TriedDropped(c, base, before, Proto(), data, i, kept, idle);
        kept' := kept;
      }
    }

    /** `Publish`. The context is done from datum `cancelledAt` on, and the consumer takes up to `takes(i)` data before
        the i-th is sent. A subsequence of the data tried is queued, in order, the rest is dropped and counted, and
        cancellation ends the call; what fits at the outset is never dropped. */
    method Publish(data: seq<Datum>, cancelledAt: nat, takes: nat -> nat, ghost idle: bool)
      returns (r: PublishResult, ghost kept: seq<Datum>)
      requires Valid()
      requires idle ==> forall i :: takes(i) == 0
      modifies this
      ensures Valid() && closed == old(closed) && old(trace) <= trace
      ensures data == [] || !hasClient ==> r == Published && trace == old(trace)
      ensures data != [] && hasClient && old(closed) ==> r == Closed && trace == old(trace)
      ensures data != [] && hasClient && !old(closed) ==>
                var tried := if cancelledAt < |data| then cancelledAt else |data|;
                && Tried(c, old(Proto()), Proto(), data, tried, kept, idle)
                && r == if tried < |data| then Cancelled else if |kept| < tried then QueueFull else Published
    {
      kept := [];
      if |data| == 0 || !hasClient { return Published, kept; }
      if closed { return Closed, kept; }
      RunKeeps(c, trace);
      ghost var base := Proto();
      TriedNone(c, base, data, idle);
      r := Published;
      for i := 0 to |data|
        invariant Valid() && Proto().pc == Select && closed == old(closed) && old(trace) <= trace && i <= cancelledAt
        invariant Tried(c, base, Proto(), data, i, kept, idle)
        invariant r == if |kept| < i then QueueFull else Published
      {
        ghost var now := Proto();
        Consume(takes(i), idle);
        TriedTaken(c, base, now, Proto(), data, i, kept, idle);
        if i >= cancelledAt {
          now := Proto();
          GiveUp(data[i]);
          TriedTaken(c, base, now, Proto(), data, i, kept, idle);
          return Cancelled, kept;
        }
        var sent: bool;
        sent, kept := Send(data, i, base, kept, idle);
        if !sent { r := QueueFull; }
      }
    }

    /** The loop after stop, when no producer is active: what is left is put in order, and the publisher is done. */
    method DrainQueue() returns (puts: seq<seq<Datum>>)
      requires Valid() && Proto().pc == Drain
      modifies this
      ensures Valid() && Proto().pc == Done && queue == [] && batch == []
      ensures Concat(puts) == old(batch) + old(queue)
      ensures Delivered(Proto().puts) == Proto().accepted
    {
      puts := [];
      assert Concat(puts) + batch + queue == batch + queue;
      while |queue| > 0
        invariant Valid() && Proto().pc == Drain
        invariant Concat(puts) + batch + queue == old(batch) + old(queue)
        decreases |queue|
      {
        ghost var batch0, queue0 := batch, queue;
        var put := Receive();
        TakenFromQueue(Concat(puts), batch0, queue0, put, batch);
        ConcatSnoc(puts, put);
        puts := puts + [put];
      }
      RunNext(c, INITIAL, trace, DrainEmpty);
      trace := trace + [DrainEmpty];
      var last := Flush();
      ConcatSnoc(puts, last);
      puts := puts + [last];
      CloseDelivers(c, trace);
    }
  }

  lemma TakenFromQueue<T>(done: seq<T>, batch: seq<T>, queue: seq<T>, put: seq<T>, batch': seq<T>)
    requires queue != [] && put + batch' == batch + [queue[0]]
    ensures done + put + batch' + queue[1..] == done + batch + queue
  {
    assert done + put + batch' == done + (put + batch');
    assert queue == [queue[0]] + queue[1..];
  }
}
