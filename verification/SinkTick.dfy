/** sink.go: what a tick does. */
module SinkTick {
  import opened Partition
  import opened SinkProtocol
  import opened SinkSafety

  /** The `Put` steps of a run. */
  function Puts(run: seq<Action>): nat {
    if run == [] then 0 else (if run[0].Put? then 1 else 0) + Puts(run[1..])
  }

  /** `due` has been sent, or the tick's flush is under way with it after `calls` calls. */
  ghost predicate Served(t: State, due: seq<Event>, calls: nat) {
    || due <= Delivered(t)
    || (t.pc == Flushing(ToLoop) && Delivered(t) + t.batch == due && |t.calls| == calls < 3)
  }

  lemma ServedStep(c: Config, t: State, a: Action, due: seq<Event>, calls: nat)
    requires ControlOk(t) && Served(t, due, calls) && Enabled(t, a)
    ensures Served(Next(c, t, a), due, if a.Put? then calls + 1 else calls)
  {
    var u := Next(c, t, a);
    if due <= Delivered(t) {
      DeliveredGrows(c, t, a);
    } else {
      match a
      case Put(outcome) =>
        if LastCall(t, outcome) { Finished(t, outcome); } else { SameDelivered(t, u); }
      case Enqueue(e, cancelled) => SameDelivered(t, EnqueueStep(c, t, e, cancelled));
      case Stop => SameDelivered(t, u);
      case _ =>
    }
  }

  lemma SameDelivered(t: State, u: State)
    requires u.flushed == t.flushed
    ensures Delivered(u) == Delivered(t)
  {}

  lemma {:induction false} ServedRun(c: Config, t: State, run: seq<Action>, due: seq<Event>, calls: nat)
    requires Inv(c, t) && Served(t, due, calls) && CanRun(c, t, run)
    ensures Served(Run(c, t, run), due, calls + Puts(run))
    decreases |run|
  {
    if run != [] {
      ServedStep(c, t, run[0], due, calls);
      StepKeeps(c, t, run[0]);
      ServedRun(c, Next(c, t, run[0]), run[1..], due, if run[0].Put? then calls + 1 else calls);
    }
  }

  /** Everything taken from the queue before a tick is sent by it, whatever the calls are answered and whatever happens
      meanwhile: after the third call at the latest, and until then the flush is under way and its next call possible. */
  lemma TickSends(c: Config, run: seq<Action>, after: seq<Action>, outcome: Outcome)
    requires CanRun(c, INITIAL, run) && Run(c, INITIAL, run).pc == Select
    requires CanRun(c, Next(c, Run(c, INITIAL, run), Tick), after)
    ensures var s := Run(c, INITIAL, run);
            var t := Run(c, Next(c, s, Tick), after);
            if Puts(after) >= 3 || t.pc != Flushing(ToLoop) then Delivered(s) + s.batch <= Delivered(t)
            else Delivered(s) + s.batch <= Delivered(t) + t.batch && Enabled(t, Put(outcome))
  {
    var s := Run(c, INITIAL, run);
    InitInv(c);
    RunKeeps(c, INITIAL, run);
    StepKeeps(c, s, Tick);
    TickStarts(c, s);
    ServedRun(c, Next(c, s, Tick), after, Delivered(s) + s.batch, 0);
  }

  lemma TickStarts(c: Config, s: State)
    requires ControlOk(s) && s.pc == Select
    ensures Served(Next(c, s, Tick), Delivered(s) + s.batch, 0)
  {
    SameDelivered(s, Next(c, s, Tick));
    assert s.batch == [] ==> Delivered(s) + s.batch == Delivered(s);
  }
}
