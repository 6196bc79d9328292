/** `stop()` never deadlocks, and without new traffic it ends. */
module SessionProgress {
  import opened Bits
  import opened Wrappers
  import opened Session
  import opened SessionSafety

  /** The moves of the session's own tasks and of the awaited Bluetooth calls completing. */
  predicate Internal(step: Step) {
    || step.WriterTakes? || step.WriteSucceeds? || step.WriteFails?
    || step.StopNotifyReturns? || step.JoinRuns? || step.StopWakes? || step.JoinCancellationEnds?
  }

  predicate Stopping(s: State) {
    !s.phase.Live? && !s.phase.Finished?
  }

  /** While `stop()` is unfinished something can always happen, even after the writer has died
      with packets still queued, when `join()` can never return. */
  lemma NoDeadlock(s: State) returns (step: Step)
    requires Inv(s) && Stopping(s)
    ensures Internal(step) && Enabled(s, step)
  {
    if s.phase.StoppingNotify? {
      step := StopNotifyReturns(None);
    } else if s.phase.CancellingJoin? {
      step := JoinCancellationEnds;
    } else if Enabled(s, StopWakes) {
      step := StopWakes;
    } else if s.writer.Writing? {
      step := WriteSucceeds;
    } else if s.sendQueue != [] {
      step := WriterTakes;
    } else {
      step := JoinRuns;
    }
  }

  /** The writer has died with packets still queued and `join()` has not been released. */
  predicate Stuck(s: State) {
    s.writer.Failed? && s.sendQueue != [] && !s.join.Released? && !s.join.Joined?
  }

  lemma StepStaysStuck(callbacks: Callbacks, s: State, step: Step)
    requires Inv(s) && Enabled(s, step) && Stuck(s)
    ensures Stuck(Apply(callbacks, s, step))
  {
  }

  /** From then on `join()` never returns, whatever happens: waiting for it alone would hang. */
  lemma {:induction false} DeadWriterBlocksJoin(callbacks: Callbacks, s: State, steps: seq<Step>)
    requires Inv(s) && IsRunFrom(callbacks, s, steps) && Stuck(s)
    ensures Stuck(After(callbacks, s, steps))
  {
    if steps == [] {
    } else {
      var front := steps[..|steps| - 1];
      DeadWriterBlocksJoin(callbacks, s, front);
      RunsKeepInv(callbacks, s, front);
      StepStaysStuck(callbacks, After(callbacks, s, front), steps[|steps| - 1]);
    }
  }

  // ---------- termination ----------

  function WriterWork(w: Writer): nat {
    if w.Writing? then 2 else 0
  }

  function JoinWork(j: Join): nat {
    match j
    case Fresh => 3
    case Blocked => 2
    case Released => 1
    case _ => 0
  }

  function StopWork(p: Phase): nat {
    match p
    case Live => 15
    case StoppingNotify => 14
    case Waiting => 10
    case AwaitingWriter => 5
    case CancellingJoin(_) => 3
    case Finished(_) => 0
  }

  function Work(s: State): nat {
    3 * |s.sendQueue| + WriterWork(s.writer) + JoinWork(s.join) + StopWork(s.phase)
  }

  lemma InternalStepWorks(callbacks: Callbacks, s: State, step: Step)
    requires Inv(s) && Enabled(s, step) && Internal(step)
    ensures Work(Apply(callbacks, s, step)) < Work(s)
    ensures !s.phase.Live? ==> !Apply(callbacks, s, step).phase.Live?
  {
  }

  predicate AllInternal(steps: seq<Step>) {
    forall i | 0 <= i < |steps| :: Internal(steps[i])
  }

  lemma {:induction false} InternalRunsAreBounded(callbacks: Callbacks, s: State, steps: seq<Step>)
    requires Inv(s) && IsRunFrom(callbacks, s, steps) && AllInternal(steps)
    ensures Inv(After(callbacks, s, steps))
    ensures |steps| + Work(After(callbacks, s, steps)) <= Work(s)
    ensures !s.phase.Live? ==> !After(callbacks, s, steps).phase.Live?
  {
    if steps == [] {
    } else {
      var front, last := steps[..|steps| - 1], steps[|steps| - 1];
      InternalRunsAreBounded(callbacks, s, front);
      InternalStepWorks(callbacks, After(callbacks, s, front), last);
      StepKeepsInv(callbacks, After(callbacks, s, front), last);
    }
  }

  /** From any reachable state in which `stop()` has begun, a run without new traffic takes at
      most `Work` steps, and once it can go no further `stop()` has finished. */
  lemma StopAlwaysFinishes(callbacks: Callbacks, before: seq<Step>, steps: seq<Step>)
    requires IsRun(callbacks, before) && !After(callbacks, INITIAL, before).phase.Live?
    requires IsRunFrom(callbacks, After(callbacks, INITIAL, before), steps) && AllInternal(steps)
    ensures |steps| <= Work(After(callbacks, INITIAL, before))
    ensures var end := After(callbacks, After(callbacks, INITIAL, before), steps);
            (forall step | Internal(step) :: !Enabled(end, step)) ==> end.phase.Finished?
  {
    var s := After(callbacks, INITIAL, before);
    RunKeepsInv(callbacks, before);
    InternalRunsAreBounded(callbacks, s, steps);
    var end := After(callbacks, s, steps);
    if !end.phase.Finished? {
      var step := NoDeadlock(end);
    }
  }

  // ---------- what can happen ----------

  /** What comes from outside the session can come at any moment of any run. */
  lemma AnythingMayArrive(callbacks: Callbacks, steps: seq<Step>, step: Step)
    requires IsRun(callbacks, steps)
    requires step.NotifyReceived? || step.QueuePackets? || step.QueueHandshakeResponse? || step.HandshakeTimeout?
    ensures IsRun(callbacks, steps + [step])
  {
    assert (steps + [step])[..|steps|] == steps;
  }

  /** A session that has not been stopped can be started once. */
  lemma StartableOnce(callbacks: Callbacks, steps: seq<Step>)
    requires IsRun(callbacks, steps) && After(callbacks, INITIAL, steps).phase.Live?
    ensures IsRun(callbacks, steps + [Start]) <==> Start !in steps
  {
    assert (steps + [Start])[..|steps|] == steps;
    WriterExactly(callbacks, steps);
  }

  predicate Healthy(step: Step) {
    Internal(step) && !step.WriteFails? && !(step.StopNotifyReturns? && step.failure.Some?)
  }

  /** `stop()` is under way, nothing has gone wrong, and a sentinel stands behind everything. */
  predicate Flushing(s: State) {
    && !s.phase.Live? && !s.writer.NotStarted? && !s.writer.Failed? && s.stopError.None?
    && (s.history.sentinelAt.Some? ==> s.history.sentinelAt.value == |s.history.enqueued|)
  }

  lemma HealthyStep(s: State) returns (step: Step)
    requires Inv(s) && Flushing(s) && !s.phase.Finished?
    ensures Healthy(step) && Enabled(s, step)
  {
    if s.phase.StoppingNotify? {
      step := StopNotifyReturns(None);
    } else if Enabled(s, StopWakes) {
      step := StopWakes;
    } else if s.writer.Writing? {
      step := WriteSucceeds;
    } else if s.sendQueue != [] {
      step := WriterTakes;
    } else {
      step := JoinRuns;
    }
  }

  lemma HealthyKeepsFlushing(callbacks: Callbacks, s: State, step: Step)
    requires Inv(s) && Flushing(s) && Enabled(s, step) && Healthy(step)
    ensures Flushing(Apply(callbacks, s, step))
    ensures Apply(callbacks, s, step).history.enqueued == s.history.enqueued
  {
  }

  lemma FlushedAtTheEnd(s: State)
    requires Inv(s) && Flushing(s) && s.phase.Finished?
    ensures s.phase == Finished(Normal) && s.history.written == s.history.enqueued
  {
    assert s.history.taken + Packets(s.sendQueue) == s.history.enqueued;
  }

  lemma {:induction false} CanFlush(callbacks: Callbacks, s: State) returns (steps: seq<Step>)
    requires Inv(s) && Flushing(s)
    ensures IsRunFrom(callbacks, s, steps) && forall i | 0 <= i < |steps| :: Healthy(steps[i])
    ensures var end := After(callbacks, s, steps);
            end.phase == Finished(Normal) && end.history.written == end.history.enqueued == s.history.enqueued
    decreases Work(s)
  {
    if s.phase.Finished? {
      steps := [];
      FlushedAtTheEnd(s);
    } else {
      var step := HealthyStep(s);
      var next := Apply(callbacks, s, step);
      StepKeepsInv(callbacks, s, step);
      HealthyKeepsFlushing(callbacks, s, step);
      InternalStepWorks(callbacks, s, step);
      var rest := CanFlush(callbacks, next);
      OneStep(callbacks, s, step);
      RunsJoin(callbacks, s, [step], rest);
      steps := [step] + rest;
    }
  }

  lemma OneStep(callbacks: Callbacks, s: State, step: Step)
    requires Enabled(s, step)
    ensures IsRunFrom(callbacks, s, [step]) && After(callbacks, s, [step]) == Apply(callbacks, s, step)
  {
    var front := [step][..|[step]| - 1];
    assert front == [] && [step][|[step]| - 1] == step;
    assert IsRunFrom(callbacks, s, front) && After(callbacks, s, front) == s;
  }

  /** A started session whose writer lives can be stopped at any moment, and if nothing goes wrong
      from then on `stop()` returns having written everything queued, in order. */
  lemma StopCanFlush(callbacks: Callbacks, before: seq<Step>) returns (rest: seq<Step>)
    requires IsRun(callbacks, before) && Start in before
    requires var s := After(callbacks, INITIAL, before); s.phase.Live? && !s.writer.Failed?
    ensures forall i | 0 <= i < |rest| :: Healthy(rest[i])
    ensures IsRun(callbacks, before + [StopCalled] + rest)
    ensures var end := After(callbacks, INITIAL, before + [StopCalled] + rest);
            && end.phase == Finished(Normal)
            && end.history.written == After(callbacks, INITIAL, before).history.enqueued
  {
    var s := After(callbacks, INITIAL, before);
    RunKeepsInv(callbacks, before);
    WriterExactly(callbacks, before);
    StopErrorIsUnset(callbacks, before);
    StepKeepsInv(callbacks, s, StopCalled);
    OneStep(callbacks, s, StopCalled);
    RunsJoin(callbacks, INITIAL, before, [StopCalled]);
    rest := CanFlush(callbacks, Apply(callbacks, s, StopCalled));
    RunsJoin(callbacks, INITIAL, before + [StopCalled], rest);
  }

  lemma StepLeavesStopErrorUnset(callbacks: Callbacks, s: State, step: Step)
    requires Enabled(s, step)
    requires s.phase.Live? || s.phase.StoppingNotify? ==> s.stopError.None?
    ensures var s' := Apply(callbacks, s, step); s'.phase.Live? || s'.phase.StoppingNotify? ==> s'.stopError.None?
  {
  }

  lemma {:induction false} StopErrorIsUnset(callbacks: Callbacks, steps: seq<Step>)
    requires IsRun(callbacks, steps)
    ensures var s := After(callbacks, INITIAL, steps); s.phase.Live? || s.phase.StoppingNotify? ==> s.stopError.None?
  {
    if steps == [] {
    } else {
      var front := steps[..|steps| - 1];
      StopErrorIsUnset(callbacks, front);
      StepLeavesStopErrorUnset(callbacks, After(callbacks, INITIAL, front), steps[|steps| - 1]);
    }
  }

  /** For instance, whatever is queued in a fresh session is written when it is started and stopped. */
  lemma FreshSessionFlushes(callbacks: Callbacks, packets: seq<Bytes>) returns (rest: seq<Step>)
    ensures forall i | 0 <= i < |rest| :: Healthy(rest[i])
    ensures IsRun(callbacks, [Start, QueuePackets(packets), StopCalled] + rest)
    ensures var end := After(callbacks, INITIAL, [Start, QueuePackets(packets), StopCalled] + rest);
            end.phase == Finished(Normal) && end.history.written == packets
  {
    OneStep(callbacks, INITIAL, Start);
    var started := Apply(callbacks, INITIAL, Start);
    OneStep(callbacks, started, QueuePackets(packets));
    RunsJoin(callbacks, INITIAL, [Start], [QueuePackets(packets)]);
    var before := [Start] + [QueuePackets(packets)];
    assert Apply(callbacks, started, QueuePackets(packets)).history.enqueued == packets;
    rest := StopCanFlush(callbacks, before);
    assert before + [StopCalled] == [Start, QueuePackets(packets), StopCalled];
  }
}
