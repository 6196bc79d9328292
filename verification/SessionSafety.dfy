/** Invariants of every run of the session, and what `stop()` may conclude from them. */
module SessionSafety {
  import opened Bits
  import opened Wrappers
  import opened Sequences
  import Mcsp
  import Commands
  import opened Handshake
  import opened Session

  // ---------- the invariant ----------

  /** `task_done()` accounting: unfinished items are the queued ones and the one in flight. */
  predicate Accounted(s: State) {
    && s.unfinished == |s.sendQueue| + (if s.writer.Writing? then 1 else 0)
    && !s.history.overcounted
    && (s.join.Blocked? ==> s.unfinished > 0)
  }

  /** Every packet ever put is either taken or still queued, in order. */
  predicate Conserved(s: State) {
    s.history.taken + Packets(s.sendQueue) == s.history.enqueued
  }

  /** Every packet taken was written, except the last one while it is in flight or has failed. */
  predicate WrittenUpToDate(s: State) {
    var h := s.history;
    match s.writer
    case Writing(packet) => h.taken == h.written + [packet]
    case Failed(_) => |h.taken| == |h.written| + 1 && h.written <= h.taken
    case _ => h.taken == h.written
  }

  /** The sentinel sits behind exactly the packets put before it, until the writer returns on it. */
  predicate SentinelPlaced(s: State) {
    var q, h := s.sendQueue, s.history;
    match h.sentinelAt
    case None => !s.writer.Returned? && (forall i | 0 <= i < |q| :: q[i].Some?)
    case Some(n) =>
      && |h.taken| <= n <= |h.enqueued|
      && if s.writer.Returned? then n == |h.taken| && (forall i | 0 <= i < |q| :: q[i].Some?)
         else n - |h.taken| < |q| && (forall i | 0 <= i < |q| :: q[i].None? <==> i == n - |h.taken|)
  }

  /** No join task outlives `stop()`. */
  predicate JoinSettled(s: State) {
    s.phase.Finished? ==> s.join.NotCreated? || s.join.Joined? || s.join.JoinCancelled?
  }

  predicate PhaseConsistent(s: State) {
    JoinSettled(s) &&
    match s.phase
    case Live => s.join.NotCreated? && s.history.sentinelAt.None?
    case StoppingNotify => s.join.NotCreated? && s.history.sentinelAt.None?
    case Waiting =>
      && !s.join.NotCreated? && !s.join.JoinCancelled?
      && s.history.sentinelAt.None? && !s.writer.NotStarted?
    case AwaitingWriter => s.join.Joined? && s.history.sentinelAt.Some? && !s.writer.NotStarted?
    case CancellingJoin(outcome) =>
      s.history.sentinelAt.None? && s.writer.Failed? && outcome == WriterError(s.writer.error)
    case Finished(outcome) =>
      if s.writer.Failed? then outcome == WriterError(s.writer.error)
      else (s.writer.Returned? || s.writer.NotStarted?) && outcome == StopResult(s)
  }

  predicate Inv(s: State) {
    Accounted(s) && Conserved(s) && WrittenUpToDate(s) && SentinelPlaced(s) && PhaseConsistent(s)
  }

  // ---------- queue lemmas ----------

  lemma {:induction false} PacketsConcat(a: seq<Option<Bytes>>, b: seq<Option<Bytes>>)
    ensures Packets(a + b) == Packets(a) + Packets(b)
  {
    if a == [] {
      assert a + b == b;
    } else {
      PacketsConcat(a[1..], b);
      assert (a + b)[0] == a[0] && (a + b)[1..] == a[1..] + b;
      ConcatAssociates(if a[0].Some? then [a[0].value] else [], Packets(a[1..]), Packets(b));
    }
  }

  lemma {:induction false} PacketsOfEntries(packets: seq<Bytes>)
    ensures Packets(Entries(packets)) == packets
    ensures forall i | 0 <= i < |packets| :: Entries(packets)[i] == Some(packets[i])
  {
    if packets == [] {
    } else {
      PacketsOfEntries(packets[1..]);
      assert Entries(packets)[1..] == Entries(packets[1..]);
    }
  }

  lemma {:induction false} PacketsOfSome(es: seq<Option<Bytes>>)
    requires forall i | 0 <= i < |es| :: es[i].Some?
    ensures |Packets(es)| == |es|
  {
    if es == [] {
    } else {
      PacketsOfSome(es[1..]);
    }
  }

  // ---------- preservation ----------

  lemma PutKeepsInv(s: State, packets: seq<Bytes>)
    requires Inv(s)
    ensures Inv(Put(s, packets))
  {
    PutKeepsConserved(s, packets);
    PutKeepsSentinel(s, packets);
  }

  lemma PutKeepsConserved(s: State, packets: seq<Bytes>)
    requires Conserved(s)
    ensures Conserved(Put(s, packets))
  {
    var q, more := s.sendQueue, Entries(packets);
    assert Packets(q + more) == Packets(q) + packets by {
      PacketsConcat(q, more);
      PacketsOfEntries(packets);
    }
    ConcatAssociates(s.history.taken, Packets(q), packets);
  }

  lemma PutKeepsSentinel(s: State, packets: seq<Bytes>)
    requires SentinelPlaced(s)
    ensures SentinelPlaced(Put(s, packets))
  {
    PacketsOfEntries(packets);
  }

  /** The invariant says nothing about replies held back or about handshake detection. */
  predicate SameQueueAndStop(s: State, s': State) {
    && s'.sendQueue == s.sendQueue && s'.unfinished == s.unfinished && s'.writer == s.writer
    && s'.join == s.join && s'.phase == s.phase && s'.stopError == s.stopError && s'.history == s.history
  }

  lemma SameQueueKeepsInv(s: State, s': State)
    requires Inv(s) && SameQueueAndStop(s, s')
    ensures Inv(s')
  {
    assert s' == s.(startupPacketsPending := s'.startupPacketsPending, startupReady := s'.startupReady,
                    handshakeCommands := s'.handshakeCommands, handshakeFuture := s'.handshakeFuture);
  }

  lemma ReceivedKeepsInv(callbacks: Callbacks, s: State, payload: Bytes)
    requires Inv(s)
    ensures Inv(Received(callbacks, s, payload))
  {
    var replies := RepliesIn(callbacks, payload);
    PutKeepsInv(s, replies);
    SameQueueKeepsInv(
      if Mcsp.Split(payload).Ok? && s.startupReady then Put(s, replies) else s, Received(callbacks, s, payload));
  }

  lemma AnsweredKeepsInv(s: State, commands: seq<Commands.Command>)
    requires Inv(s)
    ensures Inv(Answered(s, commands))
  {
    var response := BuildHandshakeResponse(commands);
    if response.Ok? {
      var s1 := Put(s, response.value);
      PutKeepsInv(s, response.value);
      SameQueueKeepsInv(s1, s1.(startupReady := true));
      var s2 := Put(s1.(startupReady := true), s.startupPacketsPending);
      PutKeepsInv(s1.(startupReady := true), s.startupPacketsPending);
      SameQueueKeepsInv(s2, s2.(startupPacketsPending := []));
    }
  }

  lemma TakenKeepsInv(s: State)
    requires Inv(s) && Enabled(s, WriterTakes)
    ensures Inv(Taken(s))
  {
    var q := s.sendQueue;
    if q[0].Some? {
      ConcatAssociates(s.history.taken, [q[0].value], Packets(q[1..]));
    } else {
      assert Packets(q) == [] + Packets(q[1..]) == Packets(q[1..]);
    }
  }

  lemma WokenKeepsInv(s: State)
    requires Inv(s) && Enabled(s, StopWakes)
    ensures Inv(Woken(s))
  {
    if !WriterDone(s) {
      PacketsConcat(s.sendQueue, [None]);
      assert Packets(s.sendQueue + [None]) == Packets(s.sendQueue);
      PacketsOfSome(s.sendQueue);
    }
  }

  lemma WriteKeepsInv(callbacks: Callbacks, s: State, step: Step)
    requires Inv(s) && Enabled(s, step) && (step.WriteSucceeds? || step.WriteFails?)
    ensures Inv(Apply(callbacks, s, step))
  {
  }

  lemma StopKeepsInv(callbacks: Callbacks, s: State, step: Step)
    requires Inv(s) && Enabled(s, step)
    requires step.StopCalled? || step.StopNotifyReturns? || step.JoinRuns? || step.JoinCancellationEnds?
    ensures Inv(Apply(callbacks, s, step))
  {
    var s' := Apply(callbacks, s, step);
    assert s' == s.(join := s'.join, phase := s'.phase, stopError := s'.stopError);
  }

  lemma StepKeepsInv(callbacks: Callbacks, s: State, step: Step)
    requires Inv(s) && Enabled(s, step)
    ensures Inv(Apply(callbacks, s, step))
  {
    match step
    case Start =>
    case NotifyReceived(payload) => ReceivedKeepsInv(callbacks, s, payload);
    case QueuePackets(packets) => PutKeepsInv(s, packets);
    case QueueHandshakeResponse(commands) => AnsweredKeepsInv(s, commands);
    case HandshakeTimeout => SameQueueKeepsInv(s, Apply(callbacks, s, step));
    case WriterTakes => TakenKeepsInv(s);
    case WriteSucceeds => WriteKeepsInv(callbacks, s, step);
    case WriteFails(_) => WriteKeepsInv(callbacks, s, step);
    case StopCalled => StopKeepsInv(callbacks, s, step);
    case StopNotifyReturns(_) => StopKeepsInv(callbacks, s, step);
    case JoinRuns => StopKeepsInv(callbacks, s, step);
    case StopWakes => WokenKeepsInv(s);
    case JoinCancellationEnds => StopKeepsInv(callbacks, s, step);
  }

  /** The invariant holds after every run, whatever the interleaving. */
  lemma {:induction false} RunsKeepInv(callbacks: Callbacks, s: State, steps: seq<Step>)
    requires Inv(s) && IsRunFrom(callbacks, s, steps)
    ensures Inv(After(callbacks, s, steps))
  {
    if steps == [] {
    } else {
      RunsKeepInv(callbacks, s, steps[..|steps| - 1]);
      StepKeepsInv(callbacks, After(callbacks, s, steps[..|steps| - 1]), steps[|steps| - 1]);
    }
  }

  lemma {:induction false} RunKeepsInv(callbacks: Callbacks, steps: seq<Step>)
    requires IsRun(callbacks, steps)
    ensures Inv(After(callbacks, INITIAL, steps))
  {
    RunsKeepInv(callbacks, INITIAL, steps);
  }

  // ---------- histories only grow ----------

  /** The sentinel is put once, what was put before it never changes, and a dead writer stays dead. */
  predicate Extends(s: State, s': State) {
    && s.history.enqueued <= s'.history.enqueued
    && s.history.written <= s'.history.written
    && (s.history.sentinelAt.Some? ==> s'.history.sentinelAt == s.history.sentinelAt)
    && (s.writer.Failed? ==> s'.writer == s.writer)
    && (!s.writer.NotStarted? ==> !s'.writer.NotStarted?)
  }

  lemma StepKeepsWriter(callbacks: Callbacks, s: State, step: Step)
    requires Enabled(s, step)
    ensures s.writer.Failed? ==> Apply(callbacks, s, step).writer == s.writer
    ensures s.history.written <= Apply(callbacks, s, step).history.written
  {
  }

  lemma StepExtends(callbacks: Callbacks, s: State, step: Step)
    requires Inv(s) && Enabled(s, step)
    ensures Extends(s, Apply(callbacks, s, step))
  {
    StepKeepsWriter(callbacks, s, step);
    StepStarts(callbacks, s, step);
  }

  lemma {:induction false} RunExtends(callbacks: Callbacks, s: State, steps: seq<Step>)
    requires Inv(s) && IsRunFrom(callbacks, s, steps)
    ensures Extends(s, After(callbacks, s, steps))
  {
    if steps == [] {
    } else {
      var front := steps[..|steps| - 1];
      RunExtends(callbacks, s, front);
      RunsKeepInv(callbacks, s, front);
      StepExtends(callbacks, After(callbacks, s, front), steps[|steps| - 1]);
    }
  }

  // ---------- the writer exists once started ----------

  lemma StepStarts(callbacks: Callbacks, s: State, step: Step)
    requires Enabled(s, step)
    ensures Apply(callbacks, s, step).writer.NotStarted? <==> s.writer.NotStarted? && step != Start
  {
  }

  /** A session has a writer exactly when its run contains a start. */
  lemma {:induction false} WriterExactly(callbacks: Callbacks, steps: seq<Step>)
    requires IsRun(callbacks, steps)
    ensures !After(callbacks, INITIAL, steps).writer.NotStarted? <==> Start in steps
  {
    if steps == [] {
    } else {
      var front, last := steps[..|steps| - 1], steps[|steps| - 1];
      WriterExactly(callbacks, front);
      StepStarts(callbacks, After(callbacks, INITIAL, front), last);
      assert steps == front + [last];
    }
  }

  // ---------- the outcome of stop() ----------

  /** A session whose writer was started can end in three ways: the writer died and its error is
      raised whatever `stop_notify` said, or every packet put before the sentinel was written
      exactly once and in order, and then `stop()` returns or raises `stop_notify`'s own error. */
  lemma StopOutcome(callbacks: Callbacks, steps: seq<Step>)
    requires IsRun(callbacks, steps)
    requires Start in steps && After(callbacks, INITIAL, steps).phase.Finished?
    ensures var s := After(callbacks, INITIAL, steps);
            && (s.phase.outcome.WriterError? <==> s.writer.Failed?)
            && (s.writer.Failed? ==> s.phase.outcome == WriterError(s.writer.error))
            && (!s.writer.Failed? ==>
                  && s.history.sentinelAt.Some?
                  && s.history.written <= s.history.enqueued
                  && |s.history.written| == s.history.sentinelAt.value
                  && s.phase.outcome == match s.stopError case None => Normal case Some(e) => StopNotifyError(e))
  {
    RunKeepsInv(callbacks, steps);
    WriterExactly(callbacks, steps);
  }

  /** Any failed write makes `stop()` raise that write's error. */
  lemma FailedWriteIsRaised(callbacks: Callbacks, before: seq<Step>, error: string, after: seq<Step>)
    requires IsRun(callbacks, before + [WriteFails(error)] + after)
    requires After(callbacks, INITIAL, before + [WriteFails(error)] + after).phase.Finished?
    ensures After(callbacks, INITIAL, before + [WriteFails(error)] + after).phase == Finished(WriterError(error))
  {
    var failed := before + [WriteFails(error)];
    RunsCompose(callbacks, INITIAL, failed, after);
    RunKeepsInv(callbacks, failed);
    RunKeepsInv(callbacks, failed + after);
    RunEnds(callbacks, INITIAL, before, WriteFails(error));
    RunExtends(callbacks, After(callbacks, INITIAL, failed), after);
  }

  // ---------- the error of stop_notify ----------

  predicate NotifyStopped(s: State, failure: Option<string>) {
    !s.phase.Live? && !s.phase.StoppingNotify? && s.stopError == failure
  }

  lemma StepKeepsStopError(callbacks: Callbacks, s: State, step: Step, failure: Option<string>)
    requires Enabled(s, step) && NotifyStopped(s, failure)
    ensures NotifyStopped(Apply(callbacks, s, step), failure)
  {
  }

  lemma {:induction false} StopErrorIsKept(
    callbacks: Callbacks, s: State, steps: seq<Step>, failure: Option<string>)
    requires IsRunFrom(callbacks, s, steps) && NotifyStopped(s, failure)
    ensures NotifyStopped(After(callbacks, s, steps), failure)
  {
    if steps == [] {
    } else {
      var front := steps[..|steps| - 1];
      StopErrorIsKept(callbacks, s, front, failure);
      StepKeepsStopError(callbacks, After(callbacks, s, front), steps[|steps| - 1], failure);
    }
  }

  /** With a writer that did not die, `stop()` raises exactly what `stop_notify` raised. */
  lemma StopNotifyFailureIsRaised(
    callbacks: Callbacks, before: seq<Step>, failure: Option<string>, after: seq<Step>)
    requires IsRun(callbacks, before + [StopNotifyReturns(failure)] + after)
    requires var s := After(callbacks, INITIAL, before + [StopNotifyReturns(failure)] + after);
             s.phase.Finished? && !s.writer.Failed?
    ensures After(callbacks, INITIAL, before + [StopNotifyReturns(failure)] + after).phase ==
            Finished(match failure case None => Normal case Some(e) => StopNotifyError(e))
  {
    var stopped := before + [StopNotifyReturns(failure)];
    RunsCompose(callbacks, INITIAL, stopped, after);
    RunEnds(callbacks, INITIAL, before, StopNotifyReturns(failure));
    StopErrorIsKept(callbacks, After(callbacks, INITIAL, stopped), after, failure);
    RunKeepsInv(callbacks, stopped + after);
  }

  // ---------- the sentinel ----------

  /** `stop()` is about to wake up and put the sentinel. */
  predicate SendsSentinel(s: State) {
    s.phase.Waiting? && s.join.Joined? && !WriterDone(s)
  }

  lemma SentinelStep(callbacks: Callbacks, s: State, step: Step)
    requires Enabled(s, step) && s.history.sentinelAt.None?
    ensures var s' := Apply(callbacks, s, step);
            s'.history.sentinelAt.Some? ==>
              && step == StopWakes && !WriterDone(s)
              && s'.history.sentinelAt.value == |s.history.enqueued| && s'.history.enqueued == s.history.enqueued
  {
  }

  /** The `k`-th step put the sentinel, behind what had been put until then. */
  predicate IsSentinelOrigin(callbacks: Callbacks, steps: seq<Step>, k: nat)
    requires IsRun(callbacks, steps)
  {
    && k < |steps| && steps[k] == StopWakes && IsRun(callbacks, steps[..k])
    && var s, end := After(callbacks, INITIAL, steps[..k]), After(callbacks, INITIAL, steps);
       && SendsSentinel(s)
       && end.history.sentinelAt == Some(|s.history.enqueued|)
       && s.history.enqueued <= end.history.enqueued
  }

  lemma OriginStays(callbacks: Callbacks, front: seq<Step>, last: Step, k: nat)
    requires IsRun(callbacks, front + [last]) && IsRun(callbacks, front) && IsSentinelOrigin(callbacks, front, k)
    ensures IsSentinelOrigin(callbacks, front + [last], k)
  {
    RunEnds(callbacks, INITIAL, front, last);
    RunKeepsInv(callbacks, front);
    StepExtends(callbacks, After(callbacks, INITIAL, front), last);
    assert (front + [last])[..k] == front[..k];
  }

  lemma OriginStarts(callbacks: Callbacks, front: seq<Step>, last: Step)
    requires IsRun(callbacks, front + [last]) && IsRun(callbacks, front)
    requires After(callbacks, INITIAL, front).history.sentinelAt.None?
    requires After(callbacks, INITIAL, front + [last]).history.sentinelAt.Some?
    ensures IsSentinelOrigin(callbacks, front + [last], |front|)
  {
    RunEnds(callbacks, INITIAL, front, last);
    RunKeepsInv(callbacks, front);
    SentinelStep(callbacks, After(callbacks, INITIAL, front), last);
    assert (front + [last])[..|front|] == front;
  }

  /** A sentinel was put by a wake-up of `stop()` whose join had returned while the writer lived. */
  lemma {:induction false} SentinelOrigin(callbacks: Callbacks, steps: seq<Step>) returns (k: nat)
    requires IsRun(callbacks, steps)
    ensures After(callbacks, INITIAL, steps).history.sentinelAt.Some? ==> IsSentinelOrigin(callbacks, steps, k)
  {
    if steps == [] {
      k := 0;
    } else {
      var front, last := steps[..|steps| - 1], steps[|steps| - 1];
      assert steps == front + [last];
      k := SentinelOrigin(callbacks, front);
      if After(callbacks, INITIAL, front).history.sentinelAt.Some? {
        OriginStays(callbacks, front, last, k);
      } else if After(callbacks, INITIAL, steps).history.sentinelAt.Some? {
        OriginStarts(callbacks, front, last);
        k := |front|;
      }
    }
  }

  /** `stop()` has ended without a writer error. */
  predicate StoppedCleanly(s: State) {
    s.phase.Finished? && !s.phase.outcome.WriterError?
  }

  /** When `stop()` ends without a writer error, everything put before it woke up to send the
      sentinel has been written, exactly once and in order, and nothing else has. */
  lemma NormalStopFlushes(callbacks: Callbacks, steps: seq<Step>) returns (k: nat)
    requires IsRun(callbacks, steps)
    requires Start in steps && StoppedCleanly(After(callbacks, INITIAL, steps))
    ensures k < |steps| && steps[k] == StopWakes && IsRun(callbacks, steps[..k])
    ensures SendsSentinel(After(callbacks, INITIAL, steps[..k]))
    ensures After(callbacks, INITIAL, steps).history.written ==
            After(callbacks, INITIAL, steps[..k]).history.enqueued
  {
    StopOutcome(callbacks, steps);
    k := SentinelOrigin(callbacks, steps);
  }

  // ---------- what was queued before stop() ----------

  lemma StepIsNotUndone(callbacks: Callbacks, s: State, step: Step)
    requires Enabled(s, step) && !s.phase.Live?
    ensures !Apply(callbacks, s, step).phase.Live?
  {
  }

  lemma {:induction false} StopIsNotUndone(callbacks: Callbacks, s: State, steps: seq<Step>)
    requires IsRunFrom(callbacks, s, steps) && !s.phase.Live?
    ensures !After(callbacks, s, steps).phase.Live?
  {
    if steps == [] {
    } else {
      var front := steps[..|steps| - 1];
      StopIsNotUndone(callbacks, s, front);
      StepIsNotUndone(callbacks, After(callbacks, s, front), steps[|steps| - 1]);
    }
  }

  lemma PrefixIsRun(callbacks: Callbacks, steps: seq<Step>, k: nat)
    requires IsRun(callbacks, steps) && k <= |steps|
    ensures IsRun(callbacks, steps[..k]) && IsRunFrom(callbacks, After(callbacks, INITIAL, steps[..k]), steps[k..])
    ensures After(callbacks, INITIAL, steps) == After(callbacks, After(callbacks, INITIAL, steps[..k]), steps[k..])
  {
    assert steps == steps[..k] + steps[k..];
    RunsCompose(callbacks, INITIAL, steps[..k], steps[k..]);
  }

  /** Between two moments of a run the history only grows. */
  lemma HistoryGrows(callbacks: Callbacks, steps: seq<Step>, j: nat, k: nat)
    requires j <= k <= |steps| && IsRun(callbacks, steps)
    requires IsRun(callbacks, steps[..j]) && IsRun(callbacks, steps[..k])
    ensures Extends(After(callbacks, INITIAL, steps[..j]), After(callbacks, INITIAL, steps[..k]))
    ensures !After(callbacks, INITIAL, steps[..j]).phase.Live? ==> !After(callbacks, INITIAL, steps[..k]).phase.Live?
  {
    PrefixIsRun(callbacks, steps[..k], j);
    assert steps[..k][..j] == steps[..j];
    RunKeepsInv(callbacks, steps[..j]);
    RunExtends(callbacks, After(callbacks, INITIAL, steps[..j]), steps[..k][j..]);
    if !After(callbacks, INITIAL, steps[..j]).phase.Live? {
      StopIsNotUndone(callbacks, After(callbacks, INITIAL, steps[..j]), steps[..k][j..]);
    }
  }

  /** In a started session that `stop()` ends without a writer error, all that had been queued when
      `stop()` was called has been written, first and in order. */
  lemma QueuedBeforeStopIsWritten(callbacks: Callbacks, before: seq<Step>, after: seq<Step>)
    requires IsRun(callbacks, before + [StopCalled] + after) && Start in before + [StopCalled] + after
    requires StoppedCleanly(After(callbacks, INITIAL, before + [StopCalled] + after))
    ensures IsRun(callbacks, before)
    ensures After(callbacks, INITIAL, before).history.enqueued <=
            After(callbacks, INITIAL, before + [StopCalled] + after).history.written
  {
    var steps := before + [StopCalled] + after;
    var n := |before|;
    PrefixIsRun(callbacks, steps, n);
    PrefixIsRun(callbacks, steps, n + 1);
    assert steps[..n] == before && steps[..n + 1] == before + [StopCalled];
    RunEnds(callbacks, INITIAL, before, StopCalled);
    var k := NormalStopFlushes(callbacks, steps);
    if k < n {
      HistoryGrows(callbacks, steps, k, n);
    } else {
      HistoryGrows(callbacks, steps, n, k);
    }
  }

  /** `join()` lets go only after a moment, since its task was created, at which nothing was
      unfinished: the queue was empty and no write in flight. */
  lemma {:induction false} JoinWaitsForTheQueue(callbacks: Callbacks, steps: seq<Step>) returns (k: nat)
    requires IsRun(callbacks, steps)
    ensures var s := After(callbacks, INITIAL, steps);
            s.join.Released? || s.join.Joined? ==>
              && k <= |steps| && IsRun(callbacks, steps[..k])
              && var drained := After(callbacks, INITIAL, steps[..k]);
                 !drained.join.NotCreated? && drained.sendQueue == [] && !drained.writer.Writing?
  {
    k := |steps|;
    assert steps[..|steps|] == steps;
    RunKeepsInv(callbacks, steps);
    if steps == [] {
    } else {
      var front, last := steps[..|steps| - 1], steps[|steps| - 1];
      var s := After(callbacks, INITIAL, front);
      if s.join.Released? || s.join.Joined? {
        k := JoinWaitsForTheQueue(callbacks, front);
        assert steps[..k] == front[..k];
      } else {
        StepDrains(callbacks, s, last);
      }
    }
  }

  lemma StepDrains(callbacks: Callbacks, s: State, step: Step)
    requires Enabled(s, step) && !s.join.Released? && !s.join.Joined?
    ensures var s' := Apply(callbacks, s, step);
            s'.join.Released? || s'.join.Joined? ==> s'.unfinished <= 0
  {
  }

  // ---------- ordering ----------

  /** The replies to everything received in a run, in arrival order. */
  function Notified(callbacks: Callbacks, steps: seq<Step>): seq<Bytes> {
    if steps == [] then []
    else
      var last := steps[|steps| - 1];
      Notified(callbacks, steps[..|steps| - 1])
      + (if last.NotifyReceived? then RepliesIn(callbacks, last.payload) else [])
  }

  /** What the caller queued itself. */
  function Direct(steps: seq<Step>): seq<Bytes> {
    if steps == [] then []
    else
      var last := steps[|steps| - 1];
      Direct(steps[..|steps| - 1]) + (if last.QueuePackets? then last.packets else [])
  }

  /** Both, as they came. */
  function Arrived(callbacks: Callbacks, steps: seq<Step>): seq<Bytes> {
    if steps == [] then []
    else
      var last := steps[|steps| - 1];
      Arrived(callbacks, steps[..|steps| - 1])
      + (if last.NotifyReceived? then RepliesIn(callbacks, last.payload)
         else if last.QueuePackets? then last.packets else [])
  }

  predicate NoResponse(steps: seq<Step>) {
    forall i | 0 <= i < |steps| :: !steps[i].QueueHandshakeResponse?
  }

  /** The drivers queue nothing but the one response. */
  predicate NoOtherPuts(steps: seq<Step>) {
    NoResponse(steps) && forall i | 0 <= i < |steps| :: !steps[i].QueuePackets?
  }

  lemma {:induction false} DriversQueueNothingElse(callbacks: Callbacks, steps: seq<Step>)
    requires NoOtherPuts(steps)
    ensures Direct(steps) == [] && Arrived(callbacks, steps) == Notified(callbacks, steps)
  {
    if steps == [] {
    } else {
      DriversQueueNothingElse(callbacks, steps[..|steps| - 1]);
    }
  }

  lemma StepRoutesReplies(callbacks: Callbacks, s: State, step: Step)
    requires Enabled(s, step) && !step.QueueHandshakeResponse?
    ensures var s' := Apply(callbacks, s, step);
            var replies := if step.NotifyReceived? then RepliesIn(callbacks, step.payload) else [];
            var direct := if step.QueuePackets? then step.packets else [];
            && s'.startupReady == s.startupReady
            && s'.history.enqueued ==
               s.history.enqueued + (if step.NotifyReceived? && s.startupReady then replies else direct)
            && s'.startupPacketsPending == s.startupPacketsPending + (if s.startupReady then [] else replies)
  {
  }

  lemma {:induction false} RunRoutesReplies(callbacks: Callbacks, s: State, steps: seq<Step>)
    requires IsRunFrom(callbacks, s, steps) && NoResponse(steps)
    ensures var s' := After(callbacks, s, steps);
            && s'.startupReady == s.startupReady
            && s'.history.enqueued ==
               s.history.enqueued + (if s.startupReady then Arrived(callbacks, steps) else Direct(steps))
            && s'.startupPacketsPending ==
               s.startupPacketsPending + (if s.startupReady then [] else Notified(callbacks, steps))
  {
    if steps == [] {
    } else {
      var front, last := steps[..|steps| - 1], steps[|steps| - 1];
      RunRoutesReplies(callbacks, s, front);
      StepRoutesReplies(callbacks, After(callbacks, s, front), last);
      var replies := if last.NotifyReceived? then RepliesIn(callbacks, last.payload) else [];
      var direct := if last.QueuePackets? then last.packets else [];
      ConcatAssociates(s.history.enqueued, Direct(front), direct);
      ConcatAssociates(s.history.enqueued, Arrived(callbacks, front), if last.NotifyReceived? then replies else direct);
      ConcatAssociates(s.startupPacketsPending, Notified(callbacks, front), replies);
    }
  }

  /** Before the handshake is answered only what the caller queues itself is queued, and the
      replies wait, in order. */
  lemma NothingBeforeTheResponse(callbacks: Callbacks, before: seq<Step>)
    requires IsRun(callbacks, before) && NoResponse(before)
    ensures var s := After(callbacks, INITIAL, before);
            && s.history.taken + Packets(s.sendQueue) == s.history.enqueued == Direct(before)
            && s.startupPacketsPending == Notified(callbacks, before)
  {
    RunRoutesReplies(callbacks, INITIAL, before);
    RunKeepsInv(callbacks, before);
  }

  lemma AnswerReleasesPending(s: State, commands: seq<Commands.Command>)
    requires BuildHandshakeResponse(commands).Ok?
    ensures var s' := Answered(s, commands);
            && s'.startupReady && s'.startupPacketsPending == []
            && s'.history.enqueued ==
               s.history.enqueued + (BuildHandshakeResponse(commands).value + s.startupPacketsPending)
  {
    ConcatAssociates(s.history.enqueued, BuildHandshakeResponse(commands).value, s.startupPacketsPending);
  }

  /** What a run with one handshake response puts in the queue. */
  function QueuedInOrder(callbacks: Callbacks, before: seq<Step>, response: seq<Bytes>, after: seq<Step>): seq<Bytes> {
    Direct(before) + (response + Notified(callbacks, before)) + Arrived(callbacks, after)
  }

  lemma EnqueuedByResponse(
    callbacks: Callbacks, before: seq<Step>, commands: seq<Commands.Command>, after: seq<Step>)
    requires NoResponse(before) && NoResponse(after)
    requires BuildHandshakeResponse(commands).Ok?
    requires IsRun(callbacks, before + [QueueHandshakeResponse(commands)] + after)
    ensures var s := After(callbacks, INITIAL, before + [QueueHandshakeResponse(commands)] + after);
            && s.startupPacketsPending == []
            && s.history.enqueued == QueuedInOrder(callbacks, before, BuildHandshakeResponse(commands).value, after)
  {
    var answered := before + [QueueHandshakeResponse(commands)];
    RunsCompose(callbacks, INITIAL, answered, after);
    QueuedByResponse(callbacks, before, commands);
    RunRoutesReplies(callbacks, After(callbacks, INITIAL, answered), after);
  }

  lemma QueuedByResponse(callbacks: Callbacks, before: seq<Step>, commands: seq<Commands.Command>)
    requires NoResponse(before) && BuildHandshakeResponse(commands).Ok?
    requires IsRun(callbacks, before + [QueueHandshakeResponse(commands)])
    ensures var s := After(callbacks, INITIAL, before + [QueueHandshakeResponse(commands)]);
            && s.startupReady && s.startupPacketsPending == []
            && s.history.enqueued ==
               Direct(before) + (BuildHandshakeResponse(commands).value + Notified(callbacks, before))
  {
    RunEnds(callbacks, INITIAL, before, QueueHandshakeResponse(commands));
    NothingBeforeTheResponse(callbacks, before);
    AnswerReleasesPending(After(callbacks, INITIAL, before), commands);
  }

  /** With one handshake response, what is taken and still queued is what the caller had queued
      before, the nine response packets, every reply held back until then, and after that
      everything as it comes; nothing is held back any more. */
  lemma ResponseThenReplies(
    callbacks: Callbacks, before: seq<Step>, commands: seq<Commands.Command>, after: seq<Step>)
    requires NoResponse(before) && NoResponse(after)
    requires BuildHandshakeResponse(commands).Ok?
    requires IsRun(callbacks, before + [QueueHandshakeResponse(commands)] + after)
    ensures var s := After(callbacks, INITIAL, before + [QueueHandshakeResponse(commands)] + after);
            && s.startupPacketsPending == []
            && |BuildHandshakeResponse(commands).value| == 9
            && s.history.taken + Packets(s.sendQueue) ==
               QueuedInOrder(callbacks, before, BuildHandshakeResponse(commands).value, after)
  {
    EnqueuedByResponse(callbacks, before, commands, after);
    RunKeepsInv(callbacks, before + [QueueHandshakeResponse(commands)] + after);
    HandshakeResponse(commands, Mcsp.DEFAULT_MAX_PACKET_SIZE);
  }

  /** What such a run queues in its first `k` steps, the response being step `|before|`. */
  function SentUpTo(
    callbacks: Callbacks, before: seq<Step>, response: seq<Bytes>, after: seq<Step>, k: nat): seq<Bytes>
    requires k <= |before| + 1 + |after|
  {
    if k <= |before| then Direct(before[..k])
    else QueuedInOrder(callbacks, before, response, after[..k - |before| - 1])
  }

  /** A whole session with one handshake response that `stop()` ends without a writer error: if
      the response was queued before `stop()` sent its sentinel, the bike was written all of that
      up to the sentinel, once each and in order; if it came too late, only what the caller had
      queued itself. */
  lemma OneResponseDelivered(
    callbacks: Callbacks, before: seq<Step>, commands: seq<Commands.Command>, after: seq<Step>)
    returns (k: nat)
    requires NoResponse(before) && NoResponse(after)
    requires BuildHandshakeResponse(commands).Ok?
    requires IsRun(callbacks, before + [QueueHandshakeResponse(commands)] + after)
    ensures var steps := before + [QueueHandshakeResponse(commands)] + after;
            Start in steps && StoppedCleanly(After(callbacks, INITIAL, steps)) ==>
              && k < |steps| && steps[k] == StopWakes && IsRun(callbacks, steps[..k])
              && SendsSentinel(After(callbacks, INITIAL, steps[..k]))
              && After(callbacks, INITIAL, steps).history.written ==
                 SentUpTo(callbacks, before, BuildHandshakeResponse(commands).value, after, k)
  {
    var steps := before + [QueueHandshakeResponse(commands)] + after;
    k := 0;
    if Start in steps && StoppedCleanly(After(callbacks, INITIAL, steps)) {
      k := NormalStopFlushes(callbacks, steps);
      EnqueuedUpTo(callbacks, before, commands, after, k, steps[..k]);
    }
  }

  lemma EnqueuedUpTo(
    callbacks: Callbacks, before: seq<Step>, commands: seq<Commands.Command>, after: seq<Step>, k: nat,
    first: seq<Step>)
    requires NoResponse(before) && NoResponse(after)
    requires BuildHandshakeResponse(commands).Ok?
    requires k < |before| + 1 + |after|
    requires (before + [QueueHandshakeResponse(commands)] + after)[k] == StopWakes
    requires first == (before + [QueueHandshakeResponse(commands)] + after)[..k] && IsRun(callbacks, first)
    ensures After(callbacks, INITIAL, first).history.enqueued ==
            SentUpTo(callbacks, before, BuildHandshakeResponse(commands).value, after, k)
  {
    if k < |before| {
      assert first == before[..k] by { CutAround(before, QueueHandshakeResponse(commands), after, k); }
      NothingBeforeTheResponse(callbacks, first);
    } else {
      assert k > |before| by { CutAround(before, QueueHandshakeResponse(commands), after, k); }
      var sent := after[..k - |before| - 1];
      assert first == before + [QueueHandshakeResponse(commands)] + sent by {
        CutAround(before, QueueHandshakeResponse(commands), after, k);
      }
      EnqueuedByResponse(callbacks, before, commands, sent);
    }
  }

  lemma CutAround(before: seq<Step>, middle: Step, after: seq<Step>, k: nat)
    requires k < |before| + 1 + |after| && (before + [middle] + after)[k] != middle
    ensures k < |before| ==> (before + [middle] + after)[..k] == before[..k]
    ensures k >= |before| ==>
              k > |before| && (before + [middle] + after)[..k] == before + [middle] + after[..k - |before| - 1]
  {
  }

  /** For a driver that queues nothing else: what is taken and still queued is the nine response
      packets and then the replies to every message handled, in arrival order, whether it came
      before or after the response. */
  lemma DriversSendResponseThenReplies(
    callbacks: Callbacks, before: seq<Step>, commands: seq<Commands.Command>, after: seq<Step>)
    requires NoOtherPuts(before) && NoOtherPuts(after)
    requires BuildHandshakeResponse(commands).Ok?
    requires IsRun(callbacks, before + [QueueHandshakeResponse(commands)] + after)
    ensures var s := After(callbacks, INITIAL, before + [QueueHandshakeResponse(commands)] + after);
            s.history.taken + Packets(s.sendQueue) ==
            BuildHandshakeResponse(commands).value + Notified(callbacks, before) + Notified(callbacks, after)
  {
    var response := BuildHandshakeResponse(commands).value;
    ResponseThenReplies(callbacks, before, commands, after);
    var held := response + Notified(callbacks, before);
    assert Direct(before) == [] by { DriversQueueNothingElse(callbacks, before); }
    assert [] + held == held;
    assert Arrived(callbacks, after) == Notified(callbacks, after) by { DriversQueueNothingElse(callbacks, after); }
  }
}
