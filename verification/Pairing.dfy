/** The pair/trust/connect sequence of `bosch_ble/bluez.py` against an arbitrary environment. */
module Pairing {
  import opened Wrappers

  /** What BlueZ last said about the device; `None` is "unknown". */
  datatype DeviceState = DeviceState(
    visible: bool, paired: Option<bool>, trusted: Option<bool>, connected: Option<bool>,
    pairingAdvertisement: Option<bool>)

  datatype Backend = Dbus | Btmgmt

  /** The effects, in the code's order. `Preflight` is the scan for a device BlueZ does not know,
      `Rescan` the one inside each attempt. */
  datatype Command =
    | Info | Preflight | RegisterAgent | Sudo
    | PowerOff | SysConfig | Privacy(on: bool) | Bondable | PowerOn | Pairable | Rescan | LoadParameters
    | Pair(backend: Backend) | ReadState | Sleep | Trust | Connect

  /** What a command came to: an exception, or a return code, whether its text looks transient or
      says the device is not available, and the device state it reports. */
  datatype Reply = Reply(raised: bool, ok: bool, transient: bool, unavailable: bool, state: DeviceState)

  datatype Event = Event(command: Command, reply: Reply)
  type Trace = seq<Event>

  /** Any environment at all: its answer may depend on everything that happened before. */
  type Environment = (Trace, Command) -> Reply

  datatype Failure =
    | Raised | SetupFailed(step: Command) | Invisible | NotPairing
    | PairFailed | TrustFailed | ConnectFailed | NotConnected

  predicate Succeeded(e: Event, command: Command) {
    e.command == command && !e.reply.raised && e.reply.ok
  }

  predicate Ready(s: DeviceState) {
    s.visible && (s.paired == Some(true) || s.pairingAdvertisement != Some(false))
  }

  // ---------- the protocol, one command at a time ----------

  /** How many pair commands were issued and the device state the code works from. */
  datatype Progress = Progress(pairs: nat, working: Option<DeviceState>)

  predicate ReportsKnownState(e: Event) {
    !e.reply.raised && ((e.command == Info && !e.reply.unavailable) || e.command == Preflight || e.command == Rescan)
  }

  /** The progress made by the first `n` events. */
  function So(t: Trace, n: nat): Progress
    requires n <= |t|
  {
    if n == 0 then Progress(0, None)
    else
      var p, e := So(t, n - 1), t[n - 1];
      Progress(
        p.pairs + (if e.command.Pair? then 1 else 0),
        if ReportsKnownState(e) then Some(e.reply.state) else p.working)
  }

  function When(condition: bool, command: Command): Option<Command> {
    if condition then Some(command) else None
  }

  function OncePaired(working: Option<DeviceState>): Option<Command> {
    Some(if working.Some? && working.value.trusted == Some(true) then Connect else Trust)
  }

  function AfterLook(t: Trace, n: nat): Option<Command>
    requires 2 <= n <= |t|
  {
    var cause, look := t[n - 2], t[n - 1].reply.state;
    match cause.command
    case Pair(_) =>
      if look.paired == Some(true) then OncePaired(So(t, n).working)
      else When(So(t, n).pairs < 3 && cause.reply.transient, Sleep)
    case Trust => When(look.trusted == Some(true), Connect)
    case _ => None
  }

  /** The command issued after the first `n` events, if the run goes on. */
  function Next(backend: Backend, privacy: bool, t: Trace, n: nat): Option<Command>
    requires n <= |t|
  {
    if n == 0 then Some(Info)
    else if t[n - 1].reply.raised then None
    else
      var last := t[n - 1].reply;
      match t[n - 1].command
      case Info => Some(if last.unavailable then Preflight else RegisterAgent)
      case Preflight => Some(RegisterAgent)
      case RegisterAgent =>
        var working := So(t, n).working;
        if working.Some? && working.value.paired == Some(true) then OncePaired(working) else Some(Sudo)
      case Sudo => When(last.ok, PowerOff)
      case PowerOff => When(last.ok, SysConfig)
      case SysConfig => When(last.ok, Privacy(privacy))
      case Privacy(_) => When(last.ok, Bondable)
      case Bondable => When(last.ok, PowerOn)
      case PowerOn => When(last.ok, Pairable)
      case Pairable => When(last.ok, Rescan)
      case Rescan => When(Ready(last.state), LoadParameters)
      case LoadParameters => When(last.ok, Pair(backend))
      case Pair(_) => if last.ok then OncePaired(So(t, n).working) else Some(ReadState)
      case ReadState => if n >= 2 then AfterLook(t, n) else None
      case Sleep => Some(PowerOff)
      case Trust => Some(if last.ok then Connect else ReadState)
      case Connect => Some(ReadState)
  }

  predicate IsPosition(t: Trace, n: int) {
    0 <= n < |t|
  }

  /** Every event is the next command of the protocol, answered by the environment. */
  ghost predicate Follows(env: Environment, backend: Backend, privacy: bool, t: Trace) {
    forall n {:trigger IsPosition(t, n)} | IsPosition(t, n) ::
      Next(backend, privacy, t, n) == Some(t[n].command) && t[n].reply == env(t[..n], t[n].command)
  }

  /** What a finished run concludes from how its trace ends. */
  function Verdict(t: Trace): Result<DeviceState, Failure>
    requires t != []
  {
    var e := t[|t| - 1];
    if e.reply.raised then Err(Raised)
    else match e.command
         case Rescan => Err(if !e.reply.state.visible then Invisible else NotPairing)
         case ReadState =>
           if |t| < 2 then Err(Raised) else
           var cause := t[|t| - 2];
           if cause.command.Pair? then Err(PairFailed)
           else if cause.command.Trust? then Err(TrustFailed)
           else if !cause.reply.ok && e.reply.state.connected != Some(true) then Err(ConnectFailed)
           else if e.reply.state.connected == Some(false) then Err(NotConnected)
           else Ok(e.reply.state)
         case step => Err(SetupFailed(step))
  }

  function Now(t: Trace): Progress {
    So(t, |t|)
  }

  function NextNow(backend: Backend, privacy: bool, t: Trace): Option<Command> {
    Next(backend, privacy, t, |t|)
  }

  lemma {:induction false} SameProgress(t: Trace, u: Trace, n: nat)
    requires n <= |t| && n <= |u| && forall i | 0 <= i < n :: t[i] == u[i]
    ensures So(t, n) == So(u, n)
  {
    if n == 0 {
    } else {
      SameProgress(t, u, n - 1);
    }
  }

  lemma SameNext(backend: Backend, privacy: bool, t: Trace, u: Trace, n: nat)
    requires n <= |t| && n <= |u| && forall i | 0 <= i < n :: t[i] == u[i]
    ensures Next(backend, privacy, t, n) == Next(backend, privacy, u, n)
  {
    SameProgress(t, u, n);
  }

  lemma FollowsSnoc(env: Environment, backend: Backend, privacy: bool, t0: Trace, e: Event)
    requires Follows(env, backend, privacy, t0) && NextNow(backend, privacy, t0) == Some(e.command)
    requires e.reply == env(t0, e.command)
    ensures Follows(env, backend, privacy, t0 + [e])
  {
    var t := t0 + [e];
    forall n | IsPosition(t, n)
      ensures Next(backend, privacy, t, n) == Some(t[n].command) && t[n].reply == env(t[..n], t[n].command)
    {
      SameNext(backend, privacy, t0, t, n);
      assert n < |t0| ==> IsPosition(t0, n) && t[..n] == t0[..n];
      assert n == |t0| ==> t[..n] == t0;
    }
  }

  /** Against a given environment the protocol has only one run. */
  lemma {:induction false} RunIsUnique(env: Environment, backend: Backend, privacy: bool, t: Trace, u: Trace, n: nat)
    requires Follows(env, backend, privacy, t) && Follows(env, backend, privacy, u)
    requires NextNow(backend, privacy, t).None? && NextNow(backend, privacy, u).None?
    requires n <= |t| && n <= |u| && t[..n] == u[..n]
    ensures t == u
    decreases |t| - n
  {
    assert forall i | 0 <= i < n :: t[i] == t[..n][i] == u[..n][i] == u[i];
    SameNext(backend, privacy, t, u, n);
    if n < |t| && n < |u| {
      assert IsPosition(t, n) && IsPosition(u, n);
      assert t[n] == u[n];
      assert t[..n + 1] == t[..n] + [t[n]] && u[..n + 1] == u[..n] + [u[n]];
      RunIsUnique(env, backend, privacy, t, u, n + 1);
    } else {
      assert n < |t| ==> IsPosition(t, n);
      assert n < |u| ==> IsPosition(u, n);
    }
  }

  // ---------- safety of every run ----------

  /** The full successful preparation of one attempt, in the eight events from position `n`. */
  predicate IsPreparation(privacy: bool, t: Trace, n: nat) {
    && n + 8 <= |t|
    && Succeeded(t[n], PowerOff) && Succeeded(t[n + 1], SysConfig) && Succeeded(t[n + 2], Privacy(privacy))
    && Succeeded(t[n + 3], Bondable) && Succeeded(t[n + 4], PowerOn) && Succeeded(t[n + 5], Pairable)
    && t[n + 6].command == Rescan && !t[n + 6].reply.raised && Ready(t[n + 6].reply.state)
    && Succeeded(t[n + 7], LoadParameters)
  }

  /** The three events before position `n`: a pair command that failed transiently, a look that did
      not find the device paired, and a pause. */
  predicate IsTransientFailure(t: Trace, n: nat) {
    && 3 <= n <= |t|
    && t[n - 3].command.Pair? && !t[n - 3].reply.raised && !t[n - 3].reply.ok && t[n - 3].reply.transient
    && t[n - 2].command == ReadState && !t[n - 2].reply.raised && t[n - 2].reply.state.paired != Some(true)
    && t[n - 1].command == Sleep
  }

  predicate KnownPaired(working: Option<DeviceState>) {
    working.Some? && working.value.paired == Some(true)
  }

  predicate KnownTrusted(working: Option<DeviceState>) {
    working.Some? && working.value.trusted == Some(true)
  }

  /** What the event right before `command` must have been. */
  predicate Precedes(e: Event, command: Command) {
    match command
    case Info => false
    case Preflight => e.command == Info && e.reply.unavailable
    case RegisterAgent => (e.command == Info && !e.reply.unavailable) || e.command == Preflight
    case Sudo => e.command == RegisterAgent
    case PowerOff => Succeeded(e, Sudo) || e.command == Sleep
    case SysConfig => Succeeded(e, PowerOff)
    case Privacy(_) => Succeeded(e, SysConfig)
    case Bondable => e.command.Privacy? && e.reply.ok
    case PowerOn => Succeeded(e, Bondable)
    case Pairable => Succeeded(e, PowerOn)
    case Rescan => Succeeded(e, Pairable)
    case LoadParameters => e.command == Rescan && Ready(e.reply.state)
    case Pair(_) => Succeeded(e, LoadParameters)
    case ReadState => ((e.command.Pair? || e.command == Trust) && !e.reply.ok) || e.command == Connect
    case Sleep => e.command == ReadState && e.reply.state.paired != Some(true)
    case Trust =>
      || e.command == RegisterAgent
      || (e.command.Pair? && e.reply.ok)
      || (e.command == ReadState && e.reply.state.paired == Some(true))
    case Connect =>
      || e.command == RegisterAgent || (e.command.Pair? && e.reply.ok)
      || (e.command == Trust && e.reply.ok) || e.command == ReadState
  }

  /** Which of the commands that may follow `e` it is, `working` being the state known then. */
  predicate FitsKnown(e: Event, working: Option<DeviceState>, command: Command) {
    match command
    case Sudo => !KnownPaired(working)
    case Trust => !KnownTrusted(working) && (e.command == RegisterAgent ==> KnownPaired(working))
    case Connect =>
      && (e.command == RegisterAgent ==> KnownPaired(working))
      && (e.command == RegisterAgent || e.command.Pair? ==> KnownTrusted(working))
    case _ => true
  }

  lemma NextPrecedes(backend: Backend, privacy: bool, t: Trace, n: nat, command: Command)
    requires n <= |t| && Next(backend, privacy, t, n) == Some(command)
    ensures n == 0 <==> command == Info
    ensures n > 0 ==> !t[n - 1].reply.raised && Precedes(t[n - 1], command)
    ensures command.Privacy? ==> command == Privacy(privacy)
    ensures command.Pair? ==> command == Pair(backend)
  {
  }

  /** Every run begins by asking BlueZ about the device, and each later command comes right after
      an event that calls for it. */
  lemma Predecessor(env: Environment, backend: Backend, privacy: bool, t: Trace, i: nat)
    requires Follows(env, backend, privacy, t) && i < |t|
    ensures i == 0 <==> t[i].command == Info
    ensures i > 0 ==> !t[i - 1].reply.raised && Precedes(t[i - 1], t[i].command)
    ensures t[i].command.Privacy? ==> t[i].command == Privacy(privacy)
    ensures t[i].command.Pair? ==> t[i].command == Pair(backend)
  {
    assert IsPosition(t, i);
    NextPrecedes(backend, privacy, t, i, t[i].command);
  }

  /** Where an event may be followed by different commands, the last known state decides. */
  lemma KnownStateDecides(env: Environment, backend: Backend, privacy: bool, t: Trace, i: nat)
    requires Follows(env, backend, privacy, t) && 0 < i < |t|
    ensures FitsKnown(t[i - 1], So(t, i).working, t[i].command)
  {
    assert IsPosition(t, i);
  }

  lemma {:induction false} NoPairsBetween(t: Trace, m: nat, n: nat)
    requires m <= n <= |t| && forall i | m <= i < n :: !t[i].command.Pair?
    ensures So(t, m).pairs == So(t, n).pairs
  {
    if m == n {
    } else {
      NoPairsBetween(t, m, n - 1);
    }
  }

  /** The agent is registered before any pair command. */
  lemma StartsUnpaired(env: Environment, backend: Backend, privacy: bool, t: Trace, n: nat)
    requires Follows(env, backend, privacy, t) && n < |t| && t[n].command == RegisterAgent
    ensures So(t, n + 1).pairs == 0
  {
    Predecessor(env, backend, privacy, t, n);
    Predecessor(env, backend, privacy, t, n - 1);
    if n > 1 {
      Predecessor(env, backend, privacy, t, n - 2);
    }
    NoPairsBetween(t, 0, n + 1);
  }

  lemma SleepsAfterFailure(env: Environment, backend: Backend, privacy: bool, t: Trace, n: nat)
    requires Follows(env, backend, privacy, t) && n < |t| && t[n].command == Sleep
    ensures 2 <= n && t[n - 2].command.Pair? && !t[n - 2].reply.raised && !t[n - 2].reply.ok
    ensures t[n - 2].reply.transient && So(t, n).pairs < 3
  {
    Predecessor(env, backend, privacy, t, n);
    Predecessor(env, backend, privacy, t, n - 1);
    assert IsPosition(t, n) && IsPosition(t, n - 1);
  }

  /** An attempt starts either after sudo was obtained, with no pair command before, or after a
      transient failure, with fewer than three. */
  lemma AttemptStarts(env: Environment, backend: Backend, privacy: bool, t: Trace, n: nat)
    requires Follows(env, backend, privacy, t) && n < |t| && t[n].command == PowerOff
    ensures So(t, n).pairs == 0 || (So(t, n).pairs < 3 && IsTransientFailure(t, n))
    ensures So(t, n).pairs > 0 ==> n > 0 && t[n - 1].command == Sleep
  {
    Predecessor(env, backend, privacy, t, n);
    Predecessor(env, backend, privacy, t, n - 1);
    if t[n - 1].command == Sudo {
      StartsUnpaired(env, backend, privacy, t, n - 2);
    } else {
      SleepsAfterFailure(env, backend, privacy, t, n - 1);
    }
  }

  lemma ResetBeforeBondable(env: Environment, backend: Backend, privacy: bool, t: Trace, i: nat)
    requires Follows(env, backend, privacy, t) && i < |t| && t[i].command == Bondable
    ensures i >= 3 && Succeeded(t[i - 1], Privacy(privacy))
    ensures Succeeded(t[i - 2], SysConfig) && Succeeded(t[i - 3], PowerOff)
  {
    Predecessor(env, backend, privacy, t, i);
    Predecessor(env, backend, privacy, t, i - 1);
    Predecessor(env, backend, privacy, t, i - 2);
  }

  lemma PreparationBeforePair(env: Environment, backend: Backend, privacy: bool, t: Trace, i: nat)
    requires Follows(env, backend, privacy, t)
    requires i <= |t| && Next(backend, privacy, t, i) == Some(Pair(backend))
    ensures i >= 8 && IsPreparation(privacy, t, i - 8)
  {
    NextPrecedes(backend, privacy, t, i, Pair(backend));
    Predecessor(env, backend, privacy, t, i - 1);
    Predecessor(env, backend, privacy, t, i - 2);
    Predecessor(env, backend, privacy, t, i - 3);
    Predecessor(env, backend, privacy, t, i - 4);
    ResetBeforeBondable(env, backend, privacy, t, i - 5);
  }

  lemma PairHasPreparation(env: Environment, backend: Backend, privacy: bool, t: Trace, i: nat)
    requires Follows(env, backend, privacy, t) && i < |t| && t[i].command.Pair?
    ensures t[i].command == Pair(backend)
    ensures i >= 8 && IsPreparation(privacy, t, i - 8)
  {
    Predecessor(env, backend, privacy, t, i);
    assert IsPosition(t, i);
    PreparationBeforePair(env, backend, privacy, t, i);
  }

  /** Each pair command uses the chosen backend and comes right after a whole successful
      preparation; it is one of at most three, and any but the first also follows a transient
      failure that left the device unpaired. */
  lemma PairsArePrepared(env: Environment, backend: Backend, privacy: bool, t: Trace, i: nat)
    requires Follows(env, backend, privacy, t) && i < |t| && t[i].command.Pair?
    ensures t[i].command == Pair(backend)
    ensures i >= 8 && IsPreparation(privacy, t, i - 8)
    ensures So(t, i).pairs < 3
    ensures So(t, i).pairs > 0 ==> IsTransientFailure(t, i - 8)
  {
    PairHasPreparation(env, backend, privacy, t, i);
    NoPairsBetween(t, i - 8, i);
    AttemptStarts(env, backend, privacy, t, i - 8);
  }

  /** So no run has more than three pair commands. */
  lemma {:induction false} AtMostThreePairs(env: Environment, backend: Backend, privacy: bool, t: Trace, n: nat)
    requires Follows(env, backend, privacy, t) && n <= |t|
    ensures So(t, n).pairs <= 3 && |PairPositions(t, n)| <= 3
  {
    PairsAreCounted(t, n);
    if n == 0 {
    } else {
      AtMostThreePairs(env, backend, privacy, t, n - 1);
      if t[n - 1].command.Pair? {
        PairsArePrepared(env, backend, privacy, t, n - 1);
      }
    }
  }

  /** Just before position `n` the device was reported paired (with no pair command issued), or a
      pair command succeeded, or the look after a failed one found it paired. */
  predicate JustPaired(t: Trace, n: nat) {
    && 1 <= n <= |t| && !t[n - 1].reply.raised
    && ((t[n - 1].command == RegisterAgent && So(t, n).pairs == 0
         && So(t, n).working.Some? && So(t, n).working.value.paired == Some(true))
        || (t[n - 1].command.Pair? && t[n - 1].reply.ok)
        || (n >= 2 && t[n - 2].command.Pair? && t[n - 1].command == ReadState
            && t[n - 1].reply.state.paired == Some(true)))
  }

  /** The trust command comes right after the device was established as paired. */
  lemma TrustsPaired(env: Environment, backend: Backend, privacy: bool, t: Trace, i: nat)
    requires Follows(env, backend, privacy, t) && i < |t| && t[i].command == Trust
    ensures JustPaired(t, i) && !KnownTrusted(So(t, i).working)
  {
    Predecessor(env, backend, privacy, t, i);
    KnownStateDecides(env, backend, privacy, t, i);
    assert IsPosition(t, i) && IsPosition(t, i - 1);
    if t[i - 1].command == RegisterAgent {
      StartsUnpaired(env, backend, privacy, t, i - 1);
    }
  }

  /** Just before position `n` the working state was trusted and the device established as paired,
      or that happened just before a trust command that succeeded or was found to have worked. */
  predicate PairedAndTrusted(t: Trace, n: nat) {
    || (JustPaired(t, n) && So(t, n).working.Some? && So(t, n).working.value.trusted == Some(true))
    || (2 <= n <= |t| && Succeeded(t[n - 1], Trust) && JustPaired(t, n - 1))
    || (3 <= n <= |t| && t[n - 2].command == Trust && t[n - 1].command == ReadState && !t[n - 1].reply.raised
        && t[n - 1].reply.state.trusted == Some(true) && JustPaired(t, n - 2))
  }

  /** Connect is issued only when the device is paired and trusted, and nothing but one look
      follows it: there is at most one connect command. */
  lemma ConnectsOncePairedAndTrusted(env: Environment, backend: Backend, privacy: bool, t: Trace, i: nat)
    requires Follows(env, backend, privacy, t) && i < |t| && t[i].command == Connect
    ensures PairedAndTrusted(t, i)
    ensures |t| <= i + 2 && (|t| == i + 2 ==> t[i + 1].command == ReadState)
    ensures forall j | 0 <= j < |t| && t[j].command == Connect :: j == i
  {
    assert IsPosition(t, i) && IsPosition(t, i - 1);
    if t[i - 1].command == RegisterAgent {
      StartsUnpaired(env, backend, privacy, t, i - 1);
    } else if t[i - 1].command == Trust {
      TrustsPaired(env, backend, privacy, t, i - 1);
    } else if t[i - 1].command == ReadState && t[i - 2].command == Trust {
      TrustsPaired(env, backend, privacy, t, i - 2);
    }
    NothingAfterConnect(env, backend, privacy, t, i);
    forall j | 0 <= j < |t| && t[j].command == Connect
      ensures j == i
    {
      NothingAfterConnect(env, backend, privacy, t, j);
    }
  }

  lemma NothingAfterConnect(env: Environment, backend: Backend, privacy: bool, t: Trace, i: nat)
    requires Follows(env, backend, privacy, t) && i < |t| && t[i].command == Connect
    ensures |t| <= i + 2 && (|t| == i + 2 ==> t[i + 1].command == ReadState)
  {
    assert |t| > i + 1 ==> IsPosition(t, i + 1);
    assert |t| > i + 2 ==> IsPosition(t, i + 2);
  }

  /** A run succeeds exactly when its connect command worked, or the device is connected anyway,
      and the last look does not say it is disconnected. */
  lemma SucceedsExactly(env: Environment, backend: Backend, privacy: bool, t: Trace)
    requires Follows(env, backend, privacy, t) && NextNow(backend, privacy, t).None?
    ensures t != []
    ensures Verdict(t).Ok? <==>
            && |t| >= 2 && t[|t| - 2].command == Connect && t[|t| - 1].command == ReadState
            && !t[|t| - 1].reply.raised
            && (t[|t| - 2].reply.ok || t[|t| - 1].reply.state.connected == Some(true))
            && t[|t| - 1].reply.state.connected != Some(false)
  {
    assert IsPosition(t, |t| - 1);
    assert |t| >= 2 ==> IsPosition(t, |t| - 2);
  }

  // ---------- what is counted and known ----------

  /** The positions of the pair commands among the first `n` events. */
  function PairPositions(t: Trace, n: nat): set<int>
    requires n <= |t|
  {
    set i | 0 <= i < n && t[i].command.Pair?
  }

  lemma {:induction false} PairsAreCounted(t: Trace, n: nat)
    requires n <= |t|
    ensures So(t, n).pairs == |PairPositions(t, n)|
  {
    if n == 0 {
    } else {
      PairsAreCounted(t, n - 1);
      var before := PairPositions(t, n - 1);
      assert PairPositions(t, n) == if t[n - 1].command.Pair? then before + {n - 1} else before;
    }
  }

  /** The working state is the one reported by the last lookup that did not raise: the first answer
      if it knows the device, and any scan. */
  lemma {:induction false} WorkingIsLastReport(t: Trace, n: nat) returns (k: int)
    requires n <= |t|
    ensures -1 <= k < n
    ensures forall i | k < i < n ::
              t[i].reply.raised
              || (t[i].command != Preflight && t[i].command != Rescan
                  && (t[i].command != Info || t[i].reply.unavailable))
    ensures k >= 0 ==>
              !t[k].reply.raised
              && (t[k].command == Preflight || t[k].command == Rescan
                  || (t[k].command == Info && !t[k].reply.unavailable))
    ensures So(t, n).working == if k < 0 then None else Some(t[k].reply.state)
  {
    if n == 0 {
      k := -1;
    } else {
      k := WorkingIsLastReport(t, n - 1);
      if ReportsKnownState(t[n - 1]) {
        k := n - 1;
      }
    }
  }

  // ---------- how runs end ----------

  /** A look after a pair, trust or connect command settles the matter. After a pair command that
      is so only if the device is not paired and the failure was not transient or the third. */
  predicate IsLastLook(cause: Event, look: DeviceState, pairs: nat) {
    || (cause.command.Pair? && !cause.reply.ok && look.paired != Some(true) && (!cause.reply.transient || pairs == 3))
    || (cause.command == Trust && !cause.reply.ok && look.trusted != Some(true))
    || cause.command == Connect
  }

  /** The only reasons for a run to be over: a command raised, a setup command failed, the scan did
      not find the bike ready, or the last look settled the matter. */
  predicate IsOver(t: Trace) {
    t != [] &&
    var last := t[|t| - 1];
    || last.reply.raised
    || (!last.reply.ok
        && (|| last.command == Sudo || last.command == PowerOff || last.command == SysConfig
            || last.command.Privacy? || last.command == Bondable || last.command == PowerOn
            || last.command == Pairable || last.command == LoadParameters))
    || (last.command == Rescan
        && (!last.reply.state.visible
            || (last.reply.state.paired != Some(true) && last.reply.state.pairingAdvertisement == Some(false))))
    || (last.command == ReadState && |t| >= 2
        && IsLastLook(t[|t| - 2], last.reply.state, |PairPositions(t, |t|)|))
  }

  lemma NoNextAfterLook(backend: Backend, privacy: bool, t: Trace)
    requires |t| >= 2 && t[|t| - 1].command == ReadState && !t[|t| - 1].reply.raised
    requires Precedes(t[|t| - 2], ReadState)
    requires NextNow(backend, privacy, t).None? && So(t, |t|).pairs <= 3
    ensures IsLastLook(t[|t| - 2], t[|t| - 1].reply.state, So(t, |t|).pairs)
  {
  }

  /** A finished run is over for one of these reasons. */
  lemma RunEndsOnlyFor(env: Environment, backend: Backend, privacy: bool, t: Trace)
    requires Follows(env, backend, privacy, t) && NextNow(backend, privacy, t).None?
    ensures IsOver(t)
  {
    assert t == [] ==> NextNow(backend, privacy, t) == Some(Info);
    var n := |t|;
    Predecessor(env, backend, privacy, t, n - 1);
    if t[n - 1].command == ReadState && !t[n - 1].reply.raised {
      AtMostThreePairs(env, backend, privacy, t, n);
      PairsAreCounted(t, n);
      NoNextAfterLook(backend, privacy, t);
    }
  }

  /** So a run gives up on pairing only after a failure that was not transient, or the third. */
  lemma GivesUpRightly(env: Environment, backend: Backend, privacy: bool, t: Trace)
    requires Follows(env, backend, privacy, t) && NextNow(backend, privacy, t).None? && t != []
    requires Verdict(t) == Err(PairFailed)
    ensures |t| >= 2 && t[|t| - 2].command.Pair? && t[|t| - 1].command == ReadState
    ensures !t[|t| - 2].reply.transient || |PairPositions(t, |t|)| == 3
  {
    RunEndsOnlyFor(env, backend, privacy, t);
  }

  /** After a transient failure that left the device unpaired, with fewer than three pair commands
      issued, the run pauses and starts another attempt. */
  lemma RetriesAfterTransientFailure(env: Environment, backend: Backend, privacy: bool, t: Trace, n: nat)
    requires Follows(env, backend, privacy, t) && NextNow(backend, privacy, t).None?
    requires n + 1 < |t| && t[n].command.Pair? && t[n].reply.transient && t[n + 1].command == ReadState
    requires !t[n + 1].reply.raised && t[n + 1].reply.state.paired != Some(true)
    requires |PairPositions(t, n + 1)| < 3
    ensures n + 2 < |t| && t[n + 2].command == Sleep
    ensures !t[n + 2].reply.raised ==> n + 3 < |t| && t[n + 3].command == PowerOff
  {
    PairsAreCounted(t, n + 1);
    SleepIsNext(backend, privacy, t, n + 2);
    GoesOn(env, backend, privacy, t, n + 2);
    if !t[n + 2].reply.raised {
      GoesOn(env, backend, privacy, t, n + 3);
    }
  }

  lemma SleepIsNext(backend: Backend, privacy: bool, t: Trace, n: nat)
    requires 2 <= n <= |t| && t[n - 2].command.Pair? && t[n - 2].reply.transient && t[n - 1].command == ReadState
    requires !t[n - 1].reply.raised && t[n - 1].reply.state.paired != Some(true) && So(t, n - 1).pairs < 3
    ensures Next(backend, privacy, t, n) == Some(Sleep)
  {
  }

  /** A finished run has issued every command that was next. */
  lemma GoesOn(env: Environment, backend: Backend, privacy: bool, t: Trace, n: nat)
    requires Follows(env, backend, privacy, t) && NextNow(backend, privacy, t).None?
    requires n <= |t| && Next(backend, privacy, t, n).Some?
    ensures n < |t| && t[n].command == Next(backend, privacy, t, n).value
  {
    assert n < |t| ==> IsPosition(t, n);
  }

  /** What each end is called. */
  lemma VerdictExactly(env: Environment, backend: Backend, privacy: bool, t: Trace)
    requires Follows(env, backend, privacy, t) && NextNow(backend, privacy, t).None?
    ensures t != []
    ensures var last := t[|t| - 1];
            Verdict(t) ==
            if last.reply.raised then Err(Raised)
            else if last.command == Rescan then (if last.reply.state.visible then Err(NotPairing) else Err(Invisible))
            else if last.command != ReadState then Err(SetupFailed(last.command))
            else if |t| < 2 then Err(Raised)
            else if t[|t| - 2].command.Pair? then Err(PairFailed)
            else if t[|t| - 2].command == Trust then Err(TrustFailed)
            else match last.reply.state.connected
                 case Some(true) => Ok(last.reply.state)
                 case Some(false) => if t[|t| - 2].reply.ok then Err(NotConnected) else Err(ConnectFailed)
                 case None => if t[|t| - 2].reply.ok then Ok(last.reply.state) else Err(ConnectFailed)
  {
    assert t == [] ==> NextNow(backend, privacy, t) == Some(Info);
  }

  // ---------- the code ----------

  /** Issues the next command and records it. */
  method Issue(env: Environment, ghost backend: Backend, ghost privacy: bool, t0: Trace, command: Command)
    returns (reply: Reply, t: Trace)
    requires Follows(env, backend, privacy, t0) && NextNow(backend, privacy, t0) == Some(command)
    ensures t == t0 + [Event(command, reply)] && Follows(env, backend, privacy, t)
    ensures Now(t) == Progress(
              Now(t0).pairs + (if command.Pair? then 1 else 0),
              if ReportsKnownState(Event(command, reply)) then Some(reply.state) else Now(t0).working)
  {
    reply := env(t0, command);
    t := t0 + [Event(command, reply)];
    FollowsSnoc(env, backend, privacy, t0, Event(command, reply));
    SameProgress(t0, t, |t0|);
  }

  /** A run that ends here, with this failure. */
  ghost predicate EndsWith(env: Environment, backend: Backend, privacy: bool, t: Trace, failure: Failure) {
    t != [] && Follows(env, backend, privacy, t) && NextNow(backend, privacy, t).None? && Verdict(t) == Err(failure)
  }

  predicate IsSetup(c: Command) {
    || c.Sudo? || c.PowerOff? || c.SysConfig? || c.Privacy? || c.Bondable? || c.PowerOn? || c.Pairable?
    || c.LoadParameters?
  }

  /** A setup command, of which anything but success ends the run. */
  method SetUp(env: Environment, ghost backend: Backend, ghost privacy: bool, t0: Trace, command: Command)
    returns (failure: Option<Failure>, t: Trace)
    requires Follows(env, backend, privacy, t0) && NextNow(backend, privacy, t0) == Some(command)
    requires IsSetup(command)
    ensures failure.None? ==>
              && Follows(env, backend, privacy, t) && Now(t) == Now(t0)
              && |t| == |t0| + 1 && Succeeded(t[|t| - 1], command)
    ensures failure.Some? ==> EndsWith(env, backend, privacy, t, failure.value)
  {
    var reply;
    reply, t := Issue(env, backend, privacy, t0, command);
    if reply.raised {
      return Some(Raised), t;
    }
    if !reply.ok {
      return Some(SetupFailed(command)), t;
    }
    return None, t;
  }

  function ControllerSteps(privacy: bool): seq<Command> {
    [PowerOff, SysConfig, Privacy(privacy), Bondable, PowerOn]
  }

  method PrepareController(env: Environment, ghost backend: Backend, privacy: bool, t0: Trace)
    returns (failure: Option<Failure>, t: Trace)
    requires Follows(env, backend, privacy, t0) && NextNow(backend, privacy, t0) == Some(PowerOff)
    ensures failure.None? ==>
              && Follows(env, backend, privacy, t) && Now(t) == Now(t0) && |t| == |t0| + 5
              && NextNow(backend, privacy, t) == Some(Pairable)
    ensures failure.Some? ==> EndsWith(env, backend, privacy, t, failure.value)
  {
    t := t0;
    var steps := ControllerSteps(privacy);
    for n := 0 to 5
      invariant Follows(env, backend, privacy, t) && Now(t) == Now(t0) && |t| == |t0| + n
      invariant NextNow(backend, privacy, t) == Some(if n < 5 then steps[n] else Pairable)
    {
      failure, t := SetUp(env, backend, privacy, t, steps[n]);
      if failure.Some? {
        return;
      }
    }
    failure := None;
  }

  /** The reset of the controller and the scan that must find the bike ready. */
  method ResetAndScan(env: Environment, ghost backend: Backend, privacy: bool, t0: Trace)
    returns (r: Result<DeviceState, Failure>, t: Trace)
    requires Follows(env, backend, privacy, t0) && NextNow(backend, privacy, t0) == Some(PowerOff)
    ensures r.Ok? ==>
              && Follows(env, backend, privacy, t) && NextNow(backend, privacy, t) == Some(LoadParameters)
              && Now(t) == Progress(Now(t0).pairs, Some(r.value)) && |t| == |t0| + 7
    ensures r.Err? ==> EndsWith(env, backend, privacy, t, r.error)
  {
    var failure, reply;
    failure, t := PrepareController(env, backend, privacy, t0);
    if failure.Some? {
      return Err(failure.value), t;
    }
    failure, t := SetUp(env, backend, privacy, t, Pairable);
    if failure.Some? {
      return Err(failure.value), t;
    }
    reply, t := Issue(env, backend, privacy, t, Rescan);
    if reply.raised {
      return Err(Raised), t;
    }
    var state := reply.state;
    if !state.visible {
      return Err(Invisible), t;
    }
    if state.paired != Some(true) && state.pairingAdvertisement == Some(false) {
      return Err(NotPairing), t;
    }
    return Ok(state), t;
  }

  /** Everything up to the pair command: eight commands, all successful; returns the state the
      attempt's scan saw. */
  method PrepareConnectAttempt(env: Environment, ghost backend: Backend, privacy: bool, t0: Trace)
    returns (r: Result<DeviceState, Failure>, t: Trace)
    requires Follows(env, backend, privacy, t0) && NextNow(backend, privacy, t0) == Some(PowerOff)
    ensures r.Ok? ==>
              && Follows(env, backend, privacy, t) && NextNow(backend, privacy, t) == Some(Pair(backend))
              && Now(t) == Progress(Now(t0).pairs, Some(r.value))
              && |t| == |t0| + 8 && IsPreparation(privacy, t, |t0|)
    ensures r.Err? ==> EndsWith(env, backend, privacy, t, r.error)
  {
    r, t := ResetAndScan(env, backend, privacy, t0);
    if r.Err? {
      return;
    }
    var failure;
    failure, t := SetUp(env, backend, privacy, t, LoadParameters);
    if failure.Some? {
      return Err(failure.value), t;
    }
    PreparationBeforePair(env, backend, privacy, t, |t|);
  }

  /** What one pair command leads to. */
  datatype Attempt = Paired | Retry | GaveUp(failure: Failure)

  /** After a pair command that failed: looks whether the device got paired anyway and decides
      about another attempt. */
  method LookAfterFailure(
    env: Environment, ghost backend: Backend, ghost privacy: bool, t0: Trace, attempt: nat, transient: bool)
    returns (r: Attempt, t: Trace)
    requires Follows(env, backend, privacy, t0) && NextNow(backend, privacy, t0) == Some(ReadState)
    requires t0 != [] && t0[|t0| - 1].command.Pair? && t0[|t0| - 1].reply.transient == transient
    requires attempt < 3 && Now(t0).pairs == attempt + 1
    ensures !r.GaveUp? ==> Follows(env, backend, privacy, t) && Now(t) == Now(t0)
    ensures r.Paired? ==> NextNow(backend, privacy, t) == OncePaired(Now(t).working)
    ensures r.Retry? ==> attempt < 2 && NextNow(backend, privacy, t) == Some(PowerOff)
    ensures r.GaveUp? ==> EndsWith(env, backend, privacy, t, r.failure)
  {
    var reply;
    reply, t := Issue(env, backend, privacy, t0, ReadState);
    assert t[|t| - 2] == t0[|t0| - 1];
    if reply.raised {
      return GaveUp(Raised), t;
    }
    if reply.state.paired == Some(true) {
      return Paired, t;
    }
    if attempt == 2 || !transient {
      return GaveUp(PairFailed), t;
    }
    reply, t := Issue(env, backend, privacy, t, Sleep);
    if reply.raised {
      return GaveUp(Raised), t;
    }
    return Retry, t;
  }

  /** One attempt: prepares, pairs and decides how to go on. */
  method PairOnce(env: Environment, backend: Backend, privacy: bool, t0: Trace, attempt: nat)
    returns (r: Attempt, info: DeviceState, t: Trace)
    requires Follows(env, backend, privacy, t0) && NextNow(backend, privacy, t0) == Some(PowerOff)
    requires attempt < 3 && Now(t0).pairs == attempt
    ensures !r.GaveUp? ==> Follows(env, backend, privacy, t) && Now(t) == Progress(attempt + 1, Some(info))
    ensures r.Paired? ==> NextNow(backend, privacy, t) == OncePaired(Some(info))
    ensures r.Retry? ==> attempt < 2 && NextNow(backend, privacy, t) == Some(PowerOff)
    ensures r.GaveUp? ==> EndsWith(env, backend, privacy, t, r.failure)
  {
    var prepared, reply;
    prepared, t := PrepareConnectAttempt(env, backend, privacy, t0);
    if prepared.Err? {
      info := DeviceState(false, None, None, None, None);
      return GaveUp(prepared.error), info, t;
    }
    info := prepared.value;
    reply, t := Issue(env, backend, privacy, t, Pair(backend));
    if reply.raised {
      return GaveUp(Raised), info, t;
    }
    if reply.ok {
      return Paired, info, t;
    }
    r, t := LookAfterFailure(env, backend, privacy, t, attempt, reply.transient);
  }

  /** Up to three attempts; returns the state seen by the scan of the successful one. The third
      attempt always returns, so the guard after the code's loop is dead. */
  method PairDevice(env: Environment, backend: Backend, privacy: bool, t0: Trace)
    returns (r: Result<DeviceState, Failure>, t: Trace)
    requires Follows(env, backend, privacy, t0) && NextNow(backend, privacy, t0) == Some(PowerOff)
    requires Now(t0).pairs == 0
    ensures r.Ok? ==>
              && Follows(env, backend, privacy, t) && Now(t).working == Some(r.value)
              && NextNow(backend, privacy, t) == OncePaired(Some(r.value))
              && 1 <= Now(t).pairs <= 3
    ensures r.Err? ==> EndsWith(env, backend, privacy, t, r.error) && Now(t).pairs <= 3
    ensures r == Err(PairFailed) ==>
              |t| >= 2 && (!t[|t| - 2].reply.transient || |PairPositions(t, |t|)| == 3)
  {
    t := t0;
    var attempt := 0;
    while true
      invariant attempt < 3 && Now(t).pairs == attempt
      invariant Follows(env, backend, privacy, t) && NextNow(backend, privacy, t) == Some(PowerOff)
      decreases 3 - attempt
    {
      var result, info;
      result, info, t := PairOnce(env, backend, privacy, t, attempt);
      if result.GaveUp? {
        AtMostThreePairs(env, backend, privacy, t, |t|);
        if result.failure == PairFailed {
          GivesUpRightly(env, backend, privacy, t);
        }
        return Err(result.failure), t;
      }
      if result.Paired? {
        return Ok(info), t;
      }
      attempt := attempt + 1;
    }
  }

  /** Trusts the device unless it already is, working from `info`. */
  method TrustDevice(env: Environment, ghost backend: Backend, ghost privacy: bool, info: DeviceState, t0: Trace)
    returns (failure: Option<Failure>, t: Trace)
    requires Follows(env, backend, privacy, t0) && NextNow(backend, privacy, t0) == OncePaired(Some(info))
    ensures failure.None? ==> Follows(env, backend, privacy, t) && NextNow(backend, privacy, t) == Some(Connect)
    ensures failure.Some? ==> EndsWith(env, backend, privacy, t, failure.value)
  {
    t := t0;
    if info.trusted == Some(true) {
      return None, t;
    }
    var reply;
    reply, t := Issue(env, backend, privacy, t, Trust);
    if reply.raised {
      return Some(Raised), t;
    }
    if reply.ok {
      return None, t;
    }
    reply, t := Issue(env, backend, privacy, t, ReadState);
    if reply.raised {
      return Some(Raised), t;
    }
    if reply.state.trusted != Some(true) {
      return Some(TrustFailed), t;
    }
    return None, t;
  }

  /** The state to start from: what BlueZ knows, or a scan when it does not know the device. */
  method LookUpDevice(env: Environment, ghost backend: Backend, ghost privacy: bool)
    returns (r: Result<DeviceState, Failure>, t: Trace)
    ensures r.Ok? ==>
              && Follows(env, backend, privacy, t) && Now(t) == Progress(0, Some(r.value))
              && t != [] && t[|t| - 1].command == RegisterAgent && !t[|t| - 1].reply.raised
    ensures r.Err? ==> EndsWith(env, backend, privacy, t, r.error)
  {
    var reply;
    reply, t := Issue(env, backend, privacy, [], Info);
    if reply.raised {
      return Err(Raised), t;
    }
    var state := reply.state;
    if reply.unavailable {
      reply, t := Issue(env, backend, privacy, t, Preflight);
      if reply.raised {
        return Err(Raised), t;
      }
      state := reply.state;
    }
    reply, t := Issue(env, backend, privacy, t, RegisterAgent);
    if reply.raised {
      return Err(Raised), t;
    }
    return Ok(state), t;
  }

  /** Connects, looks at the result and returns. */
  method ConnectDevice(env: Environment, ghost backend: Backend, ghost privacy: bool, t0: Trace)
    returns (r: Result<DeviceState, Failure>, t: Trace)
    requires Follows(env, backend, privacy, t0) && NextNow(backend, privacy, t0) == Some(Connect)
    ensures t != [] && Follows(env, backend, privacy, t) && NextNow(backend, privacy, t).None?
    ensures r == Verdict(t)
  {
    var reply;
    reply, t := Issue(env, backend, privacy, t0, Connect);
    if reply.raised {
      return Err(Raised), t;
    }
    var connected := reply.ok;
    reply, t := Issue(env, backend, privacy, t, ReadState);
    if reply.raised {
      return Err(Raised), t;
    }
    if !connected && reply.state.connected != Some(true) {
      return Err(ConnectFailed), t;
    }
    if reply.state.connected == Some(false) {
      return Err(NotConnected), t;
    }
    return Ok(reply.state), t;
  }

  /** Pairs the device if it is not known to be paired; returns the state to go on with. */
  method EnsurePaired(env: Environment, backend: Backend, privacy: bool)
    returns (r: Result<DeviceState, Failure>, t: Trace)
    ensures r.Ok? ==>
              && Follows(env, backend, privacy, t) && NextNow(backend, privacy, t) == OncePaired(Some(r.value))
    ensures r.Err? ==> EndsWith(env, backend, privacy, t, r.error)
  {
    r, t := LookUpDevice(env, backend, privacy);
    if r.Err? || r.value.paired == Some(true) {
      return;
    }
    var failure;
    failure, t := SetUp(env, backend, privacy, t, Sudo);
    if failure.Some? {
      return Err(failure.value), t;
    }
    r, t := PairDevice(env, backend, privacy, t);
  }

  /** Every run follows the protocol to its end, whatever the environment answers, and returns its
      verdict. By `RunIsUnique` this determines the trace and the result. */
  method AssistConnection(env: Environment, backend: Backend, privacy: bool)
    returns (r: Result<DeviceState, Failure>, t: Trace)
    ensures t != [] && Follows(env, backend, privacy, t) && NextNow(backend, privacy, t).None?
    ensures r == Verdict(t) && IsOver(t)
  {
    r, t := EnsurePaired(env, backend, privacy);
    if r.Ok? {
      var failure;
      failure, t := TrustDevice(env, backend, privacy, r.value, t);
      if failure.Some? {
        r := Err(failure.value);
      } else {
        r, t := ConnectDevice(env, backend, privacy, t);
      }
    }
    RunEndsOnlyFor(env, backend, privacy, t);
  }
}
