/** The probe service's poller against its operations: timers fire, poll ticks wait for the mutex and for
    the target, operations start, fail and finish, the cable is pulled, in every order that the mutex
    allows. */
module PollerProtocol {
  import opened Wrappers

  datatype CoreStatus = Halted | Running | Unknown
  datatype UsbStatus = Connected | Failed | Absent

  /** Where a poll chain is: its timer is pending, its tick waits for the mutex, reads the core state,
      reports a halt, or is past the mutex and about to handle an error and to re-arm. */
  datatype Phase = TimerPending | Queued | Reading | Reporting | Catching(fatal: bool) | Finishing | Dead

  /** A chain keeps the generation it was started with. */
  datatype Chain = Chain(gen: nat, phase: Phase)

  datatype Op =
    | HaltOp | RunOp | StepOp | ResetHaltOp | ResetRunOp | GetStateOp(seesHalted: bool) | FlashOp | OtherOp
    | Attach(isHalted: bool) | Detach | Unplug

  /** Who holds the mutex; an operation has passed its state change once `late` is set. */
  datatype Holder = Nobody | Tick(chain: nat) | Operation(op: Op, late: bool)

  datatype Event = BecameRunning | HaltedEvent

  datatype Probe = Probe(
    core: CoreStatus,
    usb: UsbStatus,
    gen: nat,
    timer: Option<nat>,   // the chain whose pending timer the service remembers
    chains: seq<Chain>,
    holder: Holder,
    log: seq<Event>
  )

  datatype Label =
    | TimerFires(i: nat)
    | TickStarts(i: nat)
    | TickReads(i: nat, sees: CoreStatus)       // Unknown: neither halted nor failed to read, e.g. lockup
    | TickReports(i: nat)
    | TickFails(i: nat, isFatal: bool)
    | TickCatches(i: nat)
    | TickFinishes(i: nat)
    | OpStarts(op: Op)
    | OpActs
    | OpFails(isFatal: bool)
    | OpEnds
    | CablePulled

  // ---------------------------------------------------------------- the service's own steps

  function SetPhase(s: Probe, i: nat, phase: Phase): Probe
    requires i < |s.chains|
  {
    s.(chains := s.chains[i := s.chains[i].(phase := phase)])
  }

  /** Does nothing while a timer is remembered; otherwise a new chain with a new generation. */
  function StartPoller(s: Probe): Probe {
    if s.timer.Some? then s
    else s.(gen := s.gen + 1, timer := Some(|s.chains|), chains := s.chains + [Chain(s.gen + 1, TimerPending)])
  }

  /** A new generation; the remembered timer, and only that, is cancelled. */
  function StopPoller(s: Probe): Probe {
    var t := s.(gen := s.gen + 1, timer := None);
    if s.timer.Some? && s.timer.value < |s.chains| && s.chains[s.timer.value].phase.TimerPending? then
      SetPhase(t, s.timer.value, Dead)
    else t
  }

  function SetCore(s: Probe, core: CoreStatus): Probe {
    s.(core := core, log := s.log + if core == Running && s.core != Running then [BecameRunning] else [])
  }

  function MarkFatal(s: Probe, fatal: bool): Probe {
    if fatal then SetCore(StopPoller(s).(usb := Failed), Unknown) else s
  }

  function FireTimer(s: Probe, i: nat): Probe
    requires i < |s.chains|
  {
    SetPhase(s.(timer := None), i, if s.chains[i].gen == s.gen then Queued else Dead)
  }

  function StartTick(s: Probe, i: nat): Probe
    requires i < |s.chains|
  {
    if s.chains[i].gen != s.gen || s.core != Running then SetPhase(s, i, Finishing)
    else SetPhase(s.(holder := Tick(i)), i, Reading)
  }

  /** Re-arm if nothing has changed in between; otherwise forget the timer, whoever's it is. */
  function FinishTick(s: Probe, i: nat): Probe
    requires i < |s.chains|
  {
    if s.chains[i].gen == s.gen && s.core == Running && s.usb == Connected then
      SetPhase(s.(timer := Some(i)), i, TimerPending)
    else
      SetPhase(s.(timer := None), i, Dead)
  }

  /** Operations that stop the poller before they touch the target. */
  predicate StopsFirst(op: Op) {
    op.HaltOp? || op.StepOp? || op.ResetHaltOp? || op.ResetRunOp? || op.FlashOp? || op.Attach? || op.Detach?
  }

  predicate NeedsUsb(op: Op) {
    !op.Attach? && !op.Detach? && !op.Unplug?
  }

  /** What an operation does before it first waits. Attaching tears down the old connection. */
  function Begin(s: Probe, op: Op): Probe {
    var t := if StopsFirst(op) then StopPoller(s) else s;
    if op.Attach? then SetCore(t.(usb := Absent), Unknown) else t
  }

  /** The state change in the middle of an operation. */
  function Act(s: Probe, op: Op): Probe {
    match op
    case HaltOp => SetCore(s, Halted)
    case StepOp => SetCore(s, Halted)
    case ResetHaltOp => SetCore(s, Halted)
    case FlashOp => SetCore(s, Halted)
    case RunOp => StartPoller(SetCore(s, Running))
    case ResetRunOp => StartPoller(SetCore(s, Running))
    case GetStateOp(halted) =>
      if halted then (if s.core != Halted then SetCore(StopPoller(s), Halted) else s)
      else if s.core != Running then StartPoller(SetCore(s, Running))
      else s
    case OtherOp => s
    case Attach(halted) =>
      if halted then SetCore(s.(usb := Connected), Halted) else StartPoller(SetCore(s.(usb := Connected), Running))
    case Detach => SetCore(s.(usb := Absent), Unknown)
    case Unplug => SetCore(s.(usb := Absent), Unknown)
  }

  ghost predicate Enabled(s: Probe, l: Label) {
    match l
    case TimerFires(i) => i < |s.chains| && s.chains[i].phase == TimerPending
    case TickStarts(i) => i < |s.chains| && s.chains[i].phase == Queued && s.holder == Nobody
    case TickReads(i, _) => i < |s.chains| && s.chains[i].phase == Reading && s.holder == Tick(i)
    case TickReports(i) => i < |s.chains| && s.chains[i].phase == Reporting && s.holder == Tick(i)
    case TickFails(i, _) => i < |s.chains| && (s.chains[i].phase == Reading || s.chains[i].phase == Reporting) &&
      s.holder == Tick(i)
    case TickCatches(i) => i < |s.chains| && s.chains[i].phase.Catching?
    case TickFinishes(i) => i < |s.chains| && s.chains[i].phase == Finishing
    case OpStarts(op) => s.holder == Nobody && (NeedsUsb(op) ==> s.usb == Connected)
    case OpActs => s.holder.Operation? && !s.holder.late
    case OpFails(_) => s.holder.Operation?
    case OpEnds => s.holder.Operation? && s.holder.late
    case CablePulled => true
  }

  function Next(s: Probe, l: Label): Probe
    requires Enabled(s, l)
  {
    match l
    case TimerFires(i) => FireTimer(s, i)
    case TickStarts(i) => StartTick(s, i)
    case TickReads(i, sees) =>
      if sees == Halted then SetPhase(SetCore(s, Halted), i, Reporting)
      else SetPhase(s.(holder := Nobody), i, Finishing)
    case TickReports(i) => SetPhase(s.(holder := Nobody, log := s.log + [HaltedEvent]), i, Finishing)
    case TickFails(i, fatal) => SetPhase(s.(holder := Nobody), i, Catching(fatal))
    case TickCatches(i) => SetPhase(MarkFatal(s, s.chains[i].phase.fatal), i, Finishing)
    case TickFinishes(i) => FinishTick(s, i)
    case OpStarts(op) => Begin(s, op).(holder := Operation(op, false))
    case OpActs => Act(s, s.holder.op).(holder := Operation(s.holder.op, true))
    case OpFails(fatal) =>
      var t := MarkFatal(s, fatal).(holder := Nobody);
      if s.holder.op.Attach? then t.(usb := Failed) else t
    case OpEnds => s.(holder := Nobody)
    case CablePulled => StopPoller(s)
  }

  // ---------------------------------------------------------------- invariant

  predicate DistinctGenerations(chains: seq<Chain>) {
    forall i, j :: 0 <= i < j < |chains| ==> chains[i].gen != chains[j].gen
  }

  /** The timer that is remembered is pending and of the current generation. */
  predicate TimerGood(s: Probe) {
    s.timer.Some? ==>
      s.timer.value < |s.chains| && s.chains[s.timer.value] == Chain(s.gen, TimerPending)
  }

  /** A chain is inside the mutex exactly if it holds it. */
  predicate HolderGood(s: Probe) {
    forall i :: 0 <= i < |s.chains| ==>
      ((s.chains[i].phase == Reading || s.chains[i].phase == Reporting) <==> s.holder == Tick(i))
  }

  predicate HolderExists(s: Probe) {
    s.holder.Tick? ==> s.holder.chain < |s.chains|
  }

  /** The last of the two events in the log is the transition to running. */
  predicate AwaitsHalt(log: seq<Event>) {
    log != [] && log[|log| - 1] == BecameRunning
  }

  /** Every halted event is directly preceded by a transition to running. */
  predicate Alternates(log: seq<Event>) {
    forall i :: 0 <= i < |log| && log[i] == HaltedEvent ==> i > 0 && log[i - 1] == BecameRunning
  }

  predicate LogGood(s: Probe) {
    && Alternates(s.log)
    && (s.core == Running ==> AwaitsHalt(s.log))
    && (s.holder.Tick? ==> AwaitsHalt(s.log))
    && (s.holder.Tick? && s.holder.chain < |s.chains| && s.chains[s.holder.chain].phase == Reporting ==>
      s.core != Running)
  }

  predicate Inv(s: Probe) {
    && DistinctGenerations(s.chains) && (forall i :: 0 <= i < |s.chains| ==> s.chains[i].gen <= s.gen)
    && TimerGood(s) && HolderGood(s) && HolderExists(s) && LogGood(s)
  }

  predicate Init(s: Probe) {
    s == Probe(Unknown, Absent, 0, None, [], Nobody, [])
  }

  lemma StopKeepsInv(s: Probe)
    requires Inv(s)
    ensures Inv(StopPoller(s)) && StopPoller(s).timer.None?
    ensures forall i :: 0 <= i < |StopPoller(s).chains| ==> StopPoller(s).chains[i].gen < StopPoller(s).gen
  {}

  ghost predicate Live(s: Probe) {
    exists i :: 0 <= i < |s.chains| && s.chains[i].gen == s.gen && s.chains[i].phase != Dead
  }

  lemma StartKeepsInv(s: Probe)
    requires Inv(s)
    ensures Inv(StartPoller(s)) && Live(StartPoller(s))
  {
    var t := StartPoller(s);
    if s.timer.Some? {
      assert t.chains[s.timer.value].phase != Dead;
    } else {
      assert t.chains[|s.chains|].gen == t.gen;
      assert forall i :: 0 <= i < |s.chains| ==> t.chains[i] == s.chains[i];
    }
  }

  lemma CoreKeepsInv(s: Probe, core: CoreStatus)
    requires Inv(s) && (core == Running ==> !s.holder.Tick?)
    ensures Inv(SetCore(s, core))
  {
    assert s.log + [] == s.log;
  }

  lemma FatalKeepsInv(s: Probe, fatal: bool)
    requires Inv(s)
    ensures Inv(MarkFatal(s, fatal))
  {
    if fatal {
      StopKeepsInv(s);
      CoreKeepsInv(StopPoller(s).(usb := Failed), Unknown);
    }
  }

  lemma TimerKeepsInv(s: Probe, i: nat)
    requires Inv(s) && Enabled(s, TimerFires(i))
    ensures Inv(Next(s, TimerFires(i)))
  {}

  lemma TickStartsKeepsInv(s: Probe, i: nat)
    requires Inv(s) && Enabled(s, TickStarts(i))
    ensures Inv(Next(s, TickStarts(i)))
  {}

  lemma TickReadsKeepsInv(s: Probe, i: nat, sees: CoreStatus)
    requires Inv(s) && Enabled(s, TickReads(i, sees))
    ensures Inv(Next(s, TickReads(i, sees)))
  {
    CoreKeepsInv(s, Halted);
  }

  lemma TickReportsKeepsInv(s: Probe, i: nat)
    requires Inv(s) && Enabled(s, TickReports(i))
    ensures Inv(Next(s, TickReports(i)))
  {}

  lemma TickFailsKeepsInv(s: Probe, i: nat, fatal: bool)
    requires Inv(s) && Enabled(s, TickFails(i, fatal))
    ensures Inv(Next(s, TickFails(i, fatal)))
  {}

  lemma TickCatchesKeepsInv(s: Probe, i: nat)
    requires Inv(s) && Enabled(s, TickCatches(i))
    ensures Inv(Next(s, TickCatches(i)))
  {
    FatalKeepsInv(s, s.chains[i].phase.fatal);
  }

  lemma TickFinishesKeepsInv(s: Probe, i: nat)
    requires Inv(s) && Enabled(s, TickFinishes(i))
    ensures Inv(Next(s, TickFinishes(i)))
  {}

  lemma RunOpKeepsInv(s: Probe)
    requires Inv(s) && !s.holder.Tick?
    ensures Inv(StartPoller(SetCore(s, Running)))
  {
    CoreKeepsInv(s, Running);
    StartKeepsInv(SetCore(s, Running));
  }

  lemma ActKeepsInv(s: Probe, op: Op)
    requires Inv(s) && s.holder.Operation?
    ensures Inv(Act(s, op))
  {
    CoreKeepsInv(s, Halted);
    RunOpKeepsInv(s);
    match op {
      case GetStateOp(_) =>
        StopKeepsInv(s);
        CoreKeepsInv(StopPoller(s), Halted);
      case Attach(_) =>
        CoreKeepsInv(s.(usb := Connected), Halted);
        RunOpKeepsInv(s.(usb := Connected));
      case Detach => CoreKeepsInv(s.(usb := Absent), Unknown);
      case Unplug => CoreKeepsInv(s.(usb := Absent), Unknown);
      case _ =>
    }
  }

  lemma HolderKeepsInv(s: Probe, holder: Holder)
    requires Inv(s) && !s.holder.Tick? && !holder.Tick?
    ensures Inv(s.(holder := holder)) && Inv(s.(holder := holder, usb := Failed))
  {}

  lemma BeginKeepsInv(s: Probe, op: Op)
    requires Inv(s)
    ensures Inv(Begin(s, op)) && Begin(s, op).holder == s.holder
  {
    StopKeepsInv(s);
    CoreKeepsInv(StopPoller(s).(usb := Absent), Unknown);
  }

  lemma OpKeepsInv(s: Probe, l: Label)
    requires Inv(s) && Enabled(s, l) && (l.OpStarts? || l.OpActs? || l.OpFails? || l.OpEnds? || l.CablePulled?)
    ensures Inv(Next(s, l))
  {
    match l {
      case OpStarts(op) =>
        BeginKeepsInv(s, op);
        HolderKeepsInv(Begin(s, op), Operation(op, false));
      case OpActs =>
        ActKeepsInv(s, s.holder.op);
        HolderKeepsInv(Act(s, s.holder.op), Operation(s.holder.op, true));
      case OpFails(fatal) =>
        FatalKeepsInv(s, fatal);
        HolderKeepsInv(MarkFatal(s, fatal), Nobody);
      case OpEnds => HolderKeepsInv(s, Nobody);
      case CablePulled => StopKeepsInv(s);
    }
  }

  lemma StepKeepsInv(s: Probe, l: Label)
    requires Inv(s) && Enabled(s, l)
    ensures Inv(Next(s, l))
  {
    match l {
      case TimerFires(i) => TimerKeepsInv(s, i);
      case TickStarts(i) => TickStartsKeepsInv(s, i);
      case TickReads(i, sees) => TickReadsKeepsInv(s, i, sees);
      case TickReports(i) => TickReportsKeepsInv(s, i);
      case TickFails(i, fatal) => TickFailsKeepsInv(s, i, fatal);
      case TickCatches(i) => TickCatchesKeepsInv(s, i);
      case TickFinishes(i) => TickFinishesKeepsInv(s, i);
      case _ => OpKeepsInv(s, l);
    }
  }

  // ---------------------------------------------------------------- liveness

  /** An operation has stopped the poller and not yet recorded what became of the core. */
  predicate InTheMiddle(s: Probe) {
    s.holder.Operation? && !s.holder.late && StopsFirst(s.holder.op)
  }

  /** While the core runs and the probe is connected, a live chain of the current generation exists,
      except in the middle of an operation. */
  ghost predicate Watched(s: Probe) {
    s.core == Running && s.usb == Connected && !InTheMiddle(s) ==> Live(s)
  }

  /** Changing the phase of a chain keeps the poller alive unless that chain dies. */
  lemma PhaseKeepsLive(s: Probe, i: nat, phase: Phase)
    requires i < |s.chains| && phase != Dead && s.chains[i].phase != Dead
    ensures Live(SetPhase(s, i, phase)) == Live(s)
  {
    var t := SetPhase(s, i, phase);
    assert forall j :: 0 <= j < |s.chains| ==>
      t.chains[j].gen == s.chains[j].gen && (t.chains[j].phase != Dead <==> s.chains[j].phase != Dead);
  }

  /** A chain of an old generation, or one whose work is over, may die. */
  lemma DeathKeepsLive(s: Probe, i: nat)
    requires i < |s.chains| && s.chains[i].gen != s.gen
    ensures Live(SetPhase(s, i, Dead)) == Live(s)
  {
    var t := SetPhase(s, i, Dead);
    assert forall j :: 0 <= j < |s.chains| && j != i ==> t.chains[j] == s.chains[j];
  }

  lemma TickKeepsWatched(s: Probe, l: Label)
    requires Inv(s) && Watched(s) && Enabled(s, l)
    requires l.TimerFires? || l.TickStarts? || l.TickReads? || l.TickReports? || l.TickFails? || l.TickCatches? ||
      l.TickFinishes?
    ensures Watched(Next(s, l))
  {
    match l {
      case TimerFires(i) =>
        if s.chains[i].gen == s.gen {
          PhaseKeepsLive(s.(timer := None), i, Queued);
        } else {
          DeathKeepsLive(s.(timer := None), i);
        }
      case TickStarts(i) =>
        PhaseKeepsLive(s, i, Finishing);
        PhaseKeepsLive(s.(holder := Tick(i)), i, Reading);
      case TickReads(i, sees) =>
        PhaseKeepsLive(s.(holder := Nobody), i, Finishing);
      case TickReports(i) =>
        PhaseKeepsLive(s.(holder := Nobody, log := s.log + [HaltedEvent]), i, Finishing);
      case TickFails(i, fatal) =>
        PhaseKeepsLive(s.(holder := Nobody), i, Catching(fatal));
      case TickCatches(i) =>
        PhaseKeepsLive(s, i, Finishing);
      case TickFinishes(i) =>
        PhaseKeepsLive(s.(timer := Some(i)), i, TimerPending);
        if s.chains[i].gen != s.gen {
          DeathKeepsLive(s.(timer := None), i);
        }
    }
  }

  lemma OpKeepsWatched(s: Probe, l: Label)
    requires Inv(s) && Watched(s) && Enabled(s, l) && (l.OpStarts? || l.OpActs? || l.OpEnds?)
    ensures Watched(Next(s, l))
  {
    match l {
      case OpStarts(op) =>
        var t := Next(s, l);
        if !StopsFirst(op) {
          assert Live(s) ==> Live(t) by {
            assert t.chains == s.chains;
          }
        }
      case OpActs => ActKeepsWatched(s, s.holder.op);
      case OpEnds => assert Next(s, l).chains == s.chains;
    }
  }

  lemma StartedIsLive(s: Probe)
    requires Inv(s) && !s.holder.Tick?
    ensures Live(StartPoller(SetCore(s, Running)))
  {
    CoreKeepsInv(s, Running);
    StartKeepsInv(SetCore(s, Running));
  }

  lemma SameChainsSameLive(s: Probe, t: Probe)
    requires t.chains == s.chains && t.gen == s.gen
    ensures Live(t) == Live(s)
  {}

  lemma ActKeepsWatched(s: Probe, op: Op)
    requires Inv(s) && s.holder == Operation(op, false) && Watched(s)
    ensures var t := Act(s, op).(holder := Operation(op, true)); t.core == Running && t.usb == Connected ==> Live(t)
  {
    var t := Act(s, op).(holder := Operation(op, true));
    SameChainsSameLive(Act(s, op), t);
    match op {
      case RunOp => StartedIsLive(s);
      case ResetRunOp => StartedIsLive(s);
      case GetStateOp(halted) =>
        if !halted && s.core != Running {
          StartedIsLive(s);
        }
      case Attach(halted) =>
        if !halted {
          StartedIsLive(s.(usb := Connected));
        }
      case _ =>
    }
  }

  /** The steps that lose the watch: the cable is pulled, or an operation that has stopped the poller
      fails before it has recorded what became of the core. A fatal failure gives up the connection. */
  predicate Losing(s: Probe, l: Label) {
    s.core == Running && s.usb == Connected &&
    match l
    case CablePulled => !InTheMiddle(s)
    case OpFails(fatal) => !fatal && InTheMiddle(s) && !s.holder.op.Attach?
    case _ => false
  }

  lemma StoppedIsNotLive(s: Probe)
    requires Inv(s)
    ensures !Live(StopPoller(s))
  {
    StopKeepsInv(s);
  }

  /** In the middle of an operation on a running core there is no chain to lose or to find again. */
  predicate MiddleIsStopped(s: Probe) {
    InTheMiddle(s) ==> forall i :: 0 <= i < |s.chains| ==> s.chains[i].gen < s.gen
  }

  lemma StepKeepsStopped(s: Probe, l: Label)
    requires Inv(s) && MiddleIsStopped(s) && Enabled(s, l)
    ensures MiddleIsStopped(Next(s, l))
  {
    StopKeepsInv(s);
  }

  lemma FailureKeepsWatched(s: Probe, fatal: bool)
    requires Inv(s) && Watched(s) && MiddleIsStopped(s) && Enabled(s, OpFails(fatal))
    ensures Watched(Next(s, OpFails(fatal))) <==> !Losing(s, OpFails(fatal))
  {
    var t := Next(s, OpFails(fatal));
    if !fatal {
      SameChainsSameLive(s, t);
    }
  }

  /** A step keeps the watch exactly if it is not one of these; failing ticks and all other failing
      operations, even late ones, keep it. */
  lemma StepKeepsWatchedExactly(s: Probe, l: Label)
    requires Inv(s) && Watched(s) && MiddleIsStopped(s) && Enabled(s, l)
    ensures Watched(Next(s, l)) <==> !Losing(s, l)
  {
    match l {
      case OpFails(fatal) => FailureKeepsWatched(s, fatal);
      case CablePulled => StoppedIsNotLive(s);
      case OpStarts(_) => OpKeepsWatched(s, l);
      case OpActs => OpKeepsWatched(s, l);
      case OpEnds => OpKeepsWatched(s, l);
      case _ => TickKeepsWatched(s, l);
    }
  }

  // ---------------------------------------------------------------- what operations do

  /** No timer is remembered and no chain is current. */
  ghost predicate Stopped(s: Probe) {
    s.timer.None? && !Live(s)
  }

  /** Halting, stepping, resetting, flashing, attaching and detaching stop the poller before they touch the
      target; running and looking do not touch it yet. */
  lemma OperationBegins(s: Probe, op: Op)
    requires Inv(s) && Enabled(s, OpStarts(op))
    ensures var t := Next(s, OpStarts(op));
      && (op.HaltOp? || op.StepOp? || op.ResetHaltOp? || op.ResetRunOp? || op.FlashOp? || op.Attach? || op.Detach? ==>
        Stopped(t))
      && (op.RunOp? || op.GetStateOp? || op.OtherOp? || op.Unplug? ==>
        t.timer == s.timer && t.chains == s.chains && t.gen == s.gen)
      && t.core == (if op.Attach? then Unknown else s.core)
      && t.usb == (if op.Attach? then Absent else s.usb)
  {
    StoppedIsNotLive(s);
  }

  /** What an operation has made of the service once the target has answered: running and reset-running
      leave a running core that is polled, the halting ones a halted core; looking and attaching record what
      was seen, and a running core is polled then; detaching forgets everything. */
  lemma OperationMeans(s: Probe)
    requires Inv(s) && Enabled(s, OpActs)
    ensures var op, t := s.holder.op, Next(s, OpActs);
      && (op.RunOp? || op.ResetRunOp? ==> t.core == Running && Live(t))
      && (op.HaltOp? || op.StepOp? || op.ResetHaltOp? || op.FlashOp? ==> t.core == Halted)
      && (op.GetStateOp? ==> t.core == if op.seesHalted then Halted else Running)
      && (op.GetStateOp? && !op.seesHalted && s.usb == Connected && Watched(s) ==> Live(t))
      && (op.GetStateOp? && op.seesHalted && s.core != Halted ==> Stopped(t))
      && (op.Attach? ==> t.usb == Connected && t.core == if op.isHalted then Halted else Running)
      && (op.Attach? && !op.isHalted ==> Live(t))
      && (op.Detach? || op.Unplug? ==> t.core == Unknown && t.usb == Absent)
      && (op.OtherOp? ==> t.core == s.core && t.usb == s.usb && t.chains == s.chains && t.timer == s.timer)
      && (!op.Attach? && !op.Detach? && !op.Unplug? ==> t.usb == s.usb)
  {
    var op := s.holder.op;
    var t := Next(s, OpActs);
    SameChainsSameLive(Act(s, op), t);
    StoppedIsNotLive(s);
    match op {
      case RunOp => StartedIsLive(s);
      case ResetRunOp => StartedIsLive(s);
      case GetStateOp(halted) =>
        if !halted && s.core != Running {
          StartedIsLive(s);
        } else if !halted {
          SameChainsSameLive(s, t);
        } else if s.core != Halted {
          SameChainsSameLive(StopPoller(s), t);
        }
      case Attach(halted) =>
        if !halted {
          StartedIsLive(s.(usb := Connected));
        }
      case _ =>
    }
  }

  /** A tick that sees the core halted records that and goes on to report it; any other look changes
      nothing. */
  lemma TickMeans(s: Probe, i: nat, sees: CoreStatus)
    requires Inv(s) && Enabled(s, TickReads(i, sees))
    ensures var t := Next(s, TickReads(i, sees));
      && (sees == Halted ==> t.core == Halted && t.chains[i].phase == Reporting && t.holder == Tick(i))
      && (sees != Halted ==> t.core == s.core && t.chains[i].phase == Finishing && t.holder == Nobody)
  {}

  // ---------------------------------------------------------------- runs

  ghost predicate Run(states: seq<Probe>, labels: seq<Label>) {
    && |states| == |labels| + 1
    && Init(states[0])
    && forall i :: 0 <= i < |labels| ==> Enabled(states[i], labels[i]) && states[i + 1] == Next(states[i], labels[i])
  }

  lemma {:induction false} RunKeepsInv(states: seq<Probe>, labels: seq<Label>, i: nat)
    requires Run(states, labels) && i < |states|
    ensures Inv(states[i])
  {
    if i > 0 {
      RunKeepsInv(states, labels, i - 1);
      StepKeepsInv(states[i - 1], labels[i - 1]);
    }
  }

  /** In every run, at most one chain carries the current generation. */
  lemma OneCurrentChain(states: seq<Probe>, labels: seq<Label>, n: nat)
    requires Run(states, labels) && n < |states|
    ensures var s := states[n];
      forall i, j :: 0 <= i < j < |s.chains| ==> !(s.chains[i].gen == s.gen && s.chains[j].gen == s.gen)
  {
    RunKeepsInv(states, labels, n);
  }

  /** In every run, two halted events have a transition to running between them. */
  lemma HaltedEventsAreSeparated(states: seq<Probe>, labels: seq<Label>, n: nat)
    requires Run(states, labels) && n < |states|
    ensures var log := states[n].log;
      forall i, j :: 0 <= i < j < |log| && log[i] == HaltedEvent && log[j] == HaltedEvent ==>
        exists k :: i < k < j && log[k] == BecameRunning
  {
    RunKeepsInv(states, labels, n);
    var log := states[n].log;
    forall i, j | 0 <= i < j < |log| && log[i] == HaltedEvent && log[j] == HaltedEvent
      ensures exists k :: i < k < j && log[k] == BecameRunning
    {
      assert log[j - 1] == BecameRunning;
    }
  }

  lemma {:induction false} RunIsWatched(states: seq<Probe>, labels: seq<Label>, n: nat)
    requires Run(states, labels) && n < |states|
    requires forall i :: 0 <= i < n ==> !Losing(states[i], labels[i])
    ensures Watched(states[n]) && MiddleIsStopped(states[n])
  {
    if n > 0 {
      RunIsWatched(states, labels, n - 1);
      RunKeepsInv(states, labels, n - 1);
      StepKeepsStopped(states[n - 1], labels[n - 1]);
      StepKeepsWatchedExactly(states[n - 1], labels[n - 1]);
    }
  }

  /** In every run without such a step, whatever else fails, a running core is watched by a live chain
      whenever the mutex is free. */
  lemma RunningCoreIsWatched(states: seq<Probe>, labels: seq<Label>, n: nat)
    requires Run(states, labels) && n < |states|
    requires forall i :: 0 <= i < n ==> !Losing(states[i], labels[i])
    ensures states[n].core == Running && states[n].usb == Connected && states[n].holder == Nobody ==> Live(states[n])
  {
    RunIsWatched(states, labels, n);
  }

  /** And the first such step of a run does lose it: the core runs, the probe is connected, and no
      chain is alive. */
  lemma LosingStepLoses(states: seq<Probe>, labels: seq<Label>, n: nat)
    requires Run(states, labels) && n < |labels| && Losing(states[n], labels[n])
    requires forall i :: 0 <= i < n ==> !Losing(states[i], labels[i])
    ensures states[n + 1].core == Running && states[n + 1].usb == Connected && !Live(states[n + 1])
  {
    RunIsWatched(states, labels, n);
    RunKeepsInv(states, labels, n);
    StepKeepsWatchedExactly(states[n], labels[n]);
  }

  /** An operation that fails before its state change loses the poller exactly if it is one that stops
      the poller first, on a running core. */
  lemma FailedOperationExactly(s: Probe, op: Op)
    requires Inv(s) && Watched(s) && s.holder == Nobody && NeedsUsb(op) && s.usb == Connected
    ensures var t := Next(Next(s, OpStarts(op)), OpFails(false));
      Watched(t) <==> !(StopsFirst(op) && s.core == Running)
  {
    var u := Next(s, OpStarts(op));
    StepKeepsInv(s, OpStarts(op));
    StepKeepsStopped(s, OpStarts(op));
    StepKeepsWatchedExactly(s, OpStarts(op));
    StepKeepsWatchedExactly(u, OpFails(false));
  }

  // ---------------------------------------------------------------- halts that nobody hears of

  /** A tick that has recorded a halt reports it, unless reading reason and pc fails. */
  lemma RecordedHaltExactly(states: seq<Probe>, labels: seq<Label>, n: nat, i: nat)
    requires Run(states, labels) && n < |labels|
    requires i < |states[n].chains| && states[n].chains[i].phase == Reporting
    requires states[n + 1].chains[i].phase != Reporting
    ensures states[n].core != Running
    ensures states[n + 1].log == states[n].log + (if labels[n] == TickReports(i) then [HaltedEvent] else [])
    ensures labels[n] != TickReports(i) <==> labels[n].TickFails? && labels[n].i == i
  {
    RunKeepsInv(states, labels, n);
    var s, l := states[n], labels[n];
    assert s.holder == Tick(i);
  }

  /** No tick is at work and the core is not known to run. */
  predicate Silent(s: Probe) {
    s.core != Running && !s.holder.Tick?
  }

  lemma StepKeepsSilent(s: Probe, l: Label)
    requires Silent(s) && Enabled(s, l)
    ensures var t := Next(s, l); (t.log == s.log && Silent(t)) || t.log == s.log + [BecameRunning]
  {
    assert s.log + [] == s.log;
    if l.OpActs? {
      ActIsSilent(s, s.holder.op);
    }
  }

  lemma ActIsSilent(s: Probe, op: Op)
    requires Silent(s)
    ensures var t := Act(s, op); (t.log == s.log && t.core != Running) || t.log == s.log + [BecameRunning]
  {
    assert s.log + [] == s.log;
  }

  /** What was logged after `heard`, if anything, begins with a transition to running. */
  predicate NextIsRunning(heard: seq<Event>, log: seq<Event>) {
    heard + [BecameRunning] <= log
  }

  lemma LogGrows(s: Probe, l: Label)
    requires Enabled(s, l)
    ensures s.log <= Next(s, l).log
  {}

  predicate StillSilent(heard: seq<Event>, s: Probe) {
    (s.log == heard && Silent(s)) || NextIsRunning(heard, s.log)
  }

  lemma SilentStep(heard: seq<Event>, s: Probe, l: Label, t: Probe)
    requires StillSilent(heard, s) && Enabled(s, l) && t == Next(s, l)
    ensures StillSilent(heard, t)
  {
    LogGrows(s, l);
    if Silent(s) {
      StepKeepsSilent(s, l);
    }
  }

  lemma {:induction false} SilenceLasts(states: seq<Probe>, labels: seq<Label>, n: nat, m: nat, heard: seq<Event>)
    requires Run(states, labels) && n <= m < |states| && StillSilent(heard, states[n])
    ensures StillSilent(heard, states[m])
    decreases m - n
  {
    if n < m {
      SilentStep(heard, states[n], labels[n], states[n + 1]);
      SilenceLasts(states, labels, n + 1, m, heard);
    }
  }

  /** If it fails, the halt is never reported: the next event, if there is one, is that the core runs
      again. */
  lemma FailedReportIsLost(states: seq<Probe>, labels: seq<Label>, n: nat, i: nat, m: nat)
    requires Run(states, labels) && n < |labels| && n < m < |states|
    requires i < |states[n].chains| && states[n].chains[i].phase == Reporting
    requires labels[n].TickFails? && labels[n].i == i
    ensures states[m].log == states[n].log || NextIsRunning(states[n].log, states[m].log)
  {
    RunKeepsInv(states, labels, n);
    SilenceLasts(states, labels, n + 1, m, states[n].log);
  }
}
