/** The probe service's fields and the code that changes them between two waits. The event loop's part,
    the pending timers and running ticks, is kept in `chains`. */
module ProbeService {
  import opened Wrappers
  import opened PollerProtocol

  class ProbeService {
    var coreState: CoreStatus
    var usbState: UsbStatus
    var pollGeneration: nat
    var pollTimer: Option<nat>
    var chains: seq<Chain>
    ghost var holder: Holder
    ghost var log: seq<Event>
    /** A step has lost the watch on a running core. */
    ghost var lost: bool

    ghost function State(): Probe
      reads this
    {
      Probe(coreState, usbState, pollGeneration, pollTimer, chains, holder, log)
    }

    /** At most one current chain, alternating events, and a watched core unless the watch was lost. */
    ghost predicate Valid()
      reads this
    {
      Inv(State()) && MiddleIsStopped(State()) && (lost || Watched(State()))
    }

    constructor ()
      ensures Valid() && Init(State()) && !lost
    {
      coreState, usbState, pollGeneration, pollTimer, chains := Unknown, Absent, 0, None, [];
      holder, log, lost := Nobody, [], false;
    }

    /** What the service is worth to its clients. */
    lemma RunningCoreHasLiveChain()
      requires Valid() && !lost && coreState == Running && usbState == Connected && holder == Nobody
      ensures Live(State())
    {}

    /** Before a step: what will hold after it, and whether it loses the watch. */
    ghost method Kept(l: Label)
      requires Valid() && Enabled(State(), l)
      modifies this`lost
      ensures State() == old(State()) && lost == (old(lost) || Losing(State(), l))
      ensures Inv(Next(State(), l)) && MiddleIsStopped(Next(State(), l)) && (lost || Watched(Next(State(), l)))
    {
      StepKeepsInv(State(), l);
      StepKeepsStopped(State(), l);
      if !lost {
        StepKeepsWatchedExactly(State(), l);
      }
      lost := lost || Losing(State(), l);
    }

    method SetCoreState(core: CoreStatus)
      modifies this`coreState, this`log
      ensures State() == SetCore(old(State()), core)
      ensures coreState == core
    {
      log := log + if core == Running && coreState != Running then [BecameRunning] else [];
      coreState := core;
    }

    method StartPoller()
      modifies this`pollGeneration, this`pollTimer, this`chains
      ensures State() == PollerProtocol.StartPoller(old(State()))
      ensures old(Inv(State())) ==> Live(State())
    {
      if Inv(State()) {
        StartKeepsInv(State());
      }
      if pollTimer.Some? {
        return;
      }
      pollGeneration := pollGeneration + 1;
      pollTimer := Some(|chains|);
      chains := chains + [Chain(pollGeneration, TimerPending)];
    }

    method StopPoller()
      modifies this`pollGeneration, this`pollTimer, this`chains
      ensures State() == PollerProtocol.StopPoller(old(State()))
      ensures old(Inv(State())) ==> !Live(State())
    {
      if Inv(State()) {
        StoppedIsNotLive(State());
      }
      pollGeneration := pollGeneration + 1;
      if pollTimer.Some? {
        var t := pollTimer.value;
        if t < |chains| && chains[t].phase == TimerPending {
          chains := chains[t := chains[t].(phase := Dead)];
        }
        pollTimer := None;
      }
    }

    /** An unusable connection stops the poller and makes the core state unknown. */
    method MarkFatal(fatal: bool)
      modifies this`coreState, this`usbState, this`pollGeneration, this`pollTimer, this`chains, this`log
      ensures State() == PollerProtocol.MarkFatal(old(State()), fatal)
      ensures fatal ==> coreState == Unknown && usbState == UsbStatus.Failed && pollTimer.None?
      ensures !fatal ==> State() == old(State())
    {
      if !fatal {
        return;
      }
      StopPoller();
      usbState := UsbStatus.Failed;
      SetCoreState(Unknown);
    }

    /** The start of `tick`: forget the timer, give up if the generation is old, else wait for the mutex. */
    method TimerFired(i: nat)
      requires Valid() && Enabled(State(), TimerFires(i))
      modifies this
      ensures Valid() && State() == Next(old(State()), TimerFires(i))
      ensures lost <==> old(lost) || Losing(old(State()), TimerFires(i))
      ensures pollTimer.None? && coreState == old(coreState) && usbState == old(usbState)
      ensures chains[i].phase == if chains[i].gen == pollGeneration then Queued else Dead
    {
      Kept(TimerFires(i));
      pollTimer := None;
      var queued := chains[i].gen == pollGeneration;
      chains := chains[i := chains[i].(phase := if queued then Queued else Dead)];
    }

    /** The tick has the mutex; it looks at generation and core state again. */
    method TickEntered(i: nat) returns (read: bool)
      requires Valid() && Enabled(State(), TickStarts(i))
      modifies this
      ensures Valid() && State() == Next(old(State()), TickStarts(i))
      ensures lost <==> old(lost) || Losing(old(State()), TickStarts(i))
      ensures read <==> chains[i].gen == pollGeneration && coreState == Running
      ensures read <==> holder == Tick(i)
      ensures coreState == old(coreState) && usbState == old(usbState)
    {
      Kept(TickStarts(i));
      read := chains[i].gen == pollGeneration && coreState == Running;
      chains := chains[i := chains[i].(phase := if read then Reading else Finishing)];
      if read {
        holder := Tick(i);
      }
    }

    method TickRead(i: nat, sees: CoreStatus)
      requires Valid() && Enabled(State(), TickReads(i, sees))
      modifies this
      ensures Valid() && State() == Next(old(State()), TickReads(i, sees))
      ensures lost <==> old(lost) || Losing(old(State()), TickReads(i, sees))
      ensures sees == Halted ==> coreState == Halted && chains[i].phase == Reporting && holder == Tick(i)
      ensures sees != Halted ==> coreState == old(coreState) && chains[i].phase == Finishing && holder == Nobody
    {
      Kept(TickReads(i, sees));
      if sees == Halted {
        SetCoreState(Halted);
        chains := chains[i := chains[i].(phase := Reporting)];
      } else {
        chains := chains[i := chains[i].(phase := Finishing)];
        holder := Nobody;
      }
    }

    /** Reason and pc have been read: emit the event. */
    method TickReported(i: nat)
      requires Valid() && Enabled(State(), TickReports(i))
      modifies this
      ensures Valid() && State() == Next(old(State()), TickReports(i))
      ensures lost <==> old(lost) || Losing(old(State()), TickReports(i))
      ensures log == old(log) + [HaltedEvent] && holder == Nobody && coreState == old(coreState)
    {
      Kept(TickReports(i));
      log := log + [HaltedEvent];
      chains := chains[i := chains[i].(phase := Finishing)];
      holder := Nobody;
    }

    method TickCaught(i: nat)
      requires Valid() && Enabled(State(), TickCatches(i))
      modifies this
      ensures Valid() && State() == Next(old(State()), TickCatches(i))
      ensures lost <==> old(lost) || Losing(old(State()), TickCatches(i))
      ensures old(chains[i].phase.fatal) ==> coreState == Unknown && usbState == UsbStatus.Failed && pollTimer.None?
      ensures !old(chains[i].phase.fatal) ==> coreState == old(coreState) && usbState == old(usbState)
    {
      Kept(TickCatches(i));
      var fatal := chains[i].phase.fatal;
      MarkFatal(fatal);
      chains := chains[i := chains[i].(phase := Finishing)];
    }

    method TickFinished(i: nat)
      requires Valid() && Enabled(State(), TickFinishes(i))
      modifies this
      ensures Valid() && State() == Next(old(State()), TickFinishes(i))
      ensures lost <==> old(lost) || Losing(old(State()), TickFinishes(i))
      ensures coreState == old(coreState) && usbState == old(usbState)
      ensures chains[i].gen == pollGeneration && coreState == Running && usbState == Connected ==>
        pollTimer == Some(i) && chains[i].phase == TimerPending
      ensures !(chains[i].gen == pollGeneration && coreState == Running && usbState == Connected) ==>
        pollTimer.None? && chains[i].phase == Dead
    {
      Kept(TickFinishes(i));
      if chains[i].gen == pollGeneration && coreState == Running && usbState == Connected {
        pollTimer := Some(i);
        chains := chains[i := chains[i].(phase := TimerPending)];
      } else {
        pollTimer := None;
        chains := chains[i := chains[i].(phase := Dead)];
      }
    }

    /** What an operation does before its first access to the target. */
    method OpStarted(op: Op)
      requires Valid() && Enabled(State(), OpStarts(op))
      modifies this
      ensures Valid() && State() == Next(old(State()), OpStarts(op))
      ensures lost <==> old(lost) || Losing(old(State()), OpStarts(op))
      ensures op.HaltOp? || op.StepOp? || op.ResetHaltOp? || op.ResetRunOp? || op.FlashOp? || op.Attach? ||
              op.Detach? ==>
        pollTimer.None? && !Live(State())
      ensures op.RunOp? || op.GetStateOp? || op.OtherOp? || op.Unplug? ==>
        pollTimer == old(pollTimer) && chains == old(chains) && pollGeneration == old(pollGeneration)
      ensures coreState == if op.Attach? then Unknown else old(coreState)
      ensures usbState == if op.Attach? then Absent else old(usbState)
    {
      OperationBegins(State(), op);
      Kept(OpStarts(op));
      if StopsFirst(op) {
        StopPoller();
      }
      if op.Attach? {
        usbState := Absent;
        SetCoreState(Unknown);
      }
      holder := Operation(op, false);
    }

    /** The state change in the middle of an operation. */
    method ActOn(op: Op)
      requires Inv(State()) && holder == Operation(op, false)
      modifies this`coreState, this`usbState, this`pollGeneration, this`pollTimer, this`chains, this`log
      ensures State() == Act(old(State()), op)
    {
      match op {
        case HaltOp => SetCoreState(Halted);
        case StepOp => SetCoreState(Halted);
        case ResetHaltOp => SetCoreState(Halted);
        case FlashOp => SetCoreState(Halted);
        case RunOp =>
          SetCoreState(Running);
          StartPoller();
        case ResetRunOp =>
          SetCoreState(Running);
          StartPoller();
        case GetStateOp(halted) =>
          if halted && coreState != Halted {
            StopPoller();
            SetCoreState(Halted);
          } else if !halted && coreState != Running {
            SetCoreState(Running);
            StartPoller();
          }
        case OtherOp =>
        case Attach(halted) =>
          usbState := Connected;
          SetCoreState(if halted then Halted else Running);
          if !halted {
            StartPoller();
          }
        case Detach =>
          usbState := Absent;
          SetCoreState(Unknown);
        case Unplug =>
          usbState := Absent;
          SetCoreState(Unknown);
      }
    }

    /** What it does once the target has answered. */
    method OpActed(op: Op)
      requires Valid() && Enabled(State(), OpActs) && holder.op == op
      modifies this
      ensures Valid() && State() == Next(old(State()), OpActs)
      ensures lost <==> old(lost) || Losing(old(State()), OpActs)
      ensures op.RunOp? || op.ResetRunOp? ==> coreState == Running && Live(State())
      ensures op.HaltOp? || op.StepOp? || op.ResetHaltOp? || op.FlashOp? ==> coreState == Halted
      ensures op.GetStateOp? ==> coreState == if op.seesHalted then Halted else Running
      ensures op.GetStateOp? && !op.seesHalted && usbState == Connected && !lost ==> Live(State())
      ensures op.Attach? ==> usbState == Connected && coreState == if op.isHalted then Halted else Running
      ensures op.Attach? && !op.isHalted ==> Live(State())
      ensures op.Detach? || op.Unplug? ==> coreState == Unknown && usbState == Absent
      ensures op.OtherOp? ==> coreState == old(coreState) && pollTimer == old(pollTimer) && chains == old(chains)
      ensures !op.Attach? && !op.Detach? && !op.Unplug? ==> usbState == old(usbState)
    {
      OperationMeans(State());
      Kept(OpActs);
      ActOn(op);
      holder := Operation(op, true);
    }

    /** The read of the core state, or of reason and pc, has thrown. */
    method TickFailed(i: nat, fatal: bool)
      requires Valid() && Enabled(State(), TickFails(i, fatal))
      modifies this
      ensures Valid() && State() == Next(old(State()), TickFails(i, fatal))
      ensures lost <==> old(lost)
    {
      Kept(TickFails(i, fatal));
      chains := chains[i := chains[i].(phase := Catching(fatal))];
      holder := Nobody;
    }

    /** An operation has thrown. */
    method OpFailed(op: Op, fatal: bool)
      requires Valid() && Enabled(State(), OpFails(fatal)) && holder.op == op
      modifies this
      ensures Valid() && State() == Next(old(State()), OpFails(fatal))
      ensures lost <==> old(lost) || Losing(old(State()), OpFails(fatal))
      ensures holder == Nobody
      ensures fatal ==> coreState == Unknown && usbState == UsbStatus.Failed && pollTimer.None?
      ensures !fatal ==> coreState == old(coreState)
      ensures !fatal ==> usbState == if op.Attach? then UsbStatus.Failed else old(usbState)
    {
      Kept(OpFails(fatal));
      MarkFatal(fatal);
      if op.Attach? {
        usbState := UsbStatus.Failed;
      }
      holder := Nobody;
    }

    /** The cable was pulled; the operation that forgets the connection waits for the mutex. */
    method UsbDisconnected()
      requires Valid()
      modifies this
      ensures Valid() && State() == Next(old(State()), CablePulled)
      ensures lost <==> old(lost) || Losing(old(State()), CablePulled)
      ensures pollTimer.None? && !Live(State()) && coreState == old(coreState) && usbState == old(usbState)
    {
      Kept(CablePulled);
      StopPoller();
    }
  }
}
