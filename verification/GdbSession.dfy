/** The session object: the parts of its handlers before and after each wait for the probe. Each part is
    one step of the protocol, on the fields as on the world around them; where the source has an error
    path, the part says what remains when the probe operation fails. */
module GdbSession {
  import opened Wrappers
  import opened PageCache
  import opened GdbProtocol
  import opened GdbCoherence

  /** A stop reply and its text in the protocol. */
  datatype StopReply = StopReply(signal: Signal, text: string)

  const SIG_TRAP := "05"
  const SIG_INT := "02"
  const SIG_SEGV := "0b"

  /** The text that the client must see for a reason, with or without a pending Ctrl-C. */
  predicate RightText(reason: Reason, pending: bool, text: string) {
    && (reason == Breakpoint ==> text == "T05thread:1;hwbreak:;")
    && (reason == Watchpoint ==> text == "T05thread:1;")
    && (reason == Fault ==> text == "T0bthread:1;")
    && (reason == Halt || reason == Step || reason == Reset ==>
      text == if pending then "T02thread:1;" else "T05thread:1;")
  }

  /** What a halted event does to the session and the log. */
  lemma HaltedEffect(s: World)
    requires Enabled(s, Deliver) && s.chan[0].Halted?
    ensures var t := Next(s, Deliver);
      if s.ses.running then
        t.ses == Stopped(s.ses) && t.log != [] &&
        t.log[|t.log| - 1] == Stop(s.chan[0].reason, SignalOf(s.chan[0].reason, s.ses.interruptPending))
      else t.ses == s.ses
  {}

  /** What the answer to a step does. */
  lemma StepEffect(s: World)
    requires Enabled(s, Deliver) && s.chan[0].Reply? && s.job.packet == StepOne
    ensures var t, stop := Next(s, Deliver), Stop(s.chan[0].reason, SignalOf(s.chan[0].reason, s.ses.interruptPending));
      t.ses == s.ses.(interruptPending := false) && t.log != [] && t.log[|t.log| - 1] == stop
  {}

  /** What the cache serves to a stopped session is memory. */
  lemma ServedFromMemory(s: World, addr: int, len: nat)
    requires s.job.Idle? && !s.ses.running && Clean(s) && AllCached(s.ses.cache, addr, len)
    ensures FromPages(s.ses.cache, addr, len) == Slice(s.mem, addr, len)
  {
    PagesHoldSlice(s.ses.cache, s.mem, addr, len);
  }

  /** And so is what it fetches. */
  lemma FetchedFromMemory(s: World, addr: int, len: nat)
    requires Shape(s) && Clean(s) && !s.ses.running && s.job.Answered? && s.job.packet == ReadMem(addr, len)
    requires s.chan[0].Reply?
    ensures var cache := s.ses.cache + s.chan[0].pages;
      && s.chan[0].exact == Slice(s.mem, addr, len)
      && (AllCached(cache, addr, len) ==> FromPages(cache, addr, len) == Slice(s.mem, addr, len))
  {
    var cache := s.ses.cache + s.chan[0].pages;
    JoinIsCoherent(s.ses.cache, s.chan[0].pages, s.mem);
    if AllCached(cache, addr, len) {
      PagesHoldSlice(cache, s.mem, addr, len);
    }
  }

  /** What the answer to a read does to the session and the log. */
  lemma ReadEffect(s: World, addr: int, len: nat)
    requires Enabled(s, Deliver) && s.chan[0].Reply? && s.job.packet == ReadMem(addr, len)
    ensures var t, cache := Next(s, Deliver), s.ses.cache + s.chan[0].pages;
      && t.mem == s.mem
      && t.ses == (if Paged(addr, len) then s.ses.(cache := cache) else s.ses)
      && t.log == s.log + (if !Paged(addr, len) then [Read(addr, s.chan[0].exact)]
                           else if AllCached(cache, addr, len) then [Read(addr, FromPages(cache, addr, len))] else [])
  {}

  /** Messages are in order, signals are explained, and the cache is right unless it was spoiled. */
  ghost predicate Good(s: World, spoiled: bool) {
    Shape(s) && Kept(s) && SignalGood(s) && (spoiled || Clean(s))
  }

  class GdbSession {
    var running: bool
    var interruptPending: bool
    var memCache: Cache
    /** The session in its surroundings, and whether they have spoiled the cache since it was last blank. */
    ghost var world: World
    ghost var spoiled: bool

    ghost function State(): Session
      reads this
    {
      Session(running, interruptPending, memCache)
    }

    /** The fields are those of the session in a world that is in order. */
    ghost predicate Valid()
      reads this
    {
      world.ses == State() && Good(world, spoiled)
    }

    constructor (ghost start: World)
      requires Init(start)
      ensures Valid() && world == start && !spoiled
    {
      running, interruptPending, memCache := false, false, map[];
      world, spoiled := start, false;
    }

    /** What the cache is worth: while the session is stopped and no handler is at work, it holds what
        memory holds. */
    lemma CacheIsRight()
      requires Valid() && !spoiled && !running && world.job.Idle?
      ensures Coherent(memCache, world.mem)
    {}

    /** One step of the protocol in the world. */
    ghost method Advance(l: Label)
      requires Enabled(world, l) && Good(world, spoiled)
      modifies this`world, this`spoiled
      ensures world == Next(old(world), l)
      ensures Good(world, spoiled)
      ensures spoiled <==> (old(spoiled) || Spoils(old(world), l)) && !Blank(world)
    {
      StepKeepsShape(world, l);
      StepKeepsSignal(world, l);
      if !spoiled && !Spoils(world, l) {
        StepKeepsClean(world, l);
      }
      spoiled := spoiled || Spoils(world, l);
      world := Next(world, l);
      spoiled := spoiled && !Blank(world);
    }

    /** The client, the probe or the target does something. */
    ghost method Others(l: Label)
      requires Valid() && Enabled(world, l) && !l.Start? && !l.Deliver?
      modifies this`world, this`spoiled
      ensures Valid() && world == Next(old(world), l)
    {
      Advance(l);
    }

    method Invalidate()
      modifies this`memCache
      ensures memCache == map[]
    {
      memCache := map[];
    }

    method SendStopReply(reason: Reason) returns (reply: StopReply)
      modifies this`interruptPending
      ensures reply.signal == SignalOf(reason, old(interruptPending)) && !interruptPending
      ensures reason == Breakpoint || reason == Watchpoint ==> reply.signal == SigTrap
      ensures reason == Fault ==> reply.signal == SigSegv
      ensures reply.signal == SigInt <==>
        (reason == Halt || reason == Step || reason == Reset) && old(interruptPending)
      ensures RightText(reason, old(interruptPending), reply.text)
    {
      var signal, sig, extra := SigTrap, SIG_TRAP, "";
      if reason == Breakpoint {
        extra := "hwbreak:;";
      } else if reason == Watchpoint {
        extra := "";
      } else if reason == Fault {
        signal, sig := SigSegv, SIG_SEGV;
      } else if interruptPending {
        signal, sig := SigInt, SIG_INT;
      }
      interruptPending := false;
      reply := StopReply(signal, "T" + sig + "thread:1;" + extra);
    }

    /** The session is stopped, and the client told so. */
    method StopNow(reason: Reason) returns (reply: StopReply)
      modifies this`running, this`interruptPending, this`memCache
      ensures State() == Session(false, false, map[])
      ensures reply.signal == SignalOf(reason, old(interruptPending))
      ensures reason == Breakpoint || reason == Watchpoint ==> reply.signal == SigTrap
      ensures reason == Fault ==> reply.signal == SigSegv
      ensures reply.signal == SigInt <==>
        (reason == Halt || reason == Step || reason == Reset) && old(interruptPending)
      ensures RightText(reason, old(interruptPending), reply.text)
    {
      running := false;
      Invalidate();
      reply := SendStopReply(reason);
    }

    /** The reply is the last event that the world has seen, with the signal and the text for its reason. */
    ghost predicate Told(reason: Reason, pending: bool, reply: StopReply)
      reads this
    {
      && world.log != [] && world.log[|world.log| - 1] == Stop(reason, reply.signal)
      && RightText(reason, pending, reply.text)
    }

    /** A halted event is answered exactly if a resume is unanswered: by SIGTRAP for a breakpoint or
        watchpoint, by SIGSEGV for a fault, and otherwise by SIGINT exactly if the client has interrupted
        since the last stop reply. */
    method OnHalted(reason: Reason) returns (sent: Option<StopReply>)
      requires Valid() && world.chan != [] && world.chan[0] == Halted(reason)
      modifies this
      ensures Valid() && world == Next(old(world), Deliver)
      ensures if old(running) then sent.Some? && Told(reason, Pending(old(world).log), sent.value) else sent.None?
      ensures State() == if old(running) then Session(false, false, map[]) else old(State())
      ensures sent.Some? && (reason == Breakpoint || reason == Watchpoint) ==> sent.value.signal == SigTrap
      ensures sent.Some? && reason == Fault ==> sent.value.signal == SigSegv
      ensures sent.Some? && (reason == Halt || reason == Step || reason == Reset) ==>
        (sent.value.signal == SigInt <==> Pending(old(world).log))
    {
      HaltedEffect(world);
      assert interruptPending == Pending(world.log);
      Advance(Deliver);
      sent := None;
      if running {
        var reply := StopNow(reason);
        sent := Some(reply);
      }
    }

    /** Packet p is next. */
    ghost predicate Arrived(p: Packet)
      reads this
    {
      Valid() && world.job.Idle? && world.queue != [] && world.queue[0] == p
    }

    /** The answer to the operation of p is here. */
    ghost predicate AnswerTo(p: Packet, first: bool)
      reads this
    {
      && Valid() && world.job.Answered? && world.job.packet == p && world.job.first == first
      && world.chan != [] && world.chan[0].Reply?
    }

    /** Ctrl-C: a halt is asked for exactly if the session is running. */
    method InterruptBegin() returns (ask: bool)
      requires Arrived(CtrlC)
      modifies this
      ensures Valid() && world == Next(old(world), Start)
      ensures ask <==> old(running)
      ensures ask <==> world.job.Asked?
      ensures State() == old(State()).(interruptPending := old(interruptPending) || ask)
    {
      Advance(Start);
      if !running {
        return false;
      }
      interruptPending := true;
      ask := true;
    }

    /** The flag is not looked at again: a reply is sent even if an event has stopped the session. It says
        SIGINT unless that event has already told the client of its Ctrl-C. */
    method InterruptEnd(ok: bool) returns (sent: Option<StopReply>)
      requires AnswerTo(CtrlC, true)
      modifies this
      ensures Valid() && world == (if ok then Next(old(world), Deliver) else old(world))
      ensures if ok then sent.Some? && Told(Halt, Pending(old(world).log), sent.value) else sent.None?
      ensures sent.Some? ==> sent.value.signal == if Pending(old(world).log) then SigInt else SigTrap
      ensures State() == if ok then Session(false, false, map[]) else old(State())
    {
      sent := None;
      if ok {
        assert interruptPending == Pending(world.log);
        Advance(Deliver);
        var reply := StopNow(Halt);
        sent := Some(reply);
      }
    }

    /** Resume and step: the cache is emptied before the target moves. */
    method StartBegin(ghost p: Packet)
      requires Arrived(p) && StartsTarget(p)
      modifies this
      ensures Valid() && world == Next(old(world), Start)
      ensures State() == old(State()).(cache := map[])
    {
      Advance(Start);
      Invalidate();
    }

    method ResumeEnd(ok: bool)
      requires AnswerTo(Resume, true)
      modifies this
      ensures Valid() && world == (if ok then Next(old(world), Deliver) else old(world))
      ensures State() == old(State()).(running := ok || old(running))
    {
      if ok {
        Advance(Deliver);
        running := true;
      }
    }

    /** The reason is the probe's: a step into a fault or onto a breakpoint is reported as such. */
    method StepEnd(ok: bool, reason: Reason) returns (sent: Option<StopReply>)
      requires AnswerTo(StepOne, true) && world.chan[0].reason == reason
      modifies this
      ensures Valid() && world == (if ok then Next(old(world), Deliver) else old(world))
      ensures if ok then sent.Some? && Told(reason, Pending(old(world).log), sent.value) else sent.None?
      ensures sent.Some? && (reason == Breakpoint || reason == Watchpoint) ==> sent.value.signal == SigTrap
      ensures sent.Some? && reason == Fault ==> sent.value.signal == SigSegv
      ensures sent.Some? && (reason == Halt || reason == Step || reason == Reset) ==>
        (sent.value.signal == SigInt <==> Pending(old(world).log))
      ensures State() == if ok then old(State()).(interruptPending := false) else old(State())
    {
      sent := None;
      if ok {
        StepEffect(world);
        assert interruptPending == Pending(world.log);
        Advance(Deliver);
        var reply := SendStopReply(reason);
        sent := Some(reply);
      }
    }

    /** A read begins: it is served from the cache if that is possible, and otherwise asks for the missing
        pages or for the exact range. */
    method ReadBegin(addr: int, len: nat) returns (served: Option<seq<Byte>>, wanted: set<int>)
      requires Arrived(ReadMem(addr, len))
      modifies this
      ensures Valid() && world == Next(old(world), Start) && State() == old(State())
      ensures if served.Some? then world.job.Idle? && world.log == old(world).log + [Read(addr, served.value)]
              else world.job == Asked(ReadMem(addr, len), true, wanted) && world.log == old(world).log
      ensures served.Some? ==> |served.value| == len
      ensures served.Some? <==>
        len == 0 || (Paged(addr, len) && forall p :: PageOf(addr) <= p < addr + len && p % PAGE == 0 ==> p in memCache)
      ensures served.None? && Paged(addr, len) ==>
        forall p :: p in wanted <==> PageOf(addr) <= p < addr + len && p % PAGE == 0 && p !in memCache
      ensures served.Some? && !running && !old(spoiled) ==> served.value == Slice(world.mem, addr, len)
    {
      served, wanted := None, {};
      if !running && !spoiled && AllCached(memCache, addr, len) {
        ServedFromMemory(world, addr, len);
      }
      Advance(Start);
      if len == 0 || (Paged(addr, len) && AllCached(memCache, addr, len)) {
        served := Some(FromPages(memCache, addr, len));
      } else if Paged(addr, len) {
        wanted := Missing(memCache, addr, len);
      }
    }

    /** The pages or the exact bytes are here. A paged read that has lost pages meanwhile is not answered. */
    method ReadEnd(addr: int, len: nat, pages: Cache, exact: seq<Byte>) returns (sent: Option<seq<Byte>>)
      requires AnswerTo(ReadMem(addr, len), true) && world.chan[0].pages == pages && world.chan[0].exact == exact
      modifies this
      ensures Valid() && world == Next(old(world), Deliver)
      ensures world.log == old(world).log + if sent.Some? then [Read(addr, sent.value)] else []
      ensures sent.Some? && !running && !old(spoiled) ==> sent.value == Slice(world.mem, addr, len)
      ensures !Paged(addr, len) ==> sent == Some(exact) && memCache == old(memCache)
      ensures Paged(addr, len) ==> memCache == old(memCache) + pages
      ensures Paged(addr, len) ==>
        (sent.Some? <==> forall p :: PageOf(addr) <= p < addr + len && p % PAGE == 0 ==> p in memCache)
    {
      if !running && !spoiled {
        FetchedFromMemory(world, addr, len);
      }
      ReadEffect(world, addr, len);
      Advance(Deliver);
      sent := Some(exact);
      if Paged(addr, len) {
        memCache := memCache + pages;
        sent := if AllCached(memCache, addr, len) then Some(FromPages(memCache, addr, len)) else None;
      }
    }

    /** A write of memory: whether or not it has failed, the cache is emptied. */
    method WriteMemEnd(ok: bool, ghost at: int, ghost data: seq<Byte>)
      requires AnswerTo(WriteMem(at, data), true)
      modifies this
      ensures Valid() && world == Next(old(world), Deliver) && memCache == map[]
    {
      Advance(Deliver);
      Invalidate();
    }

    /** Z and z packets of type 0 or 1: only setting a type 0 breakpoint empties the cache. */
    method BreakpointEnd(isSet: bool, kind: int)
      requires AnswerTo(if isSet && kind == 0 then SetBreakpoint else SilentRewrite, true)
      modifies this
      ensures Valid() && world == Next(old(world), Deliver)
      ensures memCache == if isSet && kind == 0 then map[] else old(memCache)
    {
      Advance(Deliver);
      if isSet && kind == 0 {
        Invalidate();
      }
    }

    /** vFlashDone (one image), monitor reset halt and monitor halt: afterwards nothing is cached and the
        target stands still, so whatever was spoiled is forgotten. */
    method HaltingEnd(ghost p: Packet)
      requires AnswerTo(p, true) && (p.FlashDone? || p.ResetHalt? || p.HaltAgain?)
      modifies this
      ensures Valid() && world == Next(old(world), Deliver)
      ensures !running && memCache == map[] && !spoiled
    {
      Advance(Deliver);
      Invalidate();
      running := false;
    }

    /** monitor reset: the cache is emptied after the reset, the session is stopped after the halt that
        follows it. */
    method ResetRunEnd(first: bool)
      requires AnswerTo(ResetRun, first)
      modifies this
      ensures Valid() && world == Next(old(world), Deliver)
      ensures first ==> memCache == map[] && world.job.Asked?
      ensures !first ==> !running && memCache == old(memCache)
    {
      Advance(Deliver);
      if first {
        Invalidate();
      } else {
        running := false;
      }
    }
  }
}
