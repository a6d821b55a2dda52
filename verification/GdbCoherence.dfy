/** When the page cache agrees with the target's memory: in every run of every client, up to the packets
    that run the target or rewrite RAM behind the session's back. */
module GdbCoherence {
  import opened Wrappers
  import opened PageCache
  import opened GdbProtocol

  /** The target stands still and every cached page is as in memory. */
  ghost predicate Settled(s: World) {
    !s.core && Coherent(s.ses.cache, s.mem)
  }

  /** The answer to a read holds pages and bytes as they are in memory, and the target stands still. */
  ghost predicate Exact(s: World, addr: int, len: nat) {
    var n := AnswerAt(s);
    && !s.core && n < |s.chan| && s.chan[n].Reply?
    && Coherent(s.chan[n].pages, s.mem) && s.chan[n].exact == Slice(s.mem, addr, len)
  }

  /** What holds of cache and target while a handler waits for its operation to be executed. */
  ghost predicate CleanAsked(s: World, p: Packet, first: bool) {
    if StartsTarget(p) || (p.ResetRun? && !first) then s.ses.cache == map[] else !s.ses.running ==> Settled(s)
  }

  /** And while the answer is on its way. Where the reply will empty the cache, nothing is needed. */
  ghost predicate CleanAnswered(s: World, p: Packet, first: bool)
    requires s.chan != []
  {
    match p
    case Resume => s.ses.cache == map[]
    case StepOne => s.ses.cache == map[]
    case ResetRun => first || s.ses.cache == map[]
    case ReadMem(addr, len) =>
      && (!s.ses.running ==> Settled(s))
      && (!s.ses.running || s.chan[0].Halted? ==> Exact(s, addr, len))
    case Harmless => !s.ses.running ==> Settled(s)
    case SilentRewrite => !s.ses.running ==> Settled(s)
    case WriteMem(_, _) => !s.ses.running ==> !s.core
    case SetBreakpoint => !s.ses.running ==> !s.core
    case Kill => s.ses.running && s.chan[0].Reply?
    case CtrlC => true
    case FlashDone => true
    case ResetHalt => true
    case HaltAgain => true
  }

  ghost predicate Clean(s: World) {
    match s.job
    case Idle => !s.ses.running ==> Settled(s)
    case Asked(p, first, _) => CleanAsked(s, p, first)
    case Answered(p, first, _) => s.chan != [] && CleanAnswered(s, p, first)
  }

  /** Nothing is in progress, the target stands still and nothing is cached. */
  predicate Blank(s: World) {
    s.job.Idle? && !s.core && s.ses.cache == map[]
  }

  /** The steps that can make the cache disagree with memory in a stopped session: vKill lets the target
      run while the session is stopped or about to stop, and a breakpoint packet that does not
      invalidate changes the bytes of a cached page. */
  ghost predicate Spoils(s: World, l: Label) {
    && l.Execute? && s.job.Asked?
    && match s.job.packet
       case Kill => !s.ses.running || s.chan != []
       case SilentRewrite =>
         !s.ses.running && exists p :: p in s.ses.cache && Slice(l.m, p, PAGE) != Slice(s.mem, p, PAGE)
       case _ => false
  }

  ghost predicate Unspoiled(s: World, l: Label) {
    !Spoils(s, l)
  }

  lemma BlankIsClean(s: World)
    requires Blank(s)
    ensures Clean(s)
  {}

  lemma StartKeepsClean(s: World)
    requires Shape(s) && Clean(s) && Enabled(s, Start)
    ensures Clean(Next(s, Start))
  {
    var p := s.queue[0];
  }

  lemma ExecuteKeepsClean(s: World, m: Memory, reason: Reason)
    requires Shape(s) && Clean(s) && Enabled(s, Execute(m, reason)) && !Spoils(s, Execute(m, reason))
    ensures Clean(Next(s, Execute(m, reason)))
  {}

  lemma TargetKeepsClean(s: World, l: Label)
    requires Shape(s) && Clean(s) && Enabled(s, l) && (l.CoreMoves? || l.CoreStops? || l.Poll?)
    ensures Clean(Next(s, l))
  {}

  lemma HaltedKeepsClean(s: World)
    requires Shape(s) && Clean(s) && Enabled(s, Deliver) && s.chan[0].Halted?
    ensures Clean(Next(s, Deliver))
  {}

  lemma JoinIsCoherent(a: Cache, b: Cache, mem: Memory)
    requires Coherent(a, mem) && Coherent(b, mem)
    ensures Coherent(a + b, mem)
  {}

  lemma ReadKeepsClean(s: World)
    requires Shape(s) && Clean(s) && Enabled(s, Deliver) && s.chan[0].Reply? && s.job.packet.ReadMem?
    ensures Clean(Next(s, Deliver))
  {
    if !s.ses.running {
      JoinIsCoherent(s.ses.cache, s.chan[0].pages, s.mem);
    }
  }

  lemma ReplyKeepsClean(s: World)
    requires Shape(s) && Clean(s) && Enabled(s, Deliver) && s.chan[0].Reply? && !s.job.packet.ReadMem?
    ensures Clean(Next(s, Deliver))
  {}

  /** Whoever the client is, every other step keeps it. */
  lemma StepKeepsClean(s: World, l: Label)
    requires Shape(s) && Clean(s) && Enabled(s, l) && !Spoils(s, l)
    ensures Clean(Next(s, l))
  {
    match l {
      case Send(_) =>
      case Receive =>
      case Start => StartKeepsClean(s);
      case Execute(m, reason) => ExecuteKeepsClean(s, m, reason);
      case Deliver =>
        if s.chan[0].Halted? {
          HaltedKeepsClean(s);
        } else if s.job.packet.ReadMem? {
          ReadKeepsClean(s);
        } else {
          ReplyKeepsClean(s);
        }
      case _ => TargetKeepsClean(s, l);
    }
  }

  lemma {:induction false} AlongKeepsClean(s: World, labels: seq<Label>, t: World)
    requires Shape(s) && Kept(s) && Clean(s) && Along(s, labels, t, Unspoiled)
    ensures Shape(t) && Kept(t) && Clean(t)
    decreases |labels|
  {
    if labels != [] {
      StepKeepsShape(s, labels[0]);
      StepKeepsClean(s, labels[0]);
      AlongKeepsClean(Next(s, labels[0]), labels[1..], t);
    }
  }

  /** A run that was blank at some moment and has not been spoiled since. The initial state is blank. */
  ghost predicate CleanRun(s0: World, before: seq<Label>, base: World, since: seq<Label>, s: World) {
    Init(s0) && Along(s0, before, base, Any) && Blank(base) && Along(base, since, s, Unspoiled)
  }

  lemma CleanRunIsClean(s0: World, before: seq<Label>, base: World, since: seq<Label>, s: World)
    requires CleanRun(s0, before, base, since, s)
    ensures Shape(s) && Kept(s) && Clean(s)
  {
    AlongKeepsShape(s0, before, base, Any);
    BlankIsClean(base);
    AlongKeepsClean(base, since, s);
  }

  /** In every run of every client, whatever it sends and when: if nothing was spoiled since the last
      moment when the target stood still and nothing was cached, every cached page equals target memory
      whenever the session is stopped and no handler is at work. */
  lemma CacheIsCoherent(s0: World, before: seq<Label>, base: World, since: seq<Label>, s: World)
    requires CleanRun(s0, before, base, since, s)
    ensures !s.ses.running && s.job.Idle? ==> !s.core && Coherent(s.ses.cache, s.mem)
  {
    CleanRunIsClean(s0, before, base, since, s);
  }

  // ---------------------------------------------------------------- reads

  lemma PagesHoldSlice(cache: Cache, mem: Memory, addr: int, len: nat)
    requires Coherent(cache, mem) && AllCached(cache, addr, len)
    ensures FromPages(cache, addr, len) == Slice(mem, addr, len)
  {
    forall i | 0 <= i < len
      ensures FromPages(cache, addr, len)[i] == mem(addr + i)
    {
      var p := PageOf(addr + i);
      assert p in cache && cache[p] == Slice(mem, p, PAGE);
    }
  }

  /** The events that a step adds to the log. */
  function Added(s: World, l: Label): seq<Event>
    requires Enabled(s, l)
  {
    if |s.log| <= |Next(s, l).log| then Next(s, l).log[|s.log|..] else []
  }

  /** A reply to a read that is, byte for byte, what memory holds. */
  ghost predicate Direct(e: Event, mem: Memory) {
    e.Read? ==> e.bytes == Slice(mem, e.start, |e.bytes|)
  }

  lemma ServedIsDirect(s: World)
    requires Enabled(s, Start) && s.job.Idle? && !s.ses.running && Clean(s)
    ensures forall e <- Added(s, Start) :: Direct(e, s.mem)
  {
    var p := s.queue[0];
    if p.ReadMem? && p.len > 0 && Paged(p.addr, p.len) && AllCached(s.ses.cache, p.addr, p.len) {
      PagesHoldSlice(s.ses.cache, s.mem, p.addr, p.len);
    }
  }

  lemma FetchedIsDirect(s: World)
    requires Shape(s) && Clean(s) && !s.ses.running
    requires Enabled(s, Deliver) && s.chan[0].Reply? && s.job.packet.ReadMem?
    ensures forall e <- Added(s, Deliver) :: Direct(e, s.mem)
  {
    var p, cache := s.job.packet, s.ses.cache + s.chan[0].pages;
    JoinIsCoherent(s.ses.cache, s.chan[0].pages, s.mem);
    if AllCached(cache, p.addr, p.len) {
      PagesHoldSlice(cache, s.mem, p.addr, p.len);
    }
  }

  lemma HaltsAreNotReads(s: World)
    requires Enabled(s, Deliver) && s.chan[0].Halted?
    ensures forall e <- Added(s, Deliver) :: !e.Read?
  {}

  lemma OtherAnswersAreNotReads(s: World)
    requires Enabled(s, Deliver) && s.chan[0].Reply? && !s.job.packet.ReadMem?
    ensures forall e <- Added(s, Deliver) :: !e.Read?
  {
    var rest, p := s.(chan := s.chan[1..]), s.job.packet;
    if !p.CtrlC? && !StartsTarget(p) {
      QuietReply(rest, p, s.job.first, s.chan[0]);
    }
  }

  /** Only the start of a read packet and the answer to one are followed by a reply to it. */
  lemma OthersDoNotRead(s: World, l: Label)
    requires Enabled(s, l) && !l.Start? && !(l.Deliver? && s.chan[0].Reply? && s.job.packet.ReadMem?)
    ensures forall e <- Added(s, l) :: !e.Read?
  {
    if l.Deliver? {
      if s.chan[0].Halted? {
        HaltsAreNotReads(s);
      } else {
        OtherAnswersAreNotReads(s);
      }
    } else {
      assert Next(s, l).log == s.log;
    }
  }

  /** In every run of every client that is not spoiled: a read that is answered while the session is
      stopped reports memory as it is at that moment. */
  lemma StoppedReadIsDirect(s0: World, before: seq<Label>, base: World, since: seq<Label>, s: World, l: Label)
    requires CleanRun(s0, before, base, since, s) && Enabled(s, l) && !s.ses.running
    ensures forall e <- Added(s, l) :: Direct(e, s.mem)
  {
    CleanRunIsClean(s0, before, base, since, s);
    if l.Start? {
      ServedIsDirect(s);
    } else if l.Deliver? && s.chan[0].Reply? && s.job.packet.ReadMem? {
      FetchedIsDirect(s);
    } else {
      OthersDoNotRead(s, l);
    }
  }
}
