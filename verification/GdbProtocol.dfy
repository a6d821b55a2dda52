/** The GDB session against the probe, the target and the client, as a transition system: packets and
    Ctrl-C bytes are handled one after the other, every handler waits for its probe operations, and
    `halted` events arrive in between, in the order in which the probe emitted them and its answers.
    Stop replies are on their way to the client for some time. */
module GdbProtocol {
  import opened Wrappers
  import opened PageCache

  datatype Reason = Breakpoint | Watchpoint | Fault | Halt | Step | Reset
  datatype Signal = SigTrap | SigInt | SigSegv

  /** The fields of a session that the protocol is about. */
  datatype Session = Session(running: bool, interruptPending: bool, cache: Cache)

  function SignalOf(reason: Reason, interruptPending: bool): Signal {
    if reason == Breakpoint || reason == Watchpoint then SigTrap
    else if reason == Fault then SigSegv
    else if interruptPending then SigInt
    else SigTrap
  }

  function Stopped(c: Session): Session {
    Session(false, false, map[])
  }

  function Invalidated(c: Session): Session {
    c.(cache := map[])
  }

  // ---------------------------------------------------------------- packets, operations, messages

  datatype Packet =
    | CtrlC
    | Resume
    | StepOne
    | ReadMem(addr: int, len: nat)
    | WriteMem(at: int, data: seq<Byte>)
    | SetBreakpoint      // Z0: may plant an instruction in RAM
    | FlashDone          // vFlashDone with chunks
    | ResetHalt          // monitor reset halt
    | HaltAgain          // monitor halt
    | ResetRun           // monitor reset: resets and runs, then halts
    | Harmless           // registers, watchpoints, Z1 in flash: no effect on memory
    | SilentRewrite      // z0, z1, and Z1 in RAM: may rewrite RAM without invalidating the cache
    | Kill               // vKill: clears breakpoints and lets the target run

  /** Packets after which the server waits for the target to stop. */
  predicate StartsTarget(p: Packet) {
    p.Resume? || p.StepOne?
  }

  datatype Job =
    | Idle
    | Asked(packet: Packet, first: bool, wanted: set<int>)     // an operation was sent to the probe
    | Answered(packet: Packet, first: bool, wanted: set<int>)  // it was executed, the answer is on its way

  datatype Msg =
    | Halted(reason: Reason)
    | Reply(pages: Cache, exact: seq<Byte>, reason: Reason)

  datatype Event =
    | Interrupted                            // a Ctrl-C has found the session running
    | Resumed
    | Stepped
    | Stop(reason: Reason, signal: Signal)
    | Race                                   // a halted event arrived while an interrupt was under way
    | Read(start: int, bytes: seq<Byte>)

  datatype World = World(
    ses: Session,
    job: Job,
    queue: seq<Packet>,
    chan: seq<Msg>,      // from the probe to the session, oldest first
    core: bool,          // the target's core is running
    poll: bool,          // the probe is polling for its halt
    mem: Memory,
    log: seq<Event>,
    waiting: bool,       // the client has sent a resume or step and seen no stop reply since
    down: nat            // stop replies on their way to the client
  )

  datatype Label =
    | Send(p: Packet)
    | Receive
    | Start
    | Execute(m: Memory, reason: Reason)   // the memory afterwards and why a step has stopped
    | CoreMoves(m: Memory)
    | CoreStops
    | Poll(reason: Reason)
    | Deliver

  function Poke(mem: Memory, addr: int, data: seq<Byte>): Memory {
    (a: int) => if addr <= a < addr + |data| then data[a - addr] else mem(a)
  }

  predicate AllCached(cache: Cache, addr: int, len: nat) {
    forall p :: PageOf(addr) <= p < addr + len && p % PAGE == 0 ==> p in cache
  }

  function FromPages(cache: Cache, addr: int, len: nat): seq<Byte> {
    seq(len, i requires 0 <= i < len =>
      var p := PageOf(addr + i);
      if p in cache && |cache[p]| == PAGE then cache[p][addr + i - p] else 0)
  }

  /** The pages of a paged request that the cache does not hold. */
  function Missing(cache: Cache, addr: int, len: nat): set<int> {
    set p | PageOf(addr) <= p < addr + len && p % PAGE == 0 && p !in cache
  }

  function Fetched(mem: Memory, wanted: set<int>): Cache {
    map p | p in wanted :: Slice(mem, p, PAGE)
  }

  ghost predicate Enabled(s: World, l: Label) {
    match l
    case Send(p) => true
    case Receive => s.down > 0
    case Start => s.job.Idle? && s.queue != []
    case Execute(_, _) => s.job.Asked?
    case CoreMoves(m) => s.core
    case CoreStops => s.core
    case Poll(reason) => s.poll && !s.core
    case Deliver => s.chan != [] && (s.chan[0].Reply? ==> s.job.Answered?)
  }

  function StartPacket(s: World, p: Packet): World {
    match p
    case CtrlC =>
      if s.ses.running then
        s.(ses := s.ses.(interruptPending := true), job := Asked(p, true, {}), log := s.log + [Interrupted])
      else s
    case Resume => s.(ses := Invalidated(s.ses), job := Asked(p, true, {}))
    case StepOne => s.(ses := Invalidated(s.ses), job := Asked(p, true, {}))
    case ReadMem(addr, len) =>
      if len == 0 || (Paged(addr, len) && AllCached(s.ses.cache, addr, len)) then
        s.(log := s.log + [Read(addr, FromPages(s.ses.cache, addr, len))])
      else
        s.(job := Asked(p, true, if Paged(addr, len) then Missing(s.ses.cache, addr, len) else {}))
    case _ => s.(job := Asked(p, true, {}))
  }

  /** The effect of an operation on the target; `m` is the memory afterwards where it can change. */
  function Operated(s: World, p: Packet, first: bool, m: Memory): World {
    match p
    case CtrlC => s.(core := false, poll := false)
    case HaltAgain => s.(core := false, poll := false)
    case Resume => s.(core := true, poll := true)
    case Kill => s.(core := true, poll := true, mem := m)
    case StepOne => s.(core := false, poll := false, mem := m)
    case WriteMem(at, data) => s.(mem := Poke(s.mem, at, data))
    case SetBreakpoint => s.(mem := m)
    case SilentRewrite => s.(mem := m)
    case FlashDone => s.(core := false, poll := false, mem := m)
    case ResetHalt => s.(core := false, poll := false, mem := m)
    case ResetRun => if first then s.(core := true, poll := true, mem := m) else s.(core := false, poll := false)
    case ReadMem(addr, len) => s
    case Harmless => s
  }

  function ReplyTo(s: World, p: Packet, wanted: set<int>, reason: Reason): Msg {
    match p
    case ReadMem(addr, len) => Reply(Fetched(s.mem, wanted), Slice(s.mem, addr, len), reason)
    case _ => Reply(map[], [], reason)
  }

  /** A stop reply is sent. */
  function StopSent(s: World, events: seq<Event>, reason: Reason, pending: bool): World {
    s.(log := s.log + events + [Stop(reason, SignalOf(reason, pending))], down := s.down + 1)
  }

  function DeliverHalted(s: World, reason: Reason): World {
    if s.ses.running then
      StopSent(s.(ses := Stopped(s.ses)), if !s.job.Idle? && s.job.packet == CtrlC then [Race] else [], reason,
               s.ses.interruptPending)
    else s
  }

  /** A paged read needs all its pages; if the cache was emptied while it waited, it dies without a
      reply. */
  function ReadReply(s: World, addr: int, len: nat, r: Msg): World
    requires r.Reply?
  {
    var cache := s.ses.cache + r.pages;
    if !Paged(addr, len) then s.(log := s.log + [Read(addr, r.exact)])
    else if AllCached(cache, addr, len) then s.(ses := s.ses.(cache := cache), log := s.log + [Read(addr,
      FromPages(cache, addr, len))])
    else s.(ses := s.ses.(cache := cache))
  }

  function DeliverReply(s: World, p: Packet, first: bool, r: Msg): World
    requires r.Reply?
  {
    var done := s.(job := Idle);
    match p
    case CtrlC => StopSent(done.(ses := Stopped(s.ses)), [], Halt, s.ses.interruptPending)
    case Resume => done.(ses := s.ses.(running := true), log := s.log + [Resumed])
    case StepOne =>
      StopSent(done.(ses := s.ses.(interruptPending := false)), [Stepped], r.reason, s.ses.interruptPending)
    case ReadMem(addr, len) => ReadReply(done, addr, len, r)
    case WriteMem(_, _) => done.(ses := Invalidated(s.ses))
    case SetBreakpoint => done.(ses := Invalidated(s.ses))
    case FlashDone => done.(ses := Invalidated(s.ses).(running := false))
    case ResetHalt => done.(ses := Invalidated(s.ses).(running := false))
    case HaltAgain => done.(ses := Invalidated(s.ses).(running := false))
    case ResetRun =>
      if first then s.(job := Asked(p, false, {}), ses := Invalidated(s.ses))
      else done.(ses := s.ses.(running := false))
    case Harmless => done
    case SilentRewrite => done
    case Kill => done
  }

  function Next(s: World, l: Label): World
    requires Enabled(s, l)
  {
    match l
    case Send(p) => s.(queue := s.queue + [p], waiting := s.waiting || StartsTarget(p))
    case Receive => s.(down := s.down - 1, waiting := false)
    case Start => StartPacket(s.(queue := s.queue[1..]), s.queue[0])
    case Execute(m, reason) =>
      var Asked(p, first, wanted) := s.job;
      Operated(s, p, first, m).(job := Answered(p, first, wanted), chan := s.chan + [ReplyTo(s, p, wanted, reason)])
    case CoreMoves(m) => s.(mem := m)
    case CoreStops => s.(core := false)
    case Poll(reason) => s.(poll := false, chan := s.chan + [Halted(reason)])
    case Deliver =>
      var rest := s.(chan := s.chan[1..]);
      if s.chan[0].Halted? then DeliverHalted(rest, s.chan[0].reason)
      else DeliverReply(rest, s.job.packet, s.job.first, s.chan[0])
  }

  ghost predicate Init(s: World) {
    && s.ses == Session(false, false, map[]) && s.job == Idle && s.queue == [] && s.chan == []
    && !s.core && !s.poll && s.log == [] && !s.waiting && s.down == 0
  }

  // ---------------------------------------------------------------- runs

  /** The steps lead from s to t, and each is one that `ok` admits where it is taken. */
  ghost predicate Along(s: World, labels: seq<Label>, t: World, ok: (World, Label) -> bool)
    decreases |labels|
  {
    if labels == [] then s == t
    else Enabled(s, labels[0]) && ok(s, labels[0]) && Along(Next(s, labels[0]), labels[1..], t, ok)
  }

  ghost predicate Any(s: World, l: Label) {
    true
  }

  lemma {:induction false} AlongJoins(s: World, a: seq<Label>, t: World, b: seq<Label>, u: World, ok: (World,
    Label) -> bool)
    requires Along(s, a, t, ok) && Along(t, b, u, ok)
    ensures Along(s, a + b, u, ok)
    decreases |a|
  {
    if a == [] {
      assert a + b == b;
    } else {
      var next := Next(s, a[0]);
      AlongJoins(next, a[1..], t, b, u, ok);
      assert (a + b)[0] == a[0] && (a + b)[1..] == a[1..] + b;
    }
  }

  lemma AlongOne(s: World, l: Label, ok: (World, Label) -> bool)
    requires Enabled(s, l) && ok(s, l)
    ensures Along(s, [l], Next(s, l), ok)
  {
    assert [l][1..] == [];
  }

  /** The last step of a run. */
  lemma {:induction false} AlongSplits(s: World, labels: seq<Label>, t: World, ok: (World, Label) -> bool)
    returns (before: World)
    requires Along(s, labels, t, ok) && labels != []
    ensures var last := labels[|labels| - 1];
      Along(s, labels[..|labels| - 1], before, ok) && Enabled(before, last) && ok(before, last) &&
        t == Next(before, last)
    decreases |labels|
  {
    if |labels| == 1 {
      before := s;
    } else {
      before := AlongSplits(Next(s, labels[0]), labels[1..], t, ok);
      assert labels[1..][..|labels| - 2] == labels[..|labels| - 1][1..];
    }
  }

  // ---------------------------------------------------------------- messages on their way

  /** Behind the first n messages there is at most a halt, and then the target stands still. */
  predicate HaltedTail(s: World, n: nat) {
    |s.chan| == n || (|s.chan| == n + 1 && s.chan[n].Halted? && !s.core && !s.poll)
  }

  predicate Restarts(p: Packet, first: bool) {
    p.Resume? || p.Kill? || (p.ResetRun? && first)
  }

  predicate Halts(p: Packet, first: bool) {
    p.CtrlC? || p.StepOne? || p.FlashDone? || p.ResetHalt? || p.HaltAgain? || (p.ResetRun? && !first)
  }

  /** Where the answer is: a halt of an earlier run may be in front of it. */
  function AnswerAt(s: World): nat {
    if s.chan != [] && s.chan[0].Reply? then 0 else 1
  }

  /** At most one answer is on its way, and only while a handler waits for it; a halt that is on its way
      means that the target stands still, unless the operation in progress has started it again. */
  predicate Shape(s: World) {
    match s.job
    case Idle => HaltedTail(s, 0)
    case Asked(_, _, _) => HaltedTail(s, 0)
    case Answered(p, first, _) =>
      var n := AnswerAt(s);
      && n < |s.chan| && s.chan[n].Reply? && (n == 1 ==> s.chan[0].Halted?) && HaltedTail(s, n + 1)
      && (Halts(p, first) ==> !s.core && !s.poll && |s.chan| == n + 1)
      && (n == 1 && !Restarts(p, first) ==> !s.core && !s.poll && |s.chan| == 2)
  }

  predicate WellKept(cache: Cache) {
    forall p <- cache :: p % PAGE == 0 && |cache[p]| == PAGE
  }

  /** Pages are whole pages, in the cache, on the way to it and on order. */
  predicate Kept(s: World) {
    && WellKept(s.ses.cache)
    && (!s.job.Idle? ==> (forall p <- s.job.wanted :: p % PAGE == 0) && (!s.job.first ==> s.job.packet.ResetRun?))
    && (forall m <- s.chan :: m.Reply? ==> WellKept(m.pages))
  }

  lemma StartKeepsShape(s: World)
    requires Shape(s) && Enabled(s, Start)
    ensures Shape(Next(s, Start))
  {}

  lemma StartKeepsKept(s: World)
    requires Kept(s) && Enabled(s, Start)
    ensures Kept(Next(s, Start))
  {}

  lemma ExecuteKeepsShape(s: World, m: Memory, reason: Reason)
    requires Shape(s) && Enabled(s, Execute(m, reason))
    ensures Shape(Next(s, Execute(m, reason)))
  {}

  lemma ExecuteKeepsKept(s: World, m: Memory, reason: Reason)
    requires Kept(s) && Enabled(s, Execute(m, reason))
    ensures Kept(Next(s, Execute(m, reason)))
  {
    var t := Next(s, Execute(m, reason));
    assert WellKept(t.chan[|s.chan|].pages);
  }

  lemma HaltedKeepsShape(s: World)
    requires Shape(s) && Kept(s) && Enabled(s, Deliver) && s.chan[0].Halted?
    ensures Shape(Next(s, Deliver)) && Kept(Next(s, Deliver))
  {}

  lemma ReplyKeepsShape(s: World)
    requires Shape(s) && Enabled(s, Deliver) && s.chan[0].Reply?
    ensures Shape(Next(s, Deliver))
  {}

  lemma PagesJoin(a: Cache, b: Cache)
    requires WellKept(a) && WellKept(b)
    ensures WellKept(a + b)
  {}

  lemma AnswerIsKept(s: World, p: Packet, first: bool, r: Msg)
    requires WellKept(s.ses.cache) && r.Reply? && WellKept(r.pages)
    ensures WellKept(DeliverReply(s, p, first, r).ses.cache)
  {
    PagesJoin(s.ses.cache, r.pages);
  }

  lemma AnswerKeepsJob(s: World, p: Packet, first: bool, r: Msg)
    requires r.Reply?
    ensures var t := DeliverReply(s, p, first, r);
      t.chan == s.chan && (t.job.Idle? || t.job == Asked(ResetRun, false, {}))
  {}

  lemma AnswerStops(s: World, p: Packet, first: bool, r: Msg)
    requires r.Reply?
    ensures var t := DeliverReply(s, p, first, r);
      && t.queue == s.queue && t.waiting == s.waiting
      && t.down == s.down + (if p.CtrlC? || p.StepOne? then 1 else 0)
      && (!s.ses.running && !p.Resume? ==> !t.ses.running)
  {}

  lemma ReplyKeepsKept(s: World)
    requires Kept(s) && Enabled(s, Deliver) && s.chan[0].Reply?
    ensures Kept(Next(s, Deliver))
  {
    var rest := s.(chan := s.chan[1..]);
    assert s.chan[0] in s.chan && forall m <- rest.chan :: m in s.chan;
    AnswerIsKept(rest, s.job.packet, s.job.first, s.chan[0]);
    AnswerKeepsJob(rest, s.job.packet, s.job.first, s.chan[0]);
  }

  lemma StepKeepsShape(s: World, l: Label)
    requires Shape(s) && Kept(s) && Enabled(s, l)
    ensures Shape(Next(s, l)) && Kept(Next(s, l))
  {
    match l {
      case Start =>
        StartKeepsShape(s);
        StartKeepsKept(s);
      case Execute(m, reason) =>
        ExecuteKeepsShape(s, m, reason);
        ExecuteKeepsKept(s, m, reason);
      case Deliver =>
        if s.chan[0].Halted? {
          HaltedKeepsShape(s);
        } else {
          ReplyKeepsShape(s);
          ReplyKeepsKept(s);
        }
      case _ =>
    }
  }

  /** In every run of every client: the messages and pages are in order. */
  lemma {:induction false} AlongKeepsShape(s: World, labels: seq<Label>, t: World, ok: (World, Label) -> bool)
    requires Shape(s) && Kept(s) && Along(s, labels, t, ok)
    ensures Shape(t) && Kept(t)
    decreases |labels|
  {
    if labels != [] {
      StepKeepsShape(s, labels[0]);
      AlongKeepsShape(Next(s, labels[0]), labels[1..], t, ok);
    }
  }

  // ---------------------------------------------------------------- signals

  /** A Ctrl-C has found the session running since the last stop reply. */
  predicate Pending(log: seq<Event>) {
    if log == [] then false
    else
      match log[|log| - 1]
      case Interrupted => true
      case Stop(_, _) => false
      case _ => Pending(log[..|log| - 1])
  }

  /** What a stop reply must say: SIGTRAP for breakpoints and watchpoints, SIGSEGV for faults, and for every
      other reason SIGINT exactly if such a Ctrl-C is pending. */
  predicate RightSignal(reason: Reason, signal: Signal, pending: bool) {
    && (reason == Breakpoint || reason == Watchpoint ==> signal == SigTrap)
    && (reason == Fault ==> signal == SigSegv)
    && (reason == Halt || reason == Step || reason == Reset ==> signal == if pending then SigInt else SigTrap)
  }

  ghost predicate SignalsExplained(log: seq<Event>) {
    forall i :: 0 <= i < |log| && log[i].Stop? ==> RightSignal(log[i].reason, log[i].signal, Pending(log[..i]))
  }

  lemma PendingSnoc(log: seq<Event>, e: Event)
    ensures Pending(log + [e]) == match e case Interrupted => true case Stop(_, _) => false case _ => Pending(log)
    ensures SignalsExplained(log + [e]) <==>
      SignalsExplained(log) && (e.Stop? ==> RightSignal(e.reason, e.signal, Pending(log)))
  {
    assert (log + [e])[..|log|] == log;
    assert forall i :: 0 <= i < |log| ==> (log + [e])[..i] == log[..i];
    assert (log + [e])[|log|] == e;
  }

  ghost predicate Explained(pending: bool, log: seq<Event>) {
    pending == Pending(log) && SignalsExplained(log)
  }

  ghost predicate SignalGood(s: World) {
    Explained(s.ses.interruptPending, s.log)
  }

  lemma SignalOfIsRight(reason: Reason, pending: bool)
    ensures RightSignal(reason, SignalOf(reason, pending), pending)
  {}

  lemma StopKeepsSignal(s: World, ses: Session, events: seq<Event>, reason: Reason)
    requires SignalGood(s) && !ses.interruptPending
    requires events == [] || events == [Race] || events == [Stepped]
    ensures SignalGood(StopSent(s.(ses := ses), events, reason, s.ses.interruptPending))
  {
    var stop := Stop(reason, SignalOf(reason, s.ses.interruptPending));
    SignalOfIsRight(reason, s.ses.interruptPending);
    if events == [] {
      assert s.log + events == s.log;
    } else {
      PendingSnoc(s.log, events[0]);
      assert events == [events[0]];
    }
    PendingSnoc(s.log + events, stop);
  }

  /** Between two stop replies, the log only grows by a resume or a read, or by a Ctrl-C that counts. */
  lemma LogKeepsSignal(s: World, t: World, e: Event)
    requires SignalGood(s) && (e.Resumed? || e.Read? || e.Interrupted?)
    requires (t.log == s.log && t.ses.interruptPending == s.ses.interruptPending) ||
      (t.log == s.log + [e] && t.ses.interruptPending == (s.ses.interruptPending || e.Interrupted?))
    ensures SignalGood(t)
  {
    PendingSnoc(s.log, e);
  }

  lemma StartKeepsSignal(s: World)
    requires SignalGood(s) && Enabled(s, Start)
    ensures SignalGood(Next(s, Start))
  {
    var t := Next(s, Start);
    match s.queue[0] {
      case CtrlC => LogKeepsSignal(s, t, Interrupted);
      case ReadMem(addr, len) => LogKeepsSignal(s, t, Read(addr, FromPages(s.ses.cache, addr, len)));
      case _ =>
    }
  }

  lemma ReadKeepsSignal(s: World, addr: int, len: nat, r: Msg)
    requires SignalGood(s) && r.Reply?
    ensures SignalGood(ReadReply(s, addr, len, r))
  {
    var t := ReadReply(s, addr, len, r);
    LogKeepsSignal(s, t, Read(addr, if Paged(addr, len) then FromPages(t.ses.cache, addr, len) else r.exact));
  }

  lemma StepKeepsPending(s: World, r: Msg)
    requires SignalGood(s) && r.Reply?
    ensures SignalGood(DeliverReply(s, StepOne, true, r))
  {
    StopKeepsSignal(s.(job := Idle), s.ses.(interruptPending := false), [Stepped], r.reason);
  }

  lemma QuietReply(s: World, p: Packet, first: bool, r: Msg)
    requires r.Reply? && !p.CtrlC? && !p.ReadMem? && !StartsTarget(p)
    ensures var t := DeliverReply(s, p, first, r);
      t.log == s.log && t.down == s.down && t.ses.interruptPending == s.ses.interruptPending
  {}

  lemma ReplyKeepsSignal(s: World, p: Packet, first: bool, r: Msg)
    requires SignalGood(s) && r.Reply?
    ensures SignalGood(DeliverReply(s, p, first, r))
  {
    var done := s.(job := Idle);
    assert SignalGood(done);
    match p {
      case CtrlC => StopKeepsSignal(done, Stopped(s.ses), [], Halt);
      case StepOne => StepKeepsPending(s, r);
      case Resume => LogKeepsSignal(s, DeliverReply(s, p, first, r), Resumed);
      case ReadMem(addr, len) => ReadKeepsSignal(done, addr, len, r);
      case _ => QuietReply(s, p, first, r);
    }
  }

  lemma HaltedKeepsSignal(s: World, reason: Reason)
    requires SignalGood(s)
    ensures SignalGood(DeliverHalted(s, reason))
  {
    StopKeepsSignal(s, Stopped(s.ses), if !s.job.Idle? && s.job.packet == CtrlC then [Race] else [], reason);
  }

  lemma DeliverKeepsSignal(s: World)
    requires SignalGood(s) && Enabled(s, Deliver)
    ensures SignalGood(Next(s, Deliver))
  {
    var rest := s.(chan := s.chan[1..]);
    assert SignalGood(rest);
    if s.chan[0].Reply? {
      ReplyKeepsSignal(rest, s.job.packet, s.job.first, s.chan[0]);
    } else {
      HaltedKeepsSignal(rest, s.chan[0].reason);
    }
  }

  lemma OtherStepsAreSilent(s: World, l: Label)
    requires Enabled(s, l) && !l.Start? && !l.Deliver?
    ensures Next(s, l).log == s.log && Next(s, l).ses == s.ses
  {}

  lemma StepKeepsSignal(s: World, l: Label)
    requires SignalGood(s) && Enabled(s, l)
    ensures SignalGood(Next(s, l))
  {
    if l.Start? {
      StartKeepsSignal(s);
    } else if l.Deliver? {
      DeliverKeepsSignal(s);
    } else {
      OtherStepsAreSilent(s, l);
    }
  }

  lemma {:induction false} AlongKeepsSignal(s: World, labels: seq<Label>, t: World, ok: (World, Label) -> bool)
    requires SignalGood(s) && Along(s, labels, t, ok)
    ensures SignalGood(t)
    decreases |labels|
  {
    if labels != [] {
      StepKeepsSignal(s, labels[0]);
      AlongKeepsSignal(Next(s, labels[0]), labels[1..], t, ok);
    }
  }

  /** In every run of every client, every stop reply says what it should. */
  lemma SignalsAreRight(s0: World, labels: seq<Label>, s: World, i: nat)
    requires Init(s0) && Along(s0, labels, s, Any) && i < |s.log| && s.log[i].Stop?
    ensures s.log[i].reason == Breakpoint || s.log[i].reason == Watchpoint ==> s.log[i].signal == SigTrap
    ensures s.log[i].reason == Fault ==> s.log[i].signal == SigSegv
    ensures s.log[i].reason == Halt || s.log[i].reason == Step || s.log[i].reason == Reset ==>
      s.log[i].signal == if Pending(s.log[..i]) then SigInt else SigTrap
  {
    AlongKeepsSignal(s0, labels, s, Any);
  }

  /** In every run of every client, a stop reply says SIGINT only if a Ctrl-C has found the session
      running since the stop reply before it. */
  lemma SigIntAnswersCtrlC(s0: World, labels: seq<Label>, s: World, i: nat)
    requires Init(s0) && Along(s0, labels, s, Any) && i < |s.log| && s.log[i].Stop? && s.log[i].signal == SigInt
    ensures exists j :: 0 <= j < i && s.log[j] == Interrupted && forall k :: j < k < i ==> !s.log[k].Stop?
  {
    AlongKeepsSignal(s0, labels, s, Any);
    var j := LastCtrlC(s.log[..i]);
    assert forall k :: 0 <= k < i ==> s.log[..i][k] == s.log[k];
  }

  /** And the reason it gives is the one of the message: that of a halted event, of the answer to a step,
      or that the target was halted. */
  lemma ReasonsAreRight(s: World)
    requires Enabled(s, Deliver)
    ensures var t, m := Next(s, Deliver), s.chan[0];
      && (m.Halted? && s.ses.running ==>
        t.log != [] && t.log[|t.log| - 1].Stop? && t.log[|t.log| - 1].reason == m.reason)
      && (m.Halted? && !s.ses.running ==> t.log == s.log)
      && (m.Reply? && s.job.packet.CtrlC? ==>
        t.log != [] && t.log[|t.log| - 1].Stop? && t.log[|t.log| - 1].reason == Halt)
      && (m.Reply? && s.job.packet.StepOne? ==>
        t.log != [] && t.log[|t.log| - 1].Stop? && t.log[|t.log| - 1].reason == m.reason)
  {}

  lemma {:induction false} LastCtrlC(log: seq<Event>) returns (j: nat)
    requires Pending(log)
    ensures j < |log| && log[j] == Interrupted && forall k :: j < k < |log| ==> !log[k].Stop?
  {
    if log[|log| - 1] == Interrupted {
      j := |log| - 1;
    } else {
      j := LastCtrlC(log[..|log| - 1]);
    }
  }
}
