/** An all-stop client: between a resume or step and its stop reply it sends nothing but Ctrl-C. It knows
    only what it has sent and received. When is it right about the target? */
module GdbAllStop {
  import opened Wrappers
  import opened PageCache
  import opened GdbProtocol
  import opened GdbCoherence
  import opened GdbStaleness

  ghost predicate Permitted(s: World, l: Label) {
    l.Send? ==> l.p.CtrlC? || !s.waiting
  }

  // ---------------------------------------------------------------- what the log says

  datatype Phase = Fresh | AfterResume | AfterStep

  /** What has happened since the last resume or step: how many stop replies were sent, and whether a
      halted event has crossed an interrupt. */
  datatype Score = Score(phase: Phase, stops: nat, raced: bool)

  function ScoreAfter(c: Score, e: Event): Score {
    match e
    case Resumed => Score(AfterResume, 0, false)
    case Stepped => Score(AfterStep, 0, false)
    case Stop(_, _) => c.(stops := c.stops + 1)
    case Race => c.(raced := true)
    case Interrupted => c
    case Read(_, _) => c
  }

  function ScoreOf(log: seq<Event>): Score {
    if log == [] then Score(Fresh, 0, false) else ScoreAfter(ScoreOf(log[..|log| - 1]), log[|log| - 1])
  }

  lemma ScoreSnoc(log: seq<Event>, e: Event)
    ensures ScoreOf(log + [e]) == ScoreAfter(ScoreOf(log), e)
  {
    assert (log + [e])[..|log|] == log;
  }

  lemma ScoreTwo(log: seq<Event>, e: Event, f: Event)
    ensures ScoreOf(log + [e] + [f]) == ScoreAfter(ScoreAfter(ScoreOf(log), e), f)
  {
    ScoreSnoc(log, e);
    ScoreSnoc(log + [e], f);
  }

  // ---------------------------------------------------------------- what is still to come

  predicate AllCtrlC(q: seq<Packet>) {
    forall i :: 0 <= i < |q| ==> q[i] == CtrlC
  }

  /** Nothing but Ctrl-C follows a resume or a step. */
  predicate Orderly(q: seq<Packet>) {
    forall i, j :: 0 <= i < j < |q| && StartsTarget(q[i]) ==> q[j] == CtrlC
  }

  predicate NoneStarts(q: seq<Packet>) {
    forall i :: 0 <= i < |q| ==> !StartsTarget(q[i])
  }

  predicate Interrupting(s: World) {
    !s.job.Idle? && s.job.packet == CtrlC
  }

  predicate Starting(s: World) {
    !s.job.Idle? && StartsTarget(s.job.packet)
  }

  /** A resume or step is queued, in progress or running. */
  predicate Unanswered(s: World) {
    s.ses.running || Starting(s) || !NoneStarts(s.queue)
  }

  /** Stop replies that are still to come although nothing is unanswered: those on their way, and that of
      an interrupt that a halt has overtaken. */
  function Surplus(s: World): nat {
    s.down + if Interrupting(s) && !s.ses.running then 1 else 0
  }

  /** A resume or step sent while another stop reply is still to come: the client will take that reply for
      an answer to it. */
  ghost predicate Overtakes(s: World, l: Label) {
    l.Send? && StartsTarget(l.p) && Surplus(s) > 0
  }

  ghost predicate InStep(s: World, l: Label) {
    Permitted(s, l) && !Overtakes(s, l)
  }

  // ---------------------------------------------------------------- invariant

  /** What the client believes is right: it waits while something is unanswered, and what still comes is
      at most one reply more than it needs. */
  predicate Believed(s: World) {
    && (Unanswered(s) ==> s.waiting && Surplus(s) == 0)
    && (!Unanswered(s) ==> if s.waiting then s.down > 0 && Surplus(s) <= 2 else Surplus(s) <= 1)
  }

  /** One start at a time, and only Ctrl-C behind it. */
  predicate Ordered(s: World) {
    && Orderly(s.queue)
    && (s.ses.running || Starting(s) ==> AllCtrlC(s.queue))
    && (s.ses.running ==> s.job.Idle? || Interrupting(s))
  }

  /** How many stop replies have been sent, and what the flag says about it. */
  predicate Tally(c: Score, running: bool, interrupting: bool) {
    match c.phase
    case Fresh => !running && !interrupting && c.stops == 0
    case AfterStep => !running && !interrupting && c.stops == 1
    case AfterResume =>
      if running then c.stops == 0 && !c.raced
      else if interrupting then c.stops == 1 && c.raced
      else c.stops == if c.raced then 2 else 1
  }

  predicate Counted(s: World) {
    Tally(ScoreOf(s.log), s.ses.running, Interrupting(s))
  }

  /** A read that waits for pages will find all of them. */
  predicate Covered(s: World) {
    !s.job.Idle? && s.job.packet.ReadMem? && Paged(s.job.packet.addr, s.job.packet.len) ==>
      && (forall p :: PageOf(s.job.packet.addr) <= p < s.job.packet.addr + s.job.packet.len && p % PAGE == 0 ==>
        p in s.ses.cache || p in s.job.wanted)
      && (s.job.Answered? && AnswerAt(s) < |s.chan| && s.chan[AnswerAt(s)].Reply? ==>
        s.chan[AnswerAt(s)].pages.Keys == s.job.wanted)
  }

  lemma SendKeepsBelief(s: World, p: Packet)
    requires Believed(s) && Ordered(s) && InStep(s, Send(p))
    ensures var t := Next(s, Send(p)); Believed(t) && Ordered(t)
  {
    var t := Next(s, Send(p));
    assert NoneStarts(t.queue) <==> NoneStarts(s.queue) && !StartsTarget(p) by {
      assert t.queue[|s.queue|] == p && forall i :: 0 <= i < |s.queue| ==> t.queue[i] == s.queue[i];
    }
  }

  lemma StartKeepsBelief(s: World)
    requires Believed(s) && Ordered(s) && Enabled(s, Start)
    ensures var t := Next(s, Start); Believed(t) && Ordered(t)
  {
    var t := Next(s, Start);
    assert NoneStarts(s.queue) <==> NoneStarts(s.queue[1..]) && !StartsTarget(s.queue[0]) by {
      assert forall i :: 0 < i < |s.queue| ==> s.queue[i] == s.queue[1..][i - 1];
    }
  }

  lemma HaltedKeepsBelief(s: World)
    requires Believed(s) && Ordered(s) && Enabled(s, Deliver) && s.chan[0].Halted?
    ensures var t := Next(s, Deliver); Believed(t) && Ordered(t)
  {
    assert AllCtrlC(s.queue) ==> NoneStarts(s.queue);
  }

  lemma StopKeepsBelief(s: World)
    requires Believed(s) && Ordered(s) && Enabled(s, Deliver) && s.chan[0].Reply?
    requires s.job.packet.CtrlC? || StartsTarget(s.job.packet)
    ensures var t := Next(s, Deliver); Believed(t) && Ordered(t)
  {
    assert AllCtrlC(s.queue) ==> NoneStarts(s.queue);
  }

  lemma OtherReplyKeepsBelief(s: World)
    requires Kept(s) && Believed(s) && Ordered(s) && Enabled(s, Deliver) && s.chan[0].Reply?
    requires !s.job.packet.CtrlC? && !StartsTarget(s.job.packet)
    ensures var t := Next(s, Deliver); Believed(t) && Ordered(t)
  {
    var t := Next(s, Deliver);
    var rest := s.(chan := s.chan[1..]);
    AnswerStops(rest, s.job.packet, s.job.first, s.chan[0]);
    AnswerKeepsJob(rest, s.job.packet, s.job.first, s.chan[0]);
    assert !t.ses.running && t.queue == s.queue && t.down == s.down && t.waiting == s.waiting;
    assert !Starting(t) && !Interrupting(t);
  }

  lemma TargetKeepsBelief(s: World, l: Label)
    requires Believed(s) && Ordered(s) && Enabled(s, l) && (l.Execute? || l.CoreMoves? || l.CoreStops? || l.Poll?)
    ensures Believed(Next(s, l)) && Ordered(Next(s, l))
  {
    var t := Next(s, l);
    assert t.ses == s.ses && t.queue == s.queue && t.down == s.down && t.waiting == s.waiting;
    assert Starting(t) == Starting(s) && Interrupting(t) == Interrupting(s);
  }

  lemma StepKeepsBelief(s: World, l: Label)
    requires Shape(s) && Kept(s) && Believed(s) && Ordered(s) && Enabled(s, l) && InStep(s, l)
    ensures Believed(Next(s, l)) && Ordered(Next(s, l))
  {
    match l {
      case Send(p) => SendKeepsBelief(s, p);
      case Start => StartKeepsBelief(s);
      case Deliver =>
        if s.chan[0].Halted? {
          HaltedKeepsBelief(s);
        } else if s.job.packet.CtrlC? || StartsTarget(s.job.packet) {
          StopKeepsBelief(s);
        } else {
          OtherReplyKeepsBelief(s);
        }
      case Receive =>
      case _ => TargetKeepsBelief(s, l);
    }
  }

  // ---------------------------------------------------------------- stop replies, counted

  lemma InterruptCounts(s: World)
    requires s.job.Idle? && Counted(s) && Enabled(s, Start) && s.queue[0].CtrlC?
    ensures Counted(Next(s, Start))
  {
    ScoreSnoc(s.log, Interrupted);
  }

  lemma OtherStartCounts(s: World)
    requires s.job.Idle? && Enabled(s, Start) && !s.queue[0].CtrlC?
    ensures var t := Next(s, Start);
      t.ses.running == s.ses.running && !Interrupting(t) && ScoreOf(t.log) == ScoreOf(s.log)
  {
    var p, t := s.queue[0], Next(s, Start);
    if p.ReadMem? {
      ScoreSnoc(s.log, Read(p.addr, FromPages(s.ses.cache, p.addr, p.len)));
    } else {
      assert t.log == s.log;
    }
  }

  lemma StartKeepsCount(s: World)
    requires s.job.Idle? && Counted(s) && Enabled(s, Start)
    ensures Counted(Next(s, Start))
  {
    if s.queue[0].CtrlC? {
      InterruptCounts(s);
    } else {
      OtherStartCounts(s);
    }
  }

  lemma StopScore(s: World, ses: Session, events: seq<Event>, reason: Reason, pending: bool)
    requires events == [] || |events| == 1
    ensures var stop := Stop(reason, SignalOf(reason, pending));
      ScoreOf(StopSent(s.(ses := ses), events, reason, pending).log) ==
        ScoreAfter(if events == [] then ScoreOf(s.log) else ScoreAfter(ScoreOf(s.log), events[0]), stop)
  {
    var stop := Stop(reason, SignalOf(reason, pending));
    if events == [] {
      assert s.log + events == s.log;
      ScoreSnoc(s.log, stop);
    } else {
      assert events == [events[0]];
      ScoreTwo(s.log, events[0], stop);
    }
  }

  lemma HaltedKeepsCount(s: World)
    requires Counted(s) && Enabled(s, Deliver) && s.chan[0].Halted?
    ensures Counted(Next(s, Deliver))
  {
    StopScore(s.(chan := s.chan[1..]), Stopped(s.ses), if Interrupting(s) then [Race] else [], s.chan[0].reason,
              s.ses.interruptPending);
  }

  lemma InterruptKeepsCount(s: World)
    requires Counted(s) && Enabled(s, Deliver) && s.chan[0].Reply? && s.job.packet.CtrlC?
    ensures Counted(Next(s, Deliver))
  {
    StopScore(s.(chan := s.chan[1..], job := Idle), Stopped(s.ses), [], Halt, s.ses.interruptPending);
  }

  lemma StepOneKeepsCount(s: World)
    requires Ordered(s) && Enabled(s, Deliver) && s.chan[0].Reply? && s.job.packet.StepOne?
    ensures Counted(Next(s, Deliver))
  {
    ScoreTwo(s.log, Stepped, Stop(s.chan[0].reason, SignalOf(s.chan[0].reason, s.ses.interruptPending)));
  }

  lemma ResumeKeepsCount(s: World)
    requires Enabled(s, Deliver) && s.chan[0].Reply? && s.job.packet.Resume?
    ensures Counted(Next(s, Deliver))
  {
    ScoreSnoc(s.log, Resumed);
  }

  lemma ReadKeepsScore(s: World, addr: int, len: nat, r: Msg)
    requires r.Reply?
    ensures ScoreOf(ReadReply(s, addr, len, r).log) == ScoreOf(s.log)
  {
    var t := ReadReply(s, addr, len, r);
    ScoreSnoc(s.log, Read(addr, if Paged(addr, len) then FromPages(t.ses.cache, addr, len) else r.exact));
  }

  lemma ReadKeepsCount(s: World)
    requires Counted(s) && Enabled(s, Deliver) && s.chan[0].Reply? && s.job.packet.ReadMem?
    ensures Counted(Next(s, Deliver))
  {
    var done := s.(chan := s.chan[1..], job := Idle);
    ReadKeepsScore(done, s.job.packet.addr, s.job.packet.len, s.chan[0]);
  }

  lemma OtherReplyKeepsCount(s: World)
    requires Kept(s) && Ordered(s) && Counted(s) && Enabled(s, Deliver) && s.chan[0].Reply?
    requires !s.job.packet.CtrlC? && !StartsTarget(s.job.packet) && !s.job.packet.ReadMem?
    ensures Counted(Next(s, Deliver))
  {
    var t := Next(s, Deliver);
    QuietReply(s.(chan := s.chan[1..]), s.job.packet, s.job.first, s.chan[0]);
    assert !s.ses.running && !t.ses.running && !Interrupting(t);
  }

  lemma StepKeepsCount(s: World, l: Label)
    requires Kept(s) && Ordered(s) && Counted(s) && Enabled(s, l)
    ensures Counted(Next(s, l))
  {
    match l {
      case Start => StartKeepsCount(s);
      case Deliver =>
        if s.chan[0].Halted? {
          HaltedKeepsCount(s);
        } else if s.job.packet.CtrlC? {
          InterruptKeepsCount(s);
        } else if s.job.packet.StepOne? {
          StepOneKeepsCount(s);
        } else if s.job.packet.Resume? {
          ResumeKeepsCount(s);
        } else if s.job.packet.ReadMem? {
          ReadKeepsCount(s);
        } else {
          OtherReplyKeepsCount(s);
        }
      case _ =>
        var t := Next(s, l);
        assert t.log == s.log && t.ses == s.ses && Interrupting(t) == Interrupting(s);
    }
  }

  // ---------------------------------------------------------------- reads, answered

  lemma StartKeepsCovered(s: World)
    requires Enabled(s, Start)
    ensures Covered(Next(s, Start))
  {}

  lemma ExecuteKeepsCovered(s: World, l: Label)
    requires Shape(s) && Covered(s) && Enabled(s, l) && l.Execute?
    ensures Covered(Next(s, l))
  {
    var t := Next(s, l);
    if s.job.packet.ReadMem? {
      assert t.chan[AnswerAt(t)] == ReplyTo(s, s.job.packet, s.job.wanted, l.reason);
      assert Fetched(s.mem, s.job.wanted).Keys == s.job.wanted;
    }
  }

  lemma DeliverKeepsCovered(s: World)
    requires Shape(s) && Kept(s) && Ordered(s) && Covered(s) && Enabled(s, Deliver)
    ensures Covered(Next(s, Deliver))
  {
    if s.chan[0].Reply? {
      AnswerKeepsJob(s.(chan := s.chan[1..]), s.job.packet, s.job.first, s.chan[0]);
    } else if !s.job.Idle? && s.job.packet.ReadMem? {
      assert !s.ses.running && Next(s, Deliver) == s.(chan := s.chan[1..]);
    }
  }

  lemma StepKeepsCovered(s: World, l: Label)
    requires Shape(s) && Kept(s) && Ordered(s) && Covered(s) && Enabled(s, l)
    ensures Covered(Next(s, l))
  {
    match l {
      case Start => StartKeepsCovered(s);
      case Execute(_, _) => ExecuteKeepsCovered(s, l);
      case Deliver => DeliverKeepsCovered(s);
      case _ =>
    }
  }

  // ---------------------------------------------------------------- runs

  ghost predicate Synchronous(s: World) {
    Shape(s) && Kept(s) && Believed(s) && Ordered(s) && Counted(s) && Covered(s)
  }

  lemma {:induction false} AlongStaysSynchronous(s: World, labels: seq<Label>, t: World, ok: (World, Label) -> bool)
    requires Synchronous(s) && Along(s, labels, t, ok) && forall w: World, l: Label :: ok(w, l) ==> InStep(w, l)
    ensures Synchronous(t)
    decreases |labels|
  {
    if labels != [] {
      var l := labels[0];
      StepKeepsShape(s, l);
      StepKeepsBelief(s, l);
      StepKeepsCount(s, l);
      StepKeepsCovered(s, l);
      AlongStaysSynchronous(Next(s, l), labels[1..], t, ok);
    }
  }

  lemma InitIsSynchronous(s: World)
    requires Init(s)
    ensures Synchronous(s)
  {}

  /** In every run in which no start overtakes a stop reply: the flag says exactly whether a resume is
      unanswered; a resume gets at most two stop replies, and two exactly if a halted event has crossed
      an interrupt; a step gets one. A client that does not wait is right, nothing is unanswered; and to
      one that waits a stop reply is on its way or still to come. */
  lemma StopReplies(s0: World, labels: seq<Label>, s: World)
    requires Init(s0) && Along(s0, labels, s, InStep)
    ensures var c := ScoreOf(s.log);
      && (s.ses.running <==> c.phase == AfterResume && c.stops == 0)
      && (c.phase == AfterResume ==> c.stops <= 2)
      && (c.phase == AfterResume && !s.ses.running && !Interrupting(s) ==> (c.stops == 2 <==> c.raced))
      && (c.phase == AfterResume && !c.raced ==> c.stops <= 1)
      && (c.phase == AfterStep ==> c.stops == 1)
      && (c.phase == Fresh ==> c.stops == 0)
    ensures !s.waiting ==> !Unanswered(s)
    ensures s.waiting ==> Unanswered(s) || s.down > 0
  {
    InitIsSynchronous(s0);
    AlongStaysSynchronous(s0, labels, s, InStep);
  }

  ghost predicate InStepUnspoiled(s: World, l: Label) {
    InStep(s, l) && !Spoils(s, l)
  }

  /** The bytes that a step replies to reads are those in memory, and no read is left without a reply. */
  ghost predicate ReadsRight(s: World, l: Label)
    requires Enabled(s, l)
  {
    && (forall e <- Added(s, l) :: Direct(e, s.mem))
    && (l.Start? && s.queue[0].ReadMem? ==>
      Added(s, l) == if Next(s, l).job.Idle? then [Read(s.queue[0].addr, Slice(s.mem, s.queue[0].addr, s.queue[0].len))]
                     else [])
    && (l.Deliver? && s.chan[0].Reply? && s.job.packet.ReadMem? ==>
      Added(s, l) == [Read(s.job.packet.addr, Slice(s.mem, s.job.packet.addr, s.job.packet.len))])
  }

  lemma AnswerIsComplete(s: World)
    requires Synchronous(s) && Clean(s) && Enabled(s, Deliver) && s.chan[0].Reply? && s.job.packet.ReadMem?
    ensures ReadsRight(s, Deliver)
  {
    var p, cache := s.job.packet, s.ses.cache + s.chan[0].pages;
    assert !s.ses.running && AnswerAt(s) == 0;
    if Paged(p.addr, p.len) {
      JoinIsCoherent(s.ses.cache, s.chan[0].pages, s.mem);
      assert AllCached(cache, p.addr, p.len);
      PagesHoldSlice(cache, s.mem, p.addr, p.len);
    }
  }

  lemma ServedIsComplete(s: World)
    requires Clean(s) && !s.ses.running && Enabled(s, Start) && s.queue[0].ReadMem?
    ensures var p, t := s.queue[0], Next(s, Start);
      Added(s, Start) == if t.job.Idle? then [Read(p.addr, Slice(s.mem, p.addr, p.len))] else []
  {
    var p := s.queue[0];
    if p.len == 0 {
      assert FromPages(s.ses.cache, p.addr, 0) == Slice(s.mem, p.addr, 0);
    } else if AllCached(s.ses.cache, p.addr, p.len) {
      PagesHoldSlice(s.ses.cache, s.mem, p.addr, p.len);
    }
  }

  lemma NoReadWhileRunning(s: World, l: Label)
    requires Ordered(s) && Enabled(s, l) && s.ses.running
    ensures forall e <- Added(s, l) :: !e.Read?
  {
    if !l.Start? && !(l.Deliver? && s.chan[0].Reply? && s.job.packet.ReadMem?) {
      OthersDoNotRead(s, l);
    }
  }

  /** In every such run that is not spoiled either, every read is answered with the bytes that a direct
      read of the target would give at that moment. */
  lemma ReadsAreDirect(s0: World, before: seq<Label>, base: World, since: seq<Label>, s: World, l: Label)
    requires Init(s0) && Along(s0, before, base, InStep) && Blank(base) && Along(base, since, s, InStepUnspoiled)
    requires Enabled(s, l)
    ensures ReadsRight(s, l)
  {
    InitIsSynchronous(s0);
    AlongStaysSynchronous(s0, before, base, InStep);
    AlongStaysSynchronous(base, since, s, InStepUnspoiled);
    AlongWeakens(s0, before, base, InStep, Any);
    AlongWeakens(base, since, s, InStepUnspoiled, Unspoiled);
    CleanRunIsClean(s0, before, base, since, s);
    if l.Deliver? && s.chan[0].Reply? && s.job.packet.ReadMem? {
      AnswerIsComplete(s);
    } else if s.ses.running {
      NoReadWhileRunning(s, l);
    } else {
      StoppedReadIsDirect(s0, before, base, since, s, l);
      if l.Start? && s.queue[0].ReadMem? {
        ServedIsComplete(s);
      }
    }
  }
}
