/** What becomes of an all-stop client whose resume or step overtakes a stop reply: it can always come to
    believe that a running target is stopped, and then it can be given stale memory. */
module GdbOvertaking {
  import opened Wrappers
  import opened PageCache
  import opened GdbProtocol
  import opened GdbCoherence
  import opened GdbStaleness
  import opened GdbAllStop

  /** What the client does and sees of a run. */
  function Visible(labels: seq<Label>): seq<Label> {
    if labels == [] then []
    else
      var last := labels[|labels| - 1];
      Visible(labels[..|labels| - 1]) + if last.Send? || last.Receive? then [last] else []
  }

  lemma {:induction false} VisibleJoin(a: seq<Label>, b: seq<Label>)
    ensures Visible(a + b) == Visible(a) + Visible(b)
  {
    if b == [] {
      assert a + b == a;
    } else {
      assert (a + b)[..|a + b| - 1] == a + b[..|b| - 1];
      VisibleJoin(a, b[..|b| - 1]);
    }
  }

  lemma {:induction false} NothingVisible(labels: seq<Label>)
    requires forall i :: 0 <= i < |labels| ==> !labels[i].Send? && !labels[i].Receive?
    ensures Visible(labels) == []
  {
    if labels != [] {
      NothingVisible(labels[..|labels| - 1]);
    }
  }

  // ---------------------------------------------------------------- letting the server finish

  function Rank(job: Job): nat {
    match job
    case Idle => 0
    case Asked(_, first, _) => if first then 4 else 2
    case Answered(_, first, _) => if first then 3 else 1
  }

  function NextInJob(s: World): Label {
    if s.job.Asked? then Execute(s.mem, Halt) else Deliver
  }

  /** Stop replies that the end of the job in progress will bring. */
  function Owed(job: Job): nat {
    if !job.Idle? && (job.packet.CtrlC? || job.packet.StepOne?) then 1 else 0
  }

  /** The client does nothing, the server goes on: from s to t nothing is taken away from the client. */
  ghost predicate Goes(s: World, t: World) {
    && Shape(t) && Kept(t) && t.waiting == s.waiting
    && t.down + Owed(t.job) >= s.down + Owed(s.job)
  }

  lemma JobExecutes(s: World)
    requires Shape(s) && Kept(s) && s.job.Asked?
    ensures var t := Next(s, Execute(s.mem, Halt));
      Goes(s, t) && t.queue == s.queue && t.ses == s.ses && t.job == Answered(s.job.packet, s.job.first, s.job.wanted)
  {
    StepKeepsShape(s, Execute(s.mem, Halt));
  }

  lemma JobHearsHalt(s: World)
    requires Shape(s) && Kept(s) && s.job.Answered? && s.chan[0].Halted?
    ensures var t := Next(s, Deliver);
      Goes(s, t) && t.queue == s.queue && t.job == s.job && |t.chan| < |s.chan| && (!s.ses.running ==> t.ses == s.ses)
  {
    StepKeepsShape(s, Deliver);
  }

  lemma JobIsAnswered(s: World)
    requires Shape(s) && Kept(s) && s.job.Answered? && s.chan[0].Reply?
    ensures var t := Next(s, Deliver);
      && Goes(s, t) && t.queue == s.queue && Rank(t.job) < Rank(s.job)
      && (!t.job.Idle? ==> t.job.packet.ResetRun?)
      && (!s.ses.running && !s.job.packet.Resume? ==> !t.ses.running)
  {
    StepKeepsShape(s, Deliver);
    AnswerKeepsJob(s.(chan := s.chan[1..]), s.job.packet, s.job.first, s.chan[0]);
    AnswerStops(s.(chan := s.chan[1..]), s.job.packet, s.job.first, s.chan[0]);
    AnswerRanks(s);
  }

  lemma AnswerRanks(s: World)
    requires Kept(s) && s.job.Answered? && s.chan != [] && s.chan[0].Reply?
    ensures var t := DeliverReply(s, s.job.packet, s.job.first, s.chan[0]); Rank(t.job) < Rank(s.job)
  {}

  lemma {:induction false} JobEnds(s: World, ok: (World, Label) -> bool) returns (labels: seq<Label>, t: World)
    requires Shape(s) && Kept(s) && !s.job.Idle?
    requires forall w: World, l: Label :: !l.Send? ==> ok(w, l)
    ensures Along(s, labels, t, ok) && Visible(labels) == [] && Goes(s, t) && t.job.Idle? && t.queue == s.queue
    ensures !s.ses.running && !s.job.packet.Resume? ==> !t.ses.running
    decreases Rank(s.job), |s.chan|
  {
    var l := NextInJob(s);
    var u := Next(s, l);
    if s.job.Asked? {
      JobExecutes(s);
    } else if s.chan[0].Halted? {
      JobHearsHalt(s);
    } else {
      JobIsAnswered(s);
    }
    AlongOne(s, l, ok);
    labels, t := [l], u;
    if !u.job.Idle? {
      var more;
      more, t := JobEnds(u, ok);
      AlongJoins(s, [l], u, more, t, ok);
      VisibleJoin([l], more);
      labels := [l] + more;
    }
  }

  lemma NextPacketStarts(s: World)
    requires Shape(s) && Kept(s) && s.job.Idle? && s.queue != []
    ensures var t := Next(s, Start);
      && Shape(t) && Kept(t) && t.waiting == s.waiting && t.down == s.down && t.queue == s.queue[1..]
      && t.ses.running == s.ses.running && (!t.job.Idle? ==> t.job.packet == s.queue[0])
      && (StartsTarget(s.queue[0]) ==> t.job == Asked(s.queue[0], true, {}) && t.ses.cache == map[])
  {
    StepKeepsShape(s, Start);
  }

  /** Everything that was sent before the last packet is handled; a stopped session stays stopped. */
  lemma {:induction false} QueueDrains(s: World, ok: (World, Label) -> bool) returns (labels: seq<Label>, t: World)
    requires Shape(s) && Kept(s) && !s.ses.running && s.queue != [] && !Starting(s)
    requires NoneStarts(s.queue[..|s.queue| - 1])
    requires forall w: World, l: Label :: !l.Send? ==> ok(w, l)
    ensures Along(s, labels, t, ok) && Visible(labels) == [] && Shape(t) && Kept(t) && t.waiting == s.waiting
    ensures t.down >= s.down + Owed(s.job)
    ensures t.job.Idle? && !t.ses.running && t.queue == [s.queue[|s.queue| - 1]]
    decreases |s.queue|, Rank(s.job)
  {
    if !s.job.Idle? {
      var first, u := JobEnds(s, ok);
      var more;
      more, t := QueueDrains(u, ok);
      AlongJoins(s, first, u, more, t, ok);
      VisibleJoin(first, more);
      labels := first + more;
    } else if |s.queue| > 1 {
      var u := Next(s, Start);
      NextPacketStarts(s);
      assert s.queue[..|s.queue| - 1][0] == s.queue[0];
      assert s.queue[1..][..|s.queue| - 2] == s.queue[..|s.queue| - 1][1..];
      assert !Starting(u);
      AlongOne(s, Start, ok);
      var more;
      more, t := QueueDrains(u, ok);
      AlongJoins(s, [Start], u, more, t, ok);
      VisibleJoin([Start], more);
      labels := [Start] + more;
    } else {
      labels, t := [], s;
    }
  }

  // ---------------------------------------------------------------- misled

  /** The client does not wait although its resume or step is unanswered. */
  predicate Misled(s: World) {
    !s.waiting && Unanswered(s)
  }

  ghost predicate CanBeMisled(s: World) {
    exists labels: seq<Label>, t: World :: Along(s, labels, t, InStep) && Misled(t)
  }

  lemma StartIsQueued(s: World, p: Packet)
    requires StartsTarget(p)
    ensures var t := Next(s, Send(p)); t.queue[|s.queue|] == p && !NoneStarts(t.queue)
  {
    assert (s.queue + [p])[|s.queue|] == p;
  }

  lemma OvertakingMisleads(s: World, l: Label)
    requires Synchronous(s) && Permitted(s, l) && Overtakes(s, l)
    ensures CanBeMisled(Next(s, l))
  {
    var u := Next(s, l);
    var labels, t := [], u;
    StepKeepsShape(s, l);
    StartIsQueued(s, l.p);
    if u.down == 0 {
      labels, t := JobEnds(u, InStep);
    }
    assert t.down > 0 && !NoneStarts(t.queue);
    AlongSnoc(u, labels, t, Receive, InStep);
    assert Misled(Next(t, Receive));
  }

  /** The condition is exact: after a run in step, a client can be misled by steps in step if and only if
      its last one overtakes a stop reply. */
  lemma OvertakesExactly(s0: World, labels: seq<Label>, s: World, l: Label)
    requires Init(s0) && Along(s0, labels, s, InStep) && Enabled(s, l) && Permitted(s, l)
    ensures Overtakes(s, l) <==> CanBeMisled(Next(s, l))
  {
    InitIsSynchronous(s0);
    AlongStaysSynchronous(s0, labels, s, InStep);
    if Overtakes(s, l) {
      OvertakingMisleads(s, l);
    } else {
      AlongOne(s, l, InStep);
      AlongStaysSynchronous(s, [l], Next(s, l), InStep);
      forall more: seq<Label>, t: World | Along(Next(s, l), more, t, InStep)
        ensures !Misled(t)
      {
        AlongStaysSynchronous(Next(s, l), more, t, InStep);
      }
    }
  }

  // ---------------------------------------------------------------- stale reads

  /** A queued resume is carried out; a halt that is still on its way means nothing to a stopped session. */
  lemma ResumeRuns(s: World, ok: (World, Label) -> bool) returns (labels: seq<Label>, t: World)
    requires Shape(s) && Kept(s) && s.job.Idle? && !s.ses.running && s.queue == [Resume]
    requires forall w: World, l: Label :: !l.Send? ==> ok(w, l)
    ensures Along(s, labels, t, ok) && Visible(labels) == []
    ensures t.job.Idle? && t.queue == [] && t.chan == [] && t.ses.running && t.core && t.poll && t.ses.cache == map[]
    ensures t.down == s.down && t.waiting == s.waiting
  {
    var u := Next(s, Start);
    NextPacketStarts(s);
    var execute := Execute(s.mem, Halt);
    var v := Next(u, execute);
    AlongOne(s, Start, ok);
    AlongSnoc(s, [Start], u, execute, ok);
    labels := [Start] + [execute];
    if s.chan != [] {
      AlongSnoc(s, labels, v, Deliver, ok);
      labels, v := labels + [Deliver], Next(v, Deliver);
    }
    AlongSnoc(s, labels, v, Deliver, ok);
    labels, t := labels + [Deliver], Next(v, Deliver);
    NothingVisible(labels);
  }

  /** A client that takes a running target for a stopped one reads a page, the target writes to it, and
      the client reads it again. */
  lemma ReadsTwice(s: World) returns (labels: seq<Label>, t: World)
    requires s.job.Idle? && s.queue == [] && s.chan == [] && s.core && s.ses.cache == map[] && !s.waiting
    ensures Along(s, labels, t, Permitted) && Enabled(t, Start) && !ReadsRight(t, Start)
  {
    var p := ReadMem(RAM, PAGE);
    var u;
    labels, u := ReadAPage(s, Permitted);
    var m := Elsewise(u.ses.cache[RAM]);
    var v := u.(mem := m);
    assert Next(u, CoreMoves(m)) == v;
    AlongSnoc(s, labels, u, CoreMoves(m), Permitted);
    AlongSnoc(s, labels + [CoreMoves(m)], v, Send(p), Permitted);
    t := v.(queue := [p]);
    assert Next(v, Send(p)) == t;
    labels := labels + [CoreMoves(m)] + [Send(p)];
    StaleReply(t);
  }

  lemma StaleReply(s: World)
    requires s.job.Idle? && s.queue == [ReadMem(RAM, PAGE)] && RAM in s.ses.cache && |s.ses.cache[RAM]| == PAGE
    requires s.ses.cache.Keys == {RAM} && s.mem == Elsewise(s.ses.cache[RAM])
    ensures !ReadsRight(s, Start)
  {
    OnePageMissing();
    assert AllCached(s.ses.cache, RAM, PAGE);
    var e := Added(s, Start)[0];
    assert e == Read(RAM, FromPages(s.ses.cache, RAM, PAGE));
    assert e.bytes[0] == s.ses.cache[RAM][0] != Slice(s.mem, RAM, PAGE)[0];
    assert !Direct(e, s.mem);
  }

  /** After the packets before it, the overtaking resume is the only one left; an overtaking step is
      carried out and followed by a resume, which overtakes the reply to the step. */
  lemma ResumeIsLeft(s: World) returns (labels: seq<Label>, t: World)
    requires Shape(s) && Kept(s) && !s.ses.running && s.queue != [] && !Starting(s) && s.down + Owed(s.job) > 0
    requires NoneStarts(s.queue[..|s.queue| - 1]) && StartsTarget(s.queue[|s.queue| - 1])
    ensures Along(s, labels, t, Permitted) && Shape(t) && Kept(t)
    ensures t.job.Idle? && !t.ses.running && t.queue == [Resume] && t.down > 0
  {
    labels, t := QueueDrains(s, Permitted);
    if t.queue == [StepOne] {
      var u, more, v := Next(t, Start), [], t;
      NextPacketStarts(t);
      AlongSnoc(s, labels, t, Start, Permitted);
      more, v := JobEnds(u, Permitted);
      AlongJoins(s, labels + [Start], u, more, v, Permitted);
      labels := labels + [Start] + more;
      AlongSnoc(s, labels, v, Receive, Permitted);
      labels, v := labels + [Receive], Next(v, Receive);
      AlongSnoc(s, labels, v, Send(Resume), Permitted);
      labels, t := labels + [Send(Resume)], Next(v, Send(Resume));
    }
  }

  /** After every run in step, an overtaking step can be followed by a read that is answered with bytes
      that memory no longer holds. */
  lemma OvertakingGoesStale(s0: World, labels: seq<Label>, s: World, l: Label) returns (more: seq<Label>, t: World)
    requires Init(s0) && Along(s0, labels, s, InStep) && Permitted(s, l) && Overtakes(s, l)
    ensures Along(Next(s, l), more, t, Permitted) && Enabled(t, Start) && !ReadsRight(t, Start)
  {
    InitIsSynchronous(s0);
    AlongStaysSynchronous(s0, labels, s, InStep);
    var u := Next(s, l);
    StepKeepsShape(s, l);
    assert u.queue[..|u.queue| - 1] == s.queue;
    var v;
    more, v := ResumeIsLeft(u);
    var rest, w := ResumeRuns(v, Permitted);
    AlongJoins(u, more, v, rest, w, Permitted);
    more := more + rest;
    AlongSnoc(u, more, w, Receive, Permitted);
    more, w := more + [Receive], Next(w, Receive);
    rest, t := ReadsTwice(w);
    AlongJoins(u, more, w, rest, t, Permitted);
    more := more + rest;
  }

  // ---------------------------------------------------------------- from the start

  lemma FourSteps(s: World, a: Label, t: World, b: Label, u: World, c: Label, v: World, d: Label, w: World)
    requires Enabled(s, a) && t == Next(s, a) && InStep(s, a)
    requires Enabled(t, b) && u == Next(t, b) && InStep(t, b)
    requires Enabled(u, c) && v == Next(u, c) && InStep(u, c)
    requires Enabled(v, d) && w == Next(v, d) && InStep(v, d)
    ensures Along(s, [a, b, c, d], w, InStep)
  {
    AlongOne(s, a, InStep);
    AlongSnoc(s, [a], t, b, InStep);
    AlongSnoc(s, [a] + [b], u, c, InStep);
    AlongSnoc(s, [a] + [b] + [c], v, d, InStep);
    assert [a] + [b] + [c] + [d] == [a, b, c, d];
  }

  /** A resumed target. */
  lemma TargetRuns(s: World) returns (labels: seq<Label>, t: World)
    requires Init(s)
    ensures Along(s, labels, t, InStep)
    ensures t == s.(ses := Session(true, false, map[]), core := true, poll := true, log := [Resumed], waiting := true)
  {
    var s1 := s.(queue := [Resume], waiting := true);
    var s2 := s.(job := Asked(Resume, true, {}), waiting := true);
    var s3 := s2.(job := Answered(Resume, true, {}), chan := [Reply(map[], [], Halt)], core := true, poll := true);
    t := s.(ses := Session(true, false, map[]), core := true, poll := true, log := [Resumed], waiting := true);
    assert Next(s, Send(Resume)) == s1 && Next(s1, Start) == s2;
    assert Next(s2, Execute(s.mem, Halt)) == s3 && Next(s3, Deliver) == t;
    FourSteps(s, Send(Resume), s1, Start, s2, Execute(s.mem, Halt), s3, Deliver, t);
    labels := [Send(Resume), Start, Execute(s.mem, Halt), Deliver];
  }

  /** It stops by itself while the client interrupts it, and the poller sees that. */
  lemma HaltCrossesCtrlC(s: World) returns (labels: seq<Label>, t: World)
    requires s.ses == Session(true, false, map[]) && s.job == Idle && s.queue == [] && s.chan == [] && s.core && s.poll
    ensures Along(s, labels, t, InStep)
    ensures t == s.(ses := Session(true, true, map[]), job := Asked(CtrlC, true, {}), core := false, poll := false,
                    chan := [Halted(Breakpoint)], log := s.log + [Interrupted])
  {
    var s1 := s.(queue := [CtrlC]);
    var s2 := s.(ses := Session(true, true, map[]), job := Asked(CtrlC, true, {}), log := s.log + [Interrupted]);
    var s3 := s2.(core := false);
    t := s3.(poll := false, chan := [Halted(Breakpoint)]);
    assert Next(s, Send(CtrlC)) == s1 && Next(s1, Start) == s2;
    assert Next(s2, CoreStops) == s3 && Next(s3, Poll(Breakpoint)) == t;
    FourSteps(s, Send(CtrlC), s1, Start, s2, CoreStops, s3, Poll(Breakpoint), t);
    labels := [Send(CtrlC), Start, CoreStops, Poll(Breakpoint)];
  }

  /** From every initial state an all-stop client can be brought to a point where the stop reply to its
      resume has arrived, that of its interrupt is still to come, and its next resume overtakes it. */
  lemma SecondStopReply(s0: World) returns (labels: seq<Label>, s: World)
    requires Init(s0)
    ensures Along(s0, labels, s, InStep) && Permitted(s, Send(Resume)) && Overtakes(s, Send(Resume))
    ensures !Unanswered(s) && Interrupting(s)
  {
    var l1, s1 := TargetRuns(s0);
    var l2, s2 := HaltCrossesCtrlC(s1);
    AlongJoins(s0, l1, s1, l2, s2, InStep);
    var s3 := Next(s2, Deliver);
    AlongSnoc(s0, l1 + l2, s2, Deliver, InStep);
    s := Next(s3, Receive);
    AlongSnoc(s0, l1 + l2 + [Deliver], s3, Receive, InStep);
    labels := l1 + l2 + [Deliver] + [Receive];
  }

  /** So a client that keeps to the rule can be given stale memory. */
  lemma StaleReadFromStart(s0: World) returns (labels: seq<Label>, t: World)
    requires Init(s0)
    ensures Along(s0, labels, t, Permitted) && Enabled(t, Start) && !ReadsRight(t, Start)
  {
    var first, s := SecondStopReply(s0);
    var more;
    more, t := OvertakingGoesStale(s0, first, s, Send(Resume));
    AlongWeakens(s0, first, s, InStep, Permitted);
    AlongSnoc(s0, first, s, Send(Resume), Permitted);
    AlongJoins(s0, first + [Send(Resume)], Next(s, Send(Resume)), more, t, Permitted);
    labels := first + [Send(Resume)] + more;
  }
}
