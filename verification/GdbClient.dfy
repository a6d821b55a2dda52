/** What an all-stop client can tell from its own side: when the stop reply that it has taken for the answer
    to its resume may not be the last one. */
module GdbClient {
  import opened Wrappers
  import opened PageCache
  import opened GdbProtocol
  import opened GdbCoherence
  import opened GdbStaleness
  import opened GdbAllStop
  import opened GdbOvertaking

  /** What a client remembers of its last resume or step: whether it waits for a stop reply, whether it was
      a resume, whether it has sent Ctrl-C while it waited, and how many stop replies have come. */
  datatype Client = Client(waiting: bool, resumed: bool, crossed: bool, heard: nat)

  /** Only what it sends and receives counts. */
  function Sees(c: Client, l: Label): Client {
    match l
    case Send(p) =>
      if StartsTarget(p) then Client(true, p.Resume?, false, 0)
      else if p.CtrlC? then c.(crossed := c.crossed || (c.waiting && c.resumed))
      else c
    case Receive => c.(waiting := false, heard := c.heard + 1)
    case _ => c
  }

  function View(labels: seq<Label>): Client {
    if labels == [] then Client(false, false, false, 0) else Sees(View(labels[..|labels| - 1]), labels[|labels| - 1])
  }

  /** It has interrupted a resume and then taken the first stop reply for the answer. */
  predicate AtRisk(c: Client) {
    !c.waiting && c.crossed && c.heard == 1
  }

  lemma ViewSnoc(labels: seq<Label>, l: Label)
    ensures View(labels + [l]) == Sees(View(labels), l)
  {
    assert (labels + [l])[..|labels|] == labels;
  }

  lemma {:induction false} ViewIsOrderly(labels: seq<Label>)
    ensures var c := View(labels);
      (c.waiting ==> c.heard == 0) && (c.crossed ==> c.resumed) && (c.crossed && c.heard == 0 ==> c.waiting)
  {
    if labels != [] {
      ViewIsOrderly(labels[..|labels| - 1]);
    }
  }

  // ---------------------------------------------------------------- the client's view is right

  predicate ResumeComing(s: World) {
    s.ses.running || (!s.job.Idle? && s.job.packet.Resume?)
  }

  /** A Ctrl-C that will find a resumed target was sent while the client waited for that resume. */
  predicate Crossings(s: World, c: Client) {
    && (Interrupting(s) ==> c.crossed)
    && (ResumeComing(s) ==> c.resumed && (s.queue != [] ==> c.crossed))
    && (forall i :: 0 <= i < |s.queue| && s.queue[i].Resume? ==> c.resumed && (i < |s.queue| - 1 ==> c.crossed))
  }

  /** Stop replies heard and still to come are one, or two if a Ctrl-C has crossed. */
  predicate Seen(s: World, c: Client) {
    && s.waiting == c.waiting
    && Crossings(s, c)
    && (if Unanswered(s) then c.heard == 0 else c.heard + Surplus(s) <= if c.crossed then 2 else 1)
    && (!c.waiting && c.heard == 0 ==> Surplus(s) == 0)
  }

  lemma SendKeepsSeen(s: World, c: Client, p: Packet)
    requires Believed(s) && Ordered(s) && Seen(s, c) && InStep(s, Send(p))
    ensures Seen(Next(s, Send(p)), Sees(c, Send(p)))
  {
    var t := Next(s, Send(p));
    assert t.queue[|s.queue|] == p && forall i :: 0 <= i < |s.queue| ==> t.queue[i] == s.queue[i];
  }

  lemma StartKeepsSeen(s: World, c: Client)
    requires Believed(s) && Ordered(s) && Seen(s, c) && Enabled(s, Start)
    ensures Seen(Next(s, Start), c)
  {
    var t := Next(s, Start);
    assert t.queue == s.queue[1..] && forall i :: 0 < i < |s.queue| ==> s.queue[i] == t.queue[i - 1];
    assert t.ses.running == s.ses.running && t.down == s.down && t.waiting == s.waiting;
    StartKeepsBelief(s);
  }

  lemma HaltedKeepsSeen(s: World, c: Client)
    requires Believed(s) && Ordered(s) && Seen(s, c) && Enabled(s, Deliver) && s.chan[0].Halted?
    ensures Seen(Next(s, Deliver), c)
  {
    assert AllCtrlC(s.queue) ==> NoneStarts(s.queue);
  }

  lemma StopKeepsSeen(s: World, c: Client)
    requires Believed(s) && Ordered(s) && Seen(s, c) && Enabled(s, Deliver) && s.chan[0].Reply?
    requires s.job.packet.CtrlC? || StartsTarget(s.job.packet)
    ensures Seen(Next(s, Deliver), c)
  {
    assert AllCtrlC(s.queue) ==> NoneStarts(s.queue);
  }

  lemma OtherReplyKeepsSeen(s: World, c: Client)
    requires Kept(s) && Believed(s) && Ordered(s) && Seen(s, c) && Enabled(s, Deliver) && s.chan[0].Reply?
    requires !s.job.packet.CtrlC? && !StartsTarget(s.job.packet)
    ensures Seen(Next(s, Deliver), c)
  {
    var t := Next(s, Deliver);
    var rest := s.(chan := s.chan[1..]);
    AnswerStops(rest, s.job.packet, s.job.first, s.chan[0]);
    AnswerKeepsJob(rest, s.job.packet, s.job.first, s.chan[0]);
    assert !s.ses.running && !t.ses.running && t.queue == s.queue && t.down == s.down && t.waiting == s.waiting;
    assert !Starting(t) && !Interrupting(t) && Unanswered(t) == Unanswered(s) && Surplus(t) == Surplus(s);
    assert !ResumeComing(t);
  }

  lemma TargetKeepsSeen(s: World, c: Client, l: Label)
    requires Seen(s, c) && Enabled(s, l) && (l.Execute? || l.CoreMoves? || l.CoreStops? || l.Poll?)
    ensures Seen(Next(s, l), c)
  {
    var t := Next(s, l);
    assert t.ses == s.ses && t.queue == s.queue && t.down == s.down && t.waiting == s.waiting;
    assert Starting(t) == Starting(s) && Interrupting(t) == Interrupting(s) && ResumeComing(t) == ResumeComing(s);
  }

  lemma StepKeepsSeen(s: World, c: Client, l: Label)
    requires Synchronous(s) && Seen(s, c) && Enabled(s, l) && InStep(s, l)
    ensures Seen(Next(s, l), Sees(c, l))
  {
    match l {
      case Send(p) => SendKeepsSeen(s, c, p);
      case Receive =>
      case Start => StartKeepsSeen(s, c);
      case Deliver =>
        if s.chan[0].Halted? {
          HaltedKeepsSeen(s, c);
        } else if s.job.packet.CtrlC? || StartsTarget(s.job.packet) {
          StopKeepsSeen(s, c);
        } else {
          OtherReplyKeepsSeen(s, c);
        }
      case _ => TargetKeepsSeen(s, c, l);
    }
  }

  lemma RiskIsSeen(s: World, c: Client)
    requires Synchronous(s) && Seen(s, c) && !s.waiting && Surplus(s) > 0
    ensures AtRisk(c)
  {}

  // ---------------------------------------------------------------- a cautious client

  /** It never starts the target while it is at risk; it can check that before every packet. */
  predicate Cautious(labels: seq<Label>) {
    forall j :: 0 <= j < |labels| && labels[j].Send? && StartsTarget(labels[j].p) ==> !AtRisk(View(labels[..j]))
  }

  lemma {:induction false} RunIsSeen(s0: World, labels: seq<Label>, s: World)
    requires Init(s0) && Along(s0, labels, s, InStep)
    ensures Synchronous(s) && Seen(s, View(labels))
  {
    InitIsSynchronous(s0);
    AlongStaysSynchronous(s0, labels, s, InStep);
    if labels != [] {
      var before := AlongSplits(s0, labels, s, InStep);
      RunIsSeen(s0, labels[..|labels| - 1], before);
      StepKeepsSeen(before, View(labels[..|labels| - 1]), labels[|labels| - 1]);
    }
  }

  /** Every run of a cautious all-stop client is in step, so the flag, the stop replies and the reads are
      right. */
  lemma {:induction false} CautiousIsInStep(s0: World, labels: seq<Label>, s: World)
    requires Init(s0) && Along(s0, labels, s, Permitted) && Cautious(labels)
    ensures Along(s0, labels, s, InStep)
  {
    if labels != [] {
      var init, l := labels[..|labels| - 1], labels[|labels| - 1];
      var before := AlongSplits(s0, labels, s, Permitted);
      assert forall j :: 0 <= j < |init| ==> init[..j] == labels[..j];
      CautiousIsInStep(s0, init, before);
      RunIsSeen(s0, init, before);
      if Overtakes(before, l) {
        RiskIsSeen(before, View(init));
      }
      AlongSnoc(s0, init, before, l, InStep);
      assert init + [l] == labels;
    }
  }

  /** A client that sends no Ctrl-C while it waits is cautious. */
  lemma NoInterruptIsCautious(labels: seq<Label>)
    requires forall j :: 0 <= j < |labels| && labels[j] == Send(CtrlC) ==> !View(labels[..j]).waiting
    ensures Cautious(labels)
  {
    forall j | 0 <= j < |labels|
      ensures !View(labels[..j]).crossed
    {
      NeverCrossed(labels, j);
    }
  }

  lemma {:induction false} NeverCrossed(labels: seq<Label>, j: nat)
    requires forall i :: 0 <= i < |labels| && labels[i] == Send(CtrlC) ==> !View(labels[..i]).waiting
    requires j <= |labels|
    ensures !View(labels[..j]).crossed
  {
    if j > 0 {
      NeverCrossed(labels, j - 1);
      assert labels[..j][..j - 1] == labels[..j - 1];
    }
  }

  // ---------------------------------------------------------------- another run that looks the same

  /** The target runs and everything has been handled. */
  predicate Underway(s: World) {
    s.job.Idle? && s.queue == [] && s.chan == [] && s.ses.running && s.core && s.poll && s.waiting
  }

  /** It has stopped, and its halt is on its way past an interrupt that was begun. */
  predicate Crossing(s: World) {
    s.job == Asked(CtrlC, true, {}) && s.ses.running && s.chan == [Halted(Breakpoint)] && s.waiting
  }

  /** The client has heard the halt, the reply to the interrupt is still to come. */
  predicate Exposed(s: World) {
    Interrupting(s) && !s.ses.running && !s.waiting
  }

  /** Where the other run stands, by what the client has seen. */
  predicate Staged(s: World, c: Client) {
    && (c.waiting && c.resumed && !c.crossed ==> Underway(s))
    && (c.waiting && c.crossed ==> Crossing(s))
    && (AtRisk(c) ==> Exposed(s))
  }

  ghost predicate LooksLike(s0: World, labels: seq<Label>, other: seq<Label>, s: World) {
    Along(s0, other, s, InStep) && Visible(other) == Visible(labels)
  }

  lemma VisibleSnoc(labels: seq<Label>, l: Label)
    ensures Visible(labels + [l]) == Visible(labels) + if l.Send? || l.Receive? then [l] else []
  {
    assert (labels + [l])[..|labels|] == labels;
  }

  /** The same visible step, taken in a run that looks the same. */
  lemma LooksLikeSnoc(s0: World, labels: seq<Label>, other: seq<Label>, s: World, l: Label)
    requires LooksLike(s0, labels, other, s) && Enabled(s, l) && InStep(s, l)
    ensures LooksLike(s0, labels + [l], other + [l], Next(s, l))
  {
    AlongSnoc(s0, other, s, l, InStep);
    VisibleSnoc(labels, l);
    VisibleSnoc(other, l);
  }

  /** Invisible steps at the end. */
  lemma LooksLikeJoins(s0: World, labels: seq<Label>, other: seq<Label>, s: World, more: seq<Label>, t: World)
    requires LooksLike(s0, labels, other, s) && Along(s, more, t, InStep) && Visible(more) == []
    ensures LooksLike(s0, labels, other + more, t)
  {
    AlongJoins(s0, other, s, more, t, InStep);
    VisibleJoin(other, more);
  }

  /** A resume is sent: the server handles everything before it and then the resume. */
  lemma GetsUnderway(s0: World, labels: seq<Label>, s: World) returns (other: seq<Label>, t: World)
    requires Init(s0) && Along(s0, labels, s, InStep) && InStep(s, Send(Resume)) && !s.waiting
    ensures LooksLike(s0, labels + [Send(Resume)], other, t) && Underway(t)
  {
    InitIsSynchronous(s0);
    AlongStaysSynchronous(s0, labels, s, InStep);
    var u := Next(s, Send(Resume));
    LooksLikeSnoc(s0, labels, labels, s, Send(Resume));
    StepKeepsShape(s, Send(Resume));
    assert u.queue[..|u.queue| - 1] == s.queue;
    var more, v := QueueDrains(u, InStep);
    LooksLikeJoins(s0, labels + [Send(Resume)], labels + [Send(Resume)], u, more, v);
    var rest;
    rest, t := ResumeRuns(v, InStep);
    LooksLikeJoins(s0, labels + [Send(Resume)], labels + [Send(Resume)] + more, v, rest, t);
    other := labels + [Send(Resume)] + more + rest;
  }

  /** A Ctrl-C is sent: the target stops by itself, and the poller sees it before the interrupt halts it. */
  lemma GetsCrossing(s0: World, labels: seq<Label>, other: seq<Label>, s: World) returns (more: seq<Label>, t: World)
    requires LooksLike(s0, labels, other, s) && Underway(s)
    ensures LooksLike(s0, labels + [Send(CtrlC)], other + more, t) && Crossing(t)
  {
    var s1 := Next(s, Send(CtrlC));
    var s2 := Next(s1, Start);
    var s3 := Next(s2, CoreStops);
    t := Next(s3, Poll(Breakpoint));
    LooksLikeSnoc(s0, labels, other, s, Send(CtrlC));
    AlongOne(s1, Start, InStep);
    AlongSnoc(s1, [Start], s2, CoreStops, InStep);
    AlongSnoc(s1, [Start] + [CoreStops], s3, Poll(Breakpoint), InStep);
    var rest := [Start] + [CoreStops] + [Poll(Breakpoint)];
    VisibleJoin([Start] + [CoreStops], [Poll(Breakpoint)]);
    VisibleJoin([Start], [CoreStops]);
    LooksLikeJoins(s0, labels + [Send(CtrlC)], other + [Send(CtrlC)], s1, rest, t);
    more := [Send(CtrlC)] + rest;
    assert other + [Send(CtrlC)] + rest == other + more;
  }

  /** The halt is delivered and its stop reply received. */
  lemma GetsExposed(s0: World, labels: seq<Label>, other: seq<Label>, s: World) returns (more: seq<Label>, t: World)
    requires LooksLike(s0, labels, other, s) && Crossing(s)
    ensures LooksLike(s0, labels + [Receive], other + more, t) && Exposed(t)
  {
    var u := Next(s, Deliver);
    AlongOne(s, Deliver, InStep);
    LooksLikeJoins(s0, labels, other, s, [Deliver], u);
    t := Next(u, Receive);
    LooksLikeSnoc(s0, labels, other + [Deliver], u, Receive);
    more := [Deliver] + [Receive];
    assert other + [Deliver] + [Receive] == other + more;
  }

  /** For every run in step there is one that looks the same to the client and in which every halt that
      can cross an interrupt does. */
  lemma {:induction false} OtherRun(s0: World, labels: seq<Label>, s: World) returns (other: seq<Label>, t: World)
    requires Init(s0) && Along(s0, labels, s, InStep)
    ensures LooksLike(s0, labels, other, t) && Staged(t, View(labels))
  {
    if labels == [] {
      return labels, s;
    }
    var init, l := labels[..|labels| - 1], labels[|labels| - 1];
    assert init + [l] == labels;
    var before := AlongSplits(s0, labels, s, InStep);
    var c := View(init);
    ViewIsOrderly(init);
    RunIsSeen(s0, init, before);
    var first, u := OtherRun(s0, init, before);
    if l == Send(Resume) {
      other, t := GetsUnderway(s0, init, before);
    } else if l == Send(CtrlC) && c.waiting && c.resumed && !c.crossed {
      var more;
      more, t := GetsCrossing(s0, init, first, u);
      other := first + more;
    } else if l == Receive && c.waiting && c.crossed {
      var more;
      more, t := GetsExposed(s0, init, first, u);
      other := first + more;
    } else if l.Send? && !StartsTarget(l.p) && (AtRisk(c) || (c.waiting && c.crossed)) {
      LooksLikeSnoc(s0, init, first, u, l);
      other, t := first + [l], Next(u, l);
    } else if !l.Send? && !l.Receive? {
      VisibleSnoc(init, l);
      other, t := first, u;
    } else {
      other, t := labels, s;
    }
  }

  // ---------------------------------------------------------------- the rule is exact

  lemma {:induction false} ViewOfVisible(labels: seq<Label>)
    ensures View(labels) == View(Visible(labels))
  {
    if labels != [] {
      var init, l := labels[..|labels| - 1], labels[|labels| - 1];
      ViewOfVisible(init);
      if l.Send? || l.Receive? {
        ViewSnoc(Visible(init), l);
      } else {
        assert Visible(labels) == Visible(init);
      }
    }
  }

  /** In some run that looks the same, a resume sent now overtakes a stop reply. */
  ghost predicate MayOvertake(s0: World, labels: seq<Label>) {
    exists other: seq<Label>, t: World ::
      LooksLike(s0, labels, other, t) && Permitted(t, Send(Resume)) && Overtakes(t, Send(Resume))
  }

  /** What a client can go by is exact: after every run in step, a resume sent now overtakes a stop reply in
      some run that looks the same to the client if and only if the client has interrupted its last resume
      and taken the first stop reply for the answer. */
  lemma RiskExactly(s0: World, labels: seq<Label>, s: World)
    requires Init(s0) && Along(s0, labels, s, InStep)
    ensures MayOvertake(s0, labels) <==> AtRisk(View(labels))
  {
    if AtRisk(View(labels)) {
      var other, t := OtherRun(s0, labels, s);
      assert LooksLike(s0, labels, other, t) && Permitted(t, Send(Resume)) && Overtakes(t, Send(Resume));
    }
    if MayOvertake(s0, labels) {
      var other: seq<Label>, t: World :|
        LooksLike(s0, labels, other, t) && Permitted(t, Send(Resume)) && Overtakes(t, Send(Resume));
      RunIsSeen(s0, other, t);
      ViewOfVisible(labels);
      ViewOfVisible(other);
      RiskIsSeen(t, View(other));
    }
  }
}
