/** How the page cache goes stale: after every step that spoils a run there is a way to a stopped session
    whose cache disagrees with memory. */
module GdbStaleness {
  import opened Wrappers
  import opened PageCache
  import opened GdbProtocol
  import opened GdbCoherence
  import Breakpoints

  /** The first page of RAM. */
  const RAM: int := 0x2000_0000

  /** The steps used to get there cannot spoil a run themselves. */
  ghost predicate Calm(s: World, l: Label) {
    l.Execute? && s.job.Asked? ==> !s.job.packet.Kill? && !s.job.packet.SilentRewrite?
  }

  lemma {:induction false} AlongWeakens(s: World, labels: seq<Label>, t: World,
                                        ok: (World, Label) -> bool, weaker: (World, Label) -> bool)
    requires Along(s, labels, t, ok) && forall w: World, l: Label :: ok(w, l) ==> weaker(w, l)
    ensures Along(s, labels, t, weaker)
    decreases |labels|
  {
    if labels != [] {
      AlongWeakens(Next(s, labels[0]), labels[1..], t, ok, weaker);
    }
  }

  /** One more step at the end. */
  lemma AlongSnoc(s: World, labels: seq<Label>, t: World, l: Label, ok: (World, Label) -> bool)
    requires Along(s, labels, t, ok) && Enabled(t, l) && ok(t, l)
    ensures Along(s, labels + [l], Next(t, l), ok)
  {
    AlongOne(t, l, ok);
    AlongJoins(s, labels, t, [l], Next(t, l), ok);
  }

  lemma OnePageMissing()
    ensures Missing(map[], RAM, PAGE) == {RAM} && Paged(RAM, PAGE) && PageOf(RAM) == RAM
  {}

  lemma OnePageHeld(mem: Memory)
    ensures var cache := map[RAM := Slice(mem, RAM, PAGE)];
      AllCached(cache, RAM, PAGE) && FromPages(cache, RAM, PAGE) == Slice(mem, RAM, PAGE)
  {
    PagesHoldSlice(map[RAM := Slice(mem, RAM, PAGE)], mem, RAM, PAGE);
  }

  /** Reading a page of RAM through an empty cache leaves that page in it. */
  lemma ReadAPage(s: World, ok: (World, Label) -> bool) returns (labels: seq<Label>, t: World)
    requires s.job.Idle? && s.queue == [] && s.chan == [] && s.ses.cache == map[]
    requires forall w: World, l: Label :: Calm(w, l) && w.waiting == s.waiting ==> ok(w, l)
    ensures Along(s, labels, t, ok)
    ensures t == s.(ses := s.ses.(cache := map[RAM := Slice(s.mem, RAM, PAGE)]),
                    log := s.log + [Read(RAM, Slice(s.mem, RAM, PAGE))])
  {
    var p := ReadMem(RAM, PAGE);
    var execute := Execute(s.mem, Halt);
    OnePageMissing();
    OnePageHeld(s.mem);
    var reply := Reply(map[RAM := Slice(s.mem, RAM, PAGE)], Slice(s.mem, RAM, PAGE), Halt);
    var s1 := s.(queue := [p]);
    var s2 := s.(job := Asked(p, true, {RAM}));
    var s3 := s.(job := Answered(p, true, {RAM}), chan := [reply]);
    t := s.(ses := s.ses.(cache := reply.pages), log := s.log + [Read(RAM, Slice(s.mem, RAM, PAGE))]);
    assert Next(s, Send(p)) == s1;
    assert Next(s1, Start) == s2;
    assert Fetched(s.mem, {RAM}) == reply.pages;
    assert Next(s2, execute) == s3;
    assert map[] + reply.pages == reply.pages;
    assert Next(s3, Deliver) == t;
    AlongOne(s, Send(p), ok);
    AlongSnoc(s, [Send(p)], s1, Start, ok);
    AlongSnoc(s, [Send(p)] + [Start], s2, execute, ok);
    labels := [Send(p)] + [Start] + [execute] + [Deliver];
    AlongSnoc(s, [Send(p)] + [Start] + [execute], s3, Deliver, ok);
  }

  /** Memory that differs from a page in its first byte. */
  function Elsewise(page: seq<Byte>): Memory
    requires |page| == PAGE
  {
    var wrong: Byte := if page[0] == 0 then 1 else 0;
    (a: int) => wrong
  }

  lemma ElsewiseIsElse(cache: Cache, p: int)
    requires p in cache && |cache[p]| == PAGE
    ensures !Coherent(cache, Elsewise(cache[p]))
  {
    assert Slice(Elsewise(cache[p]), p, PAGE)[0] != cache[p][0];
  }

  // ---------------------------------------------------------------- after a spoiling step

  /** The session is stopped, no handler is at work, and the cache disagrees with memory. */
  ghost predicate Stale(s: World) {
    s.job.Idle? && !s.ses.running && !Coherent(s.ses.cache, s.mem)
  }

  /** Deliver everything up to the answer of vKill or of a breakpoint packet; a halt that is in front of
      it stops a running session and empties its cache. */
  lemma AnswerArrives(s: World) returns (labels: seq<Label>, t: World)
    requires Shape(s) && s.job.Answered? && (s.job.packet.Kill? || s.job.packet.SilentRewrite?)
    requires !s.ses.running || s.chan[0].Halted?
    ensures Along(s, labels, t, Calm)
    ensures t.job.Idle? && !t.ses.running && t.mem == s.mem && t.core == s.core && t.queue == s.queue
    ensures t.waiting == s.waiting && |t.chan| + AnswerAt(s) + 1 == |s.chan|
    ensures t.ses.cache == if s.ses.running then map[] else s.ses.cache
  {
    if s.chan[0].Halted? {
      var next := Next(s, Deliver);
      t := Next(next, Deliver);
      AlongOne(s, Deliver, Calm);
      labels := [Deliver] + [Deliver];
      AlongSnoc(s, [Deliver], next, Deliver, Calm);
    } else {
      t := Next(s, Deliver);
      labels := [Deliver];
      AlongOne(s, Deliver, Calm);
    }
  }

  /** A running core can move memory under any cached page. */
  lemma CoreMovesAway(s: World, p: int) returns (labels: seq<Label>, t: World)
    requires s.job.Idle? && !s.ses.running && s.core && p in s.ses.cache && |s.ses.cache[p]| == PAGE
    ensures Along(s, labels, t, Calm) && Stale(t)
  {
    var m := Elsewise(s.ses.cache[p]);
    ElsewiseIsElse(s.ses.cache, p);
    labels, t := [CoreMoves(m)], Next(s, CoreMoves(m));
    AlongOne(s, CoreMoves(m), Calm);
  }

  lemma SpoiledByRewrite(s: World, l: Label) returns (labels: seq<Label>, t: World)
    requires Shape(s) && Kept(s) && Clean(s) && Enabled(s, l) && Spoils(s, l) && s.job.packet.SilentRewrite?
    ensures Along(Next(s, l), labels, t, Calm) && Stale(t) && t.mem == l.m
  {
    var next := Next(s, l);
    ExecuteKeepsShape(s, l.m, l.reason);
    labels, t := AnswerArrives(next);
    var p :| p in s.ses.cache && Slice(l.m, p, PAGE) != Slice(s.mem, p, PAGE);
    assert t.ses.cache[p] == Slice(s.mem, p, PAGE);
  }

  /** A stopped session has something cached. */
  predicate HoldsPage(s: World) {
    !s.ses.running && s.ses.cache != map[]
  }

  lemma SomePage(cache: Cache) returns (p: int)
    requires cache != map[]
    ensures p in cache
  {
    assert (forall q :: q !in cache) ==> cache == map[];
    p :| p in cache;
  }

  lemma SpoiledByKill(s: World, l: Label) returns (labels: seq<Label>, t: World)
    requires Shape(s) && Kept(s) && Enabled(s, l) && Spoils(s, l) && s.job.packet.Kill?
    requires s.queue == [] || HoldsPage(s)
    ensures Along(Next(s, l), labels, t, Calm) && Stale(t)
  {
    var next := Next(s, l);
    ExecuteKeepsShape(s, l.m, l.reason);
    ExecuteKeepsKept(s, l.m, l.reason);
    var t1;
    labels, t1 := AnswerArrives(next);
    AlongKeepsShape(next, labels, t1, Calm);
    var p: int;
    if t1.ses.cache == map[] {
      var more, t2 := ReadAPage(t1, Calm);
      assert RAM in t2.ses.cache;
      AlongJoins(next, labels, t1, more, t2, Calm);
      labels, t1, p := labels + more, t2, RAM;
    } else {
      p := SomePage(t1.ses.cache);
    }
    var last;
    last, t := CoreMovesAway(t1, p);
    AlongJoins(next, labels, t1, last, t, Calm);
    labels := labels + last;
  }

  ghost predicate CanGoStale(s: World) {
    exists labels: seq<Label>, t: World :: Along(s, labels, t, Unspoiled) && Stale(t)
  }

  /** The condition is exact: in a clean state, a step spoils if and only if steps that spoil nothing can
      follow it to a stopped session with a stale cache. After vKill with nothing cached, packets that are
      already queued could prevent that. */
  lemma SpoilsExactly(s: World, l: Label)
    requires Shape(s) && Kept(s) && Clean(s) && Enabled(s, l)
    requires s.job.Asked? && s.job.packet.Kill? ==> s.queue == [] || HoldsPage(s)
    ensures Spoils(s, l) <==> CanGoStale(Next(s, l))
  {
    var next := Next(s, l);
    if Spoils(s, l) {
      var labels, t;
      if s.job.packet.Kill? {
        labels, t := SpoiledByKill(s, l);
      } else {
        labels, t := SpoiledByRewrite(s, l);
      }
      AlongWeakens(next, labels, t, Calm, Unspoiled);
      assert Along(next, labels, t, Unspoiled) && Stale(t);
    } else {
      StepKeepsShape(s, l);
      StepKeepsClean(s, l);
      forall labels: seq<Label>, t: World | Along(next, labels, t, Unspoiled)
        ensures !Stale(t)
      {
        AlongKeepsClean(next, labels, t);
      }
    }
  }

  /** Packets that halt the target, or empty the cache and start it properly. */
  predicate Settles(p: Packet) {
    p.FlashDone? || p.ResetHalt? || p.HaltAgain? || p.ResetRun? || StartsTarget(p)
  }

  /** The target runs loose, but nothing is cached and the next packet ends that. */
  ghost predicate Loose(s: World) {
    match s.job
    case Idle => !s.ses.running && s.ses.cache == map[] && s.queue != [] && Settles(s.queue[0])
    case Asked(p, first, _) => !s.ses.running && s.ses.cache == map[] && Settles(p) && first
    case Answered(p, _, _) =>
      && p.Kill? && s.queue != [] && Settles(s.queue[0]) && s.chan != []
      && if s.ses.running then s.chan[0].Halted? else s.ses.cache == map[]
  }

  lemma StepKeepsLoose(s: World, l: Label)
    requires Shape(s) && Loose(s) && Enabled(s, l)
    ensures Loose(Next(s, l)) || Clean(Next(s, l))
  {
    if l.Execute? {
      LooseExecutes(s, l);
    }
  }

  lemma LooseExecutes(s: World, l: Label)
    requires Shape(s) && Loose(s) && Enabled(s, l) && l.Execute?
    ensures Clean(Next(s, l))
  {}

  lemma {:induction false} LooseIsNotStale(s: World, labels: seq<Label>, t: World)
    requires Shape(s) && Kept(s) && (Loose(s) || Clean(s)) && Along(s, labels, t, Unspoiled)
    ensures !Stale(t)
    decreases |labels|
  {
    if labels != [] {
      StepKeepsShape(s, labels[0]);
      if Clean(s) {
        StepKeepsClean(s, labels[0]);
      } else {
        StepKeepsLoose(s, labels[0]);
      }
      LooseIsNotStale(Next(s, labels[0]), labels[1..], t);
    }
  }

  /** What a queued packet changes: after vKill with nothing cached, a packet right behind it that halts or
      starts the target leaves no way to a stale cache. */
  lemma NextPacketMends(s: World, l: Label)
    requires Shape(s) && Kept(s) && Enabled(s, l) && Spoils(s, l) && s.job.packet.Kill? && !HoldsPage(s)
    requires s.queue != [] && Settles(s.queue[0])
    ensures !CanGoStale(Next(s, l))
  {
    var next := Next(s, l);
    ExecuteKeepsShape(s, l.m, l.reason);
    ExecuteKeepsKept(s, l.m, l.reason);
    forall labels: seq<Label>, t: World | Along(next, labels, t, Unspoiled)
      ensures !Stale(t)
    {
      LooseIsNotStale(next, labels, t);
    }
  }

  // ---------------------------------------------------------------- breakpoint packets

  lemma SameBytesSameCoherence(cache: Cache, m: Memory, n: Memory)
    requires forall a :: m(a) == n(a)
    ensures Coherent(cache, m) <==> Coherent(cache, n)
  {
    forall p | p in cache
      ensures Slice(m, p, PAGE) == Slice(n, p, PAGE)
    {}
  }

  /** The page of an even address holds both bytes of its halfword. */
  lemma HalfwordInPage(mem: Memory, at: int)
    requires at % 2 == 0
    ensures var i := at - PageOf(at);
      0 <= i && i + 1 < PAGE && PageOf(at) % PAGE == 0
      && Slice(mem, PageOf(at), PAGE)[i] == mem(at) && Slice(mem, PageOf(at), PAGE)[i + 1] == mem(at + 1)
  {}

  lemma ChangedPage(mem: Memory, at: int, h: Breakpoints.Halfword)
    requires at % 2 == 0
    ensures var after := Breakpoints.PutHalfword(mem, at, h);
      Slice(after, PageOf(at), PAGE) == Slice(mem, PageOf(at), PAGE) <==>
        h == Breakpoints.Halfword(mem(at), mem(at + 1))
  {
    var after := Breakpoints.PutHalfword(mem, at, h);
    HalfwordInPage(mem, at);
    HalfwordInPage(after, at);
  }

  lemma UnchangedPage(mem: Memory, at: int, h: Breakpoints.Halfword, q: int)
    requires at % 2 == 0 && q % PAGE == 0 && q != PageOf(at)
    ensures Slice(Breakpoints.PutHalfword(mem, at, h), q, PAGE) == Slice(mem, q, PAGE)
  {
    OtherPage(at, q);
  }

  /** Rewriting a halfword of RAM without invalidating keeps the cache coherent exactly if its page is
      not cached or already holds the new bytes. */
  lemma HalfwordExactly(cache: Cache, mem: Memory, at: int, h: Breakpoints.Halfword)
    requires Coherent(cache, mem) && WellKept(cache) && at % 2 == 0
    ensures Coherent(cache, Breakpoints.PutHalfword(mem, at, h)) <==>
      PageOf(at) !in cache || h == Breakpoints.Halfword(mem(at), mem(at + 1))
  {
    var after := Breakpoints.PutHalfword(mem, at, h);
    ChangedPage(mem, at, h);
    forall q | q in cache && q != PageOf(at)
      ensures cache[q] == Slice(after, q, PAGE)
    {
      UnchangedPage(mem, at, h, q);
    }
  }

  lemma OtherPage(at: int, q: int)
    requires at % 2 == 0 && q % PAGE == 0 && q != PageOf(at)
    ensures !(q <= at < q + PAGE) && !(q <= at + 1 < q + PAGE)
  {}

  const BKPT := Breakpoints.Halfword(Breakpoints.BKPT_LOW, Breakpoints.BKPT_HIGH)

  /** Setting a breakpoint with Z1 keeps the cache coherent exactly if it plants nothing in RAM, the page
      is not cached, or the instruction is already there. */
  lemma SetExactly(cache: Cache, revision: nat, b: Breakpoints.Unit, addr: int)
    requires Coherent(cache, b.ram) && WellKept(cache) && addr % 2 == 0
    ensures Coherent(cache, Breakpoints.SetStep(revision, b, addr).ram) <==>
      || Breakpoints.UsesHardware(revision, addr) || addr in b.sw
      || PageOf(addr) !in cache || BKPT == Breakpoints.Halfword(b.ram(addr), b.ram(addr + 1))
  {
    HalfwordExactly(cache, b.ram, addr, BKPT);
  }

  /** Clearing one with z0 or z1, where RAM is the user's overlaid with the planted instructions: exactly
      if no instruction is taken out of RAM, the page is not cached, or the user's bytes are the same. */
  lemma ClearExactly(cache: Cache, revision: nat, b: Breakpoints.Unit, user: Memory, addr: int)
    requires Coherent(cache, b.ram) && WellKept(cache) && addr % 2 == 0 && Breakpoints.Inv(revision, b, user)
    ensures Coherent(cache, Breakpoints.ClearStep(b, addr).ram) <==>
      || Some(addr) in b.hw || addr !in b.sw
      || PageOf(addr) !in cache || BKPT == Breakpoints.Halfword(user(addr), user(addr + 1))
  {
    assert Some(addr) in b.hw <==> Breakpoints.FindSlot(b.hw, Some(addr)) < |b.hw|;
    if addr in b.sw {
      assert Breakpoints.Even(addr) == addr && Breakpoints.Even(addr + 1) == addr;
      HalfwordExactly(cache, b.ram, addr, b.sw[addr]);
    }
  }

  // ---------------------------------------------------------------- runs from the start

  /** A packet is sent and begun. */
  lemma Begun(s: World, p: Packet) returns (t: World)
    requires s.job.Idle? && s.queue == [] && !StartsTarget(p) && !p.CtrlC? && !p.ReadMem?
    ensures Along(s, [Send(p)] + [Start], t, Any)
    ensures t == s.(job := Asked(p, true, {}))
  {
    t := s.(job := Asked(p, true, {}));
    AlongOne(s, Send(p), Any);
    AlongSnoc(s, [Send(p)], s.(queue := [p]), Start, Any);
  }

  /** After a run, a packet whose operation spoils it. */
  lemma GoesStale(s0: World, labels: seq<Label>, s: World, l: Label) returns (more: seq<Label>, t: World)
    requires Init(s0) && Along(s0, labels, s, Any) && Clean(s) && Enabled(s, l) && Spoils(s, l) && s.queue == []
    ensures Along(s0, labels + more, t, Any) && Stale(t)
    ensures s.job.packet.SilentRewrite? ==> t.mem == l.m
  {
    AlongKeepsShape(s0, labels, s, Any);
    var rest;
    if s.job.packet.Kill? {
      rest, t := SpoiledByKill(s, l);
    } else {
      rest, t := SpoiledByRewrite(s, l);
    }
    AlongSnoc(s0, labels, s, l, Any);
    AlongWeakens(Next(s, l), rest, t, Calm, Any);
    AlongJoins(s0, labels + [l], Next(s, l), rest, t, Any);
    more := [l] + rest;
    assert labels + [l] + rest == labels + more;
  }

  const FREE := Breakpoints.Unit([], map[], [], (a: int) => 0)

  /** Read a page of RAM, then set a breakpoint in it with Z1: the cache still shows the old bytes. */
  lemma ReadThenZ1(s0: World) returns (labels: seq<Label>, t: World)
    requires Init(s0) && Breakpoints.Halfword(s0.mem(RAM), s0.mem(RAM + 1)) != BKPT
    ensures Along(s0, labels, t, Any) && Stale(t)
    ensures t.mem == Breakpoints.SetStep(0, FREE.(ram := s0.mem), RAM).ram
  {
    var execute := Execute(Breakpoints.SetStep(0, FREE.(ram := s0.mem), RAM).ram, Halt);
    var l1, s1 := ReadAPage(s0, Any);
    var s2 := Begun(s1, SilentRewrite);
    AlongJoins(s0, l1, s1, [Send(SilentRewrite)] + [Start], s2, Any);
    OnePageMissing();
    ChangedPage(s0.mem, RAM, BKPT);
    assert RAM in s2.ses.cache;
    var more;
    more, t := GoesStale(s0, l1 + ([Send(SilentRewrite)] + [Start]), s2, execute);
    labels := l1 + ([Send(SilentRewrite)] + [Start]) + more;
  }

  /** Let the target run with vKill: with or without a page read before, the cache can go stale. */
  lemma KillGoesStale(s0: World, readFirst: bool) returns (labels: seq<Label>, t: World)
    requires Init(s0)
    ensures Along(s0, labels, t, Any) && Stale(t)
  {
    var s1 := s0;
    labels := [];
    if readFirst {
      labels, s1 := ReadAPage(s0, Any);
    }
    var s2 := Begun(s1, Kill);
    AlongJoins(s0, labels, s1, [Send(Kill)] + [Start], s2, Any);
    labels := labels + ([Send(Kill)] + [Start]);
    var more;
    more, t := GoesStale(s0, labels, s2, Execute(s0.mem, Halt));
    labels := labels + more;
  }
}
