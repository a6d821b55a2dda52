/** Serialisation of probe operations: the promise-chain mutex, and batches that stop at the first
    failure. */
module Serial {
  datatype Phase = Waiting | InBody | Finished(threw: bool)

  /** A call of runExclusive waits for promise `prev` and resolves promise `own` when its body is over. */
  datatype Call = Call(prev: nat, own: nat, phase: Phase)

  datatype Event = Enter(call: nat) | Leave(call: nat, threw: bool)

  datatype Chain = Chain(tail: nat, depth: int, resolved: seq<bool>, calls: seq<Call>, log: seq<Event>)

  datatype Label = Acquire | Begin(k: nat) | End(k: nat, threw: bool)

  function Next(s: Chain, l: Label): Chain
    requires Enabled(s, l)
  {
    match l
    case Acquire =>
      var own := |s.resolved|;
      s.(tail := own, resolved := s.resolved + [false], calls := s.calls + [Call(s.tail, own, Waiting)])
    case Begin(k) => s.(depth := s.depth + 1, calls := s.calls[k := s.calls[k].(phase := InBody)],
      log := s.log + [Enter(k)])
    case End(k, threw) =>
      s.(depth := s.depth - 1, resolved := s.resolved[s.calls[k].own := true],
         calls := s.calls[k := s.calls[k].(phase := Finished(threw))], log := s.log + [Leave(k, threw)])
  }

  predicate Enabled(s: Chain, l: Label) {
    match l
    case Acquire => true
    case Begin(k) =>
      k < |s.calls| && s.calls[k].phase == Waiting && s.calls[k].prev < |s.resolved| && s.resolved[s.calls[k].prev]
    case End(k, _) => k < |s.calls| && s.calls[k].phase == InBody && s.calls[k].own < |s.resolved|
  }

  predicate Init(s: Chain) {
    s == Chain(0, 0, [true], [], [])
  }

  function PhaseAt(log: seq<Event>, k: nat): Phase {
    if |log| <= 2 * k then Waiting
    else if |log| == 2 * k + 1 then InBody
    else match log[2 * k + 1] case Leave(_, threw) => Finished(threw) case _ => Waiting
  }

  /** The log consists of the bodies in call order, each entered and left before the next. */
  predicate InOrder(log: seq<Event>) {
    forall i :: 0 <= i < |log| ==> if i % 2 == 0 then log[i] == Enter(i / 2) else log[i].Leave? && log[i].call == i / 2
  }

  predicate Inv(s: Chain) {
    && InOrder(s.log) && |s.log| <= 2 * |s.calls|
    && s.depth == |s.log| % 2
    && |s.resolved| == |s.calls| + 1 && s.tail == |s.calls|
    && (forall k :: 0 <= k < |s.calls| ==> s.calls[k] == Call(k, k + 1, PhaseAt(s.log, k)))
    && (forall k :: 0 <= k <= |s.calls| ==> (s.resolved[k] <==> 2 * k <= |s.log|))
  }

  lemma BeginIsNext(s: Chain, k: nat)
    requires Inv(s) && Enabled(s, Begin(k))
    ensures |s.log| == 2 * k && s.depth == 0
  {
    assert s.calls[k].prev == k;
  }

  lemma StepKeepsInv(s: Chain, l: Label)
    requires Inv(s) && Enabled(s, l)
    ensures Inv(Next(s, l))
  {
    match l {
      case Acquire =>
      case Begin(k) =>
        BeginIsNext(s, k);
        var t := Next(s, l);
        forall j | 0 <= j < |s.calls|
          ensures PhaseAt(t.log, j) == if j == k then InBody else PhaseAt(s.log, j)
        {
          if j < k {
            assert t.log[2 * j + 1] == s.log[2 * j + 1];
          }
        }
      case End(k, threw) =>
        var t := Next(s, l);
        assert |s.log| == 2 * k + 1;
        forall j | 0 <= j < |s.calls|
          ensures PhaseAt(t.log, j) == if j == k then Finished(threw) else PhaseAt(s.log, j)
        {
          if j < k {
            assert t.log[2 * j + 1] == s.log[2 * j + 1];
          }
        }
    }
  }

  ghost predicate Run(states: seq<Chain>, labels: seq<Label>) {
    && |states| == |labels| + 1
    && Init(states[0])
    && forall i :: 0 <= i < |labels| ==> Enabled(states[i], labels[i]) && states[i + 1] == Next(states[i], labels[i])
  }

  lemma {:induction false} RunKeepsInv(states: seq<Chain>, labels: seq<Label>, i: nat)
    requires Run(states, labels) && i < |states|
    ensures Inv(states[i])
  {
    if i > 0 {
      RunKeepsInv(states, labels, i - 1);
      StepKeepsInv(states[i - 1], labels[i - 1]);
    }
  }

  /** In every run, bodies never overlap and run in the order of their calls. */
  lemma BodiesRunOneByOne(states: seq<Chain>, labels: seq<Label>, i: nat)
    requires Run(states, labels) && i < |states|
    ensures InOrder(states[i].log) && 0 <= states[i].depth <= 1
    ensures forall j, k :: 0 <= j < k < |states[i].calls| ==>
      !(states[i].calls[j].phase.InBody? && states[i].calls[k].phase.InBody?)
  {
    RunKeepsInv(states, labels, i);
  }

  /** However a body ends, the next call can begin: as long as a call is unfinished, the first of them
      can begin or is in its body, and every call before it is finished. */
  lemma NobodyIsStuck(s: Chain) returns (k: nat)
    requires Inv(s) && exists j :: 0 <= j < |s.calls| && !s.calls[j].phase.Finished?
    ensures k < |s.calls| && (forall j :: 0 <= j < k ==> s.calls[j].phase.Finished?)
    ensures Enabled(s, Begin(k)) || (Enabled(s, End(k, false)) && Enabled(s, End(k, true)))
  {
    k := |s.log| / 2;
    var j :| 0 <= j < |s.calls| && !s.calls[j].phase.Finished?;
    assert k <= j;
  }

  /** The end of a body, thrown or not, lets the next waiting call begin. */
  lemma EndReleasesNext(s: Chain, k: nat, threw: bool)
    requires Inv(s) && Enabled(s, End(k, threw)) && k + 1 < |s.calls|
    ensures Enabled(Next(s, End(k, threw)), Begin(k + 1)) && !Enabled(s, Begin(k + 1))
  {
    assert |s.log| == 2 * k + 1;
    assert s.calls[k + 1] == Call(k + 1, k + 2, Waiting);
  }

  class Mutex {
    var tail: nat
    var depth: int
    ghost var resolved: seq<bool>
    ghost var calls: seq<Call>
    ghost var log: seq<Event>

    ghost function State(): Chain
      reads this
    {
      Chain(tail, depth, resolved, calls, log)
    }

    constructor ()
      ensures Init(State())
    {
      tail, depth := 0, 0;
      resolved, calls, log := [true], [], [];
    }

    predicate Locked()
      reads this
    {
      depth > 0
    }

    /** runExclusive: take the old tail as predecessor, leave a new promise as tail. */
    method RunExclusive() returns (prev: nat, ghost k: nat)
      modifies this
      requires Inv(State())
      ensures State() == Next(old(State()), Acquire)
      ensures k == old(|calls|) && calls[k].prev == prev
    {
      prev, k := tail, |calls|;
      tail := tail + 1;
      resolved, calls := resolved + [false], calls + [Call(prev, |resolved|, Waiting)];
    }

    /** The predecessor's promise is resolved: the body begins. */
    method BodyBegins(ghost k: nat)
      requires Enabled(State(), Begin(k))
      modifies this
      ensures State() == Next(old(State()), Begin(k))
    {
      depth := depth + 1;
      calls, log := calls[k := calls[k].(phase := InBody)], log + [Enter(k)];
    }

    /** The finally block. */
    method BodyEnds(ghost k: nat, ghost threw: bool)
      requires Enabled(State(), End(k, threw))
      modifies this
      ensures State() == Next(old(State()), End(k, threw))
    {
      depth := depth - 1;
      resolved := resolved[calls[k].own := true];
      calls, log := calls[k := calls[k].(phase := Finished(threw))], log + [Leave(k, threw)];
    }
  }

  // ---------------------------------------------------------------- batches

  datatype Result = Ok | Failed(error: string)

  /** The state after running all of ops, whatever their results. */
  function After<St, Op>(run: (St, Op) -> (St, Result), st: St, ops: seq<Op>): St {
    if ops == [] then st else run(After(run, st, ops[..|ops| - 1]), ops[|ops| - 1]).0
  }

  function ResultOf<St, Op>(run: (St, Op) -> (St, Result), st: St, ops: seq<Op>, i: nat): Result
    requires i < |ops|
  {
    run(After(run, st, ops[..i]), ops[i]).1
  }

  /** Run the operations one by one up to and including the first failure. */
  method Batch<St, Op>(run: (St, Op) -> (St, Result), st: St, requests: seq<Op>) returns (end: St, results: seq<Result>)
    ensures |results| <= |requests| && end == After(run, st, requests[..|results|])
    ensures forall i :: 0 <= i < |results| ==> results[i] == ResultOf(run, st, requests, i)
    ensures forall i :: 0 <= i < |results| - 1 ==> results[i].Ok?
    ensures |results| < |requests| ==> results != [] && results[|results| - 1].Failed?
    ensures (forall i :: 0 <= i < |results| ==> results[i].Ok?) ==> |results| == |requests|
  {
    end, results := st, [];
    for i := 0 to |requests|
      invariant |results| == i && end == After(run, st, requests[..i])
      invariant forall j :: 0 <= j < i ==> results[j].Ok? && results[j] == ResultOf(run, st, requests, j)
    {
      assert requests[..i + 1][..i] == requests[..i];
      var (next, res) := run(end, requests[i]);
      end := next;
      results := results + [res];
      if res.Failed? {
        return;
      }
    }
  }
}
