/** The two-stage request pipeline of ExecutionScheduler.cpp: a producer that numbers requests, a worker
    that executes them and a worker that notifies, connected by two locked priority queues.  `top` and
    `pop` lock separately, so anything may happen between them. */
module Scheduler {
  import opened Common

  /** Priority of the n-th request: an unsigned 32-bit counter stored in a signed 32-bit field. */
  function Priority(n: nat): int { Signed32(n) }

  class SchedulePolicy {
    var priorityNumber: nat
    ghost var issued: nat

    ghost predicate Valid() reads this { priorityNumber == issued % TWO_32 }

    constructor ()
      ensures Valid() && issued == 0
    {
      priorityNumber, issued := 0, 0;
    }

    method DecidePriority() returns (priority: int)
      requires Valid()
      modifies this
      ensures Valid() && issued == old(issued) + 1
      ensures priority == Priority(old(issued))
    {
      priority := if priorityNumber < TWO_31 then priorityNumber else priorityNumber - TWO_32;
      priorityNumber := if priorityNumber + 1 == TWO_32 then 0 else priorityNumber + 1;
      issued := issued + 1;
    }
  }

  /** Requests are named by their issue number; Compare puts the smallest priority on top. */
  predicate IsTop(queue: set<nat>, r: nat) {
    r in queue && forall x :: x in queue ==> Priority(r) <= Priority(x)
  }

  class PriorityQueueWithLock {
    var pqueue: seq<nat>

    ghost function Elements(): set<nat> reads this { set x | x in pqueue }

    ghost predicate Valid() reads this { forall i, j :: 0 <= i < j < |pqueue| ==> pqueue[i] != pqueue[j] }

    constructor ()
      ensures Valid() && Elements() == {}
    {
      pqueue := [];
    }

    method Empty() returns (empty: bool)
      ensures empty <==> Elements() == {}
    {
      empty := |pqueue| == 0;
      if !empty { assert pqueue[0] in Elements(); }
    }

    method TopIndex() returns (best: nat)
      requires |pqueue| > 0
      ensures best < |pqueue| && IsTop(Elements(), pqueue[best])
    {
      best := 0;
      for i := 1 to |pqueue|
        invariant best < |pqueue| && forall k :: 0 <= k < i ==> Priority(pqueue[best]) <= Priority(pqueue[k])
      {
        if Priority(pqueue[i]) < Priority(pqueue[best]) { best := i; }
      }
    }

    method Top() returns (r: nat)
      requires Elements() != {}
      ensures IsTop(Elements(), r)
    {
      var best := TopIndex();
      r := pqueue[best];
    }

    method Push(r: nat)
      requires Valid() && r !in Elements()
      modifies this
      ensures Valid() && Elements() == old(Elements()) + {r}
    {
      pqueue := pqueue + [r];
    }

    method Pop() returns (ghost removed: nat)
      requires Valid() && Elements() != {}
      modifies this
      ensures IsTop(old(Elements()), removed)
      ensures Valid() && Elements() == old(Elements()) - {removed}
    {
      var best := TopIndex();
      removed := pqueue[best];
      pqueue := pqueue[..best] + pqueue[best + 1..];
    }
  }

  // ----- All interleavings

  datatype Producer = Ready | Numbered(r: nat)
  datatype Worker = Idle | NonEmpty | Peeked(r: nat) | Done(r: nat)

  /** `passed` counts what the execute worker has handed on.  In the execute worker Done(r) means popped and
      not yet passed on, in the response worker notified and not yet popped. */
  datatype State = State(issued: nat, producer: Producer, requests: set<nat>, executor: Worker,
                         passed: nat, completes: set<nat>, responder: Worker, notified: seq<nat>)

  const INIT := State(0, Ready, {}, Idle, 0, {}, Idle, [])

  datatype Step =
    | DecidePriority | PushRequest
    | ExecutorSees | ExecutorTop(r: nat) | ExecutorPop(r: nat) | ExecutorPush
    | ResponderSees | ResponderTop(r: nat) | Notify | ResponderPop(r: nat)

  ghost predicate Next(s: State, t: State, step: Step) {
    match step
    case DecidePriority => s.producer == Ready && t == s.(producer := Numbered(s.issued), issued := s.issued + 1)
    case PushRequest => s.producer.Numbered? && t == s.(producer := Ready, requests := s.requests + {s.producer.r})
    case ExecutorSees => s.executor == Idle && s.requests != {} && t == s.(executor := NonEmpty)
    case ExecutorTop(r) => s.executor == NonEmpty && IsTop(s.requests, r) && t == s.(executor := Peeked(r))
    case ExecutorPop(r) =>
      && s.executor.Peeked? && IsTop(s.requests, r)
      && t == s.(executor := Done(s.executor.r), requests := s.requests - {r})
    case ExecutorPush =>
      s.executor.Done? && t == s.(executor := Idle, passed := s.passed + 1, completes := s.completes + {s.executor.r})
    case ResponderSees => s.responder == Idle && s.completes != {} && t == s.(responder := NonEmpty)
    case ResponderTop(r) => s.responder == NonEmpty && IsTop(s.completes, r) && t == s.(responder := Peeked(r))
    case Notify =>
      s.responder.Peeked? && t == s.(responder := Done(s.responder.r), notified := s.notified + [s.responder.r])
    case ResponderPop(r) =>
      s.responder.Done? && IsTop(s.completes, r) && t == s.(responder := Idle, completes := s.completes - {r})
  }

  /** A run: one more state than steps, starting with nothing issued. */
  ghost predicate Run(states: seq<State>, steps: seq<Step>) {
    && |states| == |steps| + 1 && states[0] == INIT
    && forall i :: 0 <= i < |steps| ==> Next(states[i], states[i + 1], steps[i])
  }

  // ----- What the pipeline guarantees

  predicate Within(lo: int, x: nat, hi: int) { lo <= x < hi }

  function Range(lo: int, hi: int): set<nat> { set x: nat | x < hi && Within(lo, x, hi) }

  /** The requests 0, 1, 2, ... */
  ghost predicate Counting(s: seq<nat>) { forall i :: 0 <= i < |s| ==> s[i] == i }

  /** Where a request can be on its way. */
  ghost predicate Held(s: State, r: nat) {
    || s.producer == Numbered(r) || r in s.requests || s.executor == Done(r)
    || r in s.completes || r in s.notified
  }

  /** No request is lost or invented, and notifications come once each, in issue order. */
  ghost predicate Orderly(s: State) {
    && (forall r: nat :: Held(s, r) <==> r in Range(0, s.issued))
    && Counting(s.notified)
  }

  /** The pop of a worker removes the element it looked at before. */
  ghost predicate PopsWhatItPeeked(s: State, step: Step) {
    && (step.ExecutorPop? ==> s.executor == Peeked(step.r))
    && (step.ResponderPop? ==> s.responder == Done(step.r))
  }

  function Pushed(s: State): int { if s.producer == Ready then s.issued else s.issued - 1 }

  function Front(s: State): int { if s.responder.Done? then |s.notified| - 1 else |s.notified| }

  /** Every stage holds consecutive requests: from Front up to `passed` in the complete queue, from there
      up to Pushed in the request queue, less the one the execute worker holds. */
  ghost predicate Invariant(s: State) {
    && 0 <= Front(s) <= s.passed <= Pushed(s)
    && (s.producer.Numbered? ==> s.producer.r == Pushed(s))
    && s.requests == Range(if s.executor.Done? then s.passed + 1 else s.passed, Pushed(s))
    && (s.executor != Idle ==> s.passed < Pushed(s))
    && (s.executor.Peeked? || s.executor.Done? ==> s.executor.r == s.passed)
    && s.completes == Range(Front(s), s.passed)
    && (s.responder != Idle ==> Front(s) < s.passed)
    && (s.responder.Peeked? || s.responder.Done? ==> s.responder.r == Front(s))
    && Counting(s.notified)
  }

  lemma FirstIsTop(lo: nat, hi: int, r: nat)
    requires hi <= TWO_31 && IsTop(Range(lo, hi), r)
    ensures r == lo
  {
    assert lo in Range(lo, hi) && r in Range(lo, hi);
  }

  lemma ResponderStep(s: State, t: State, step: Step)
    requires Invariant(s) && Next(s, t, step) && t.issued <= TWO_31
    requires step.ResponderSees? || step.ResponderTop? || step.Notify? || step.ResponderPop?
    ensures Invariant(t) && PopsWhatItPeeked(s, step)
  {
    match step {
      case ResponderSees => var x :| x in s.completes;
      case ResponderTop(r) => FirstIsTop(Front(s), s.passed, r);
      case Notify =>
      case ResponderPop(r) => FirstIsTop(Front(s), s.passed, r);
    }
  }

  lemma ProducerStep(s: State, t: State, step: Step)
    requires Invariant(s) && Next(s, t, step) && t.issued <= TWO_31
    requires step.DecidePriority? || step.PushRequest?
    ensures Invariant(t) && PopsWhatItPeeked(s, step)
  {}

  lemma ExecutorStep(s: State, t: State, step: Step)
    requires Invariant(s) && Next(s, t, step) && t.issued <= TWO_31
    requires step.ExecutorSees? || step.ExecutorTop? || step.ExecutorPop? || step.ExecutorPush?
    ensures Invariant(t) && PopsWhatItPeeked(s, step)
  {
    match step {
      case ExecutorSees => var x :| x in s.requests;
      case ExecutorTop(r) => FirstIsTop(s.passed, Pushed(s), r);
      case ExecutorPop(r) => FirstIsTop(s.passed, Pushed(s), r);
      case ExecutorPush =>
    }
  }

  lemma StepKeepsInvariant(s: State, t: State, step: Step)
    requires Invariant(s) && Next(s, t, step) && t.issued <= TWO_31
    ensures Invariant(t) && PopsWhatItPeeked(s, step)
  {
    hide Invariant, Next, PopsWhatItPeeked;
    match step {
      case DecidePriority => ProducerStep(s, t, step);
      case PushRequest => ProducerStep(s, t, step);
      case ResponderSees => ResponderStep(s, t, step);
      case ResponderTop(r) => ResponderStep(s, t, step);
      case Notify => ResponderStep(s, t, step);
      case ResponderPop(r) => ResponderStep(s, t, step);
      case _ => ExecutorStep(s, t, step);
    }
  }

  lemma InvariantIsOrderly(s: State)
    requires Invariant(s)
    ensures Orderly(s)
  {
    forall r: nat
      ensures Held(s, r) <==> r in Range(0, s.issued)
    {
      assert r < |s.notified| ==> s.notified[r] == r;
      assert r in s.notified <==> r < |s.notified|;
    }
  }

  lemma IssuedGrows(states: seq<State>, steps: seq<Step>, i: nat)
    requires Run(states, steps) && i < |states|
    ensures states[i].issued <= states[|states| - 1].issued
    decreases |states| - i
  {
    if i < |steps| {
      IssuedGrows(states, steps, i + 1);
      assert Next(states[i], states[i + 1], steps[i]);
    }
  }

  lemma {:induction false} InvariantHolds(states: seq<State>, steps: seq<Step>, i: nat)
    requires Run(states, steps) && states[|states| - 1].issued <= TWO_31 && i < |states|
    ensures Invariant(states[i])
    ensures i > 0 ==> PopsWhatItPeeked(states[i - 1], steps[i - 1])
    decreases i
  {
    if i == 0 {
    } else {
      InvariantHolds(states, steps, i - 1);
      IssuedGrows(states, steps, i);
      assert Next(states[i - 1], states[i], steps[i - 1]);
      StepKeepsInvariant(states[i - 1], states[i], steps[i - 1]);
    }
  }

  /** What is promised of a run. */
  ghost predicate Correct(states: seq<State>, steps: seq<Step>)
    requires |states| == |steps| + 1
  {
    && (forall i :: 0 <= i < |states| ==> Orderly(states[i]))
    && (forall i :: 0 <= i < |steps| ==> PopsWhatItPeeked(states[i], steps[i]))
  }

  lemma RunCorrect(states: seq<State>, steps: seq<Step>)
    requires Run(states, steps) && states[|states| - 1].issued <= TWO_31
    ensures Correct(states, steps)
  {
    forall i | 0 <= i < |states|
      ensures Orderly(states[i])
      ensures i < |steps| ==> PopsWhatItPeeked(states[i], steps[i])
    {
      InvariantHolds(states, steps, i);
      InvariantIsOrderly(states[i]);
      if i < |steps| { InvariantHolds(states, steps, i + 1); }
    }
  }

  // ----- The bound of 2^31 requests is exact

  /** Runs of up to n requests are all correct. */
  ghost predicate SafeFor(n: nat) {
    forall states: seq<State>, steps: seq<Step> ::
      Run(states, steps) && states[|states| - 1].issued <= n ==> Correct(states, steps)
  }

  function Count(n: nat): (s: seq<nat>)
    ensures |s| == n && Counting(s)
  {
    seq(n, i => i)
  }

  /** n requests have gone all the way through. */
  function Drained(n: nat): State { State(n, Ready, {}, Idle, n, {}, Idle, Count(n)) }

  ghost predicate Reaches(s: State) {
    exists states: seq<State>, steps: seq<Step> :: Run(states, steps) && states[|states| - 1] == s
  }

  lemma Extend(s: State, t: State, step: Step)
    requires Reaches(s) && Next(s, t, step)
    ensures Reaches(t)
  {
    var states: seq<State>, steps: seq<Step> :| Run(states, steps) && states[|states| - 1] == s;
    var longer, more := states + [t], steps + [step];
    forall i | 0 <= i < |more|
      ensures Next(longer[i], longer[i + 1], more[i])
    {
      if i < |steps| { assert Next(states[i], states[i + 1], steps[i]); }
    }
    assert Run(longer, more);
  }

  lemma OnlyOneIsTop(r: nat)
    ensures IsTop({r}, r)
  {}

  /** One request is executed in an empty pipeline, and then notified. */
  lemma ExecuteOne(n: nat)
    requires Reaches(Drained(n))
    ensures Reaches(Drained(n).(issued := n + 1, passed := n + 1, completes := {n}))
  {
    OnlyOneIsTop(n);
    var s0 := Drained(n);
    var s1 := s0.(producer := Numbered(n), issued := n + 1);
    var s2 := s1.(producer := Ready, requests := {n});
    var s3 := s2.(executor := NonEmpty);
    var s4 := s3.(executor := Peeked(n));
    var s5 := s4.(executor := Done(n), requests := {});
    var s6 := s5.(executor := Idle, passed := n + 1, completes := {n});
    assert s1.requests + {n} == {n} && s4.requests - {n} == {} && s5.completes + {n} == {n};
    Extend(s0, s1, DecidePriority);
    Extend(s1, s2, PushRequest);
    Extend(s2, s3, ExecutorSees);
    Extend(s3, s4, ExecutorTop(n));
    Extend(s4, s5, ExecutorPop(n));
    Extend(s5, s6, ExecutorPush);
  }

  lemma DrainOne(n: nat)
    requires Reaches(Drained(n))
    ensures Reaches(Drained(n + 1))
  {
    OnlyOneIsTop(n);
    ExecuteOne(n);
    var s6 := Drained(n).(issued := n + 1, passed := n + 1, completes := {n});
    var s7 := s6.(responder := NonEmpty);
    var s8 := s7.(responder := Peeked(n));
    var s9 := s8.(responder := Done(n), notified := Count(n) + [n]);
    var s10 := s9.(responder := Idle, completes := {});
    assert s9.completes - {n} == {};
    Extend(s6, s7, ResponderSees);
    Extend(s7, s8, ResponderTop(n));
    Extend(s8, s9, Notify);
    Extend(s9, s10, ResponderPop(n));
    assert Count(n + 1) == Count(n) + [n];
  }

  lemma {:induction false} Drain(n: nat)
    ensures Reaches(Drained(n))
  {
    if n == 0 {
      assert Drained(0) == INIT;
      assert Run([INIT], []);
      assert [INIT][|[INIT]| - 1] == INIT;
    } else {
      Drain(n - 1);
      DrainOne(n - 1);
    }
  }

  /** Request 2^31 - 1 has been peeked when request 2^31 arrives with the smallest priority of all. */
  lemma OvertakenState() returns (s: State)
    ensures Reaches(s) && s.issued == TWO_31 + 1
    ensures s.executor == Peeked(TWO_31 - 1) && s.requests == {TWO_31 - 1, TWO_31}
    ensures s.producer == Ready && s.completes == {} && s.notified == Count(TWO_31 - 1)
  {
    var n := TWO_31 - 1;
    Drain(n);
    OnlyOneIsTop(n);
    var s0 := Drained(n);
    var s1 := s0.(producer := Numbered(n), issued := n + 1);
    var s2 := s1.(producer := Ready, requests := {n});
    var s3 := s2.(executor := NonEmpty);
    var s4 := s3.(executor := Peeked(n));
    var s5 := s4.(producer := Numbered(n + 1), issued := n + 2);
    s := s5.(producer := Ready, requests := {n, n + 1});
    assert s1.requests + {n} == {n} && s5.requests + {n + 1} == {n, n + 1};
    Extend(s0, s1, DecidePriority);
    Extend(s1, s2, PushRequest);
    Extend(s2, s3, ExecutorSees);
    Extend(s3, s4, ExecutorTop(n));
    Extend(s4, s5, DecidePriority);
    Extend(s5, s, PushRequest);
  }

  /** With one request more, a run pops what it never peeked: that request is lost, the other is queued
      twice. */
  lemma OneMoreRequestFails()
    ensures !SafeFor(0x8000_0001)
  {
    var s := OvertakenState();
    var t := s.(executor := Done(TWO_31 - 1), requests := {TWO_31 - 1});
    assert IsTop(s.requests, TWO_31);
    assert s.requests - {TWO_31} == {TWO_31 - 1};
    assert Next(s, t, ExecutorPop(TWO_31));
    Extend(s, t, ExecutorPop(TWO_31));
    var states: seq<State>, steps: seq<Step> :| Run(states, steps) && states[|states| - 1] == t;
    assert TWO_31 in Range(0, t.issued);
    assert !Held(t, TWO_31);
    assert !Orderly(states[|states| - 1]);
  }

  lemma SafeUpTo(n: nat)
    ensures SafeFor(n) <==> n <= 0x8000_0000
  {
    if n <= TWO_31 {
      forall states: seq<State>, steps: seq<Step> | Run(states, steps) && states[|states| - 1].issued <= n
        ensures Correct(states, steps)
      {
        RunCorrect(states, steps);
      }
    } else {
      OneMoreRequestFails();
      var states: seq<State>, steps: seq<Step> :|
        Run(states, steps) && states[|states| - 1].issued <= TWO_31 + 1 && !Correct(states, steps);
      assert states[|states| - 1].issued <= n;
    }
  }
}
