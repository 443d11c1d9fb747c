/** Building runs step by step: a call left alone runs to its end, so calls one at a time are runs too. */
module Schedules {
  import opened Sorting
  import opened Store
  import opened Views
  import opened Calls
  import opened Machine
  import opened Invariants
  import opened Interleavings
  import opened Reference

  lemma RunsQuiet(base: Svc)
    ensures Runs(base, Quiet(base))
  {
    assert Run(base, [], [Quiet(base)]);
  }

  lemma RunsStep(base: Svc, m: State, a: Action)
    requires Runs(base, m) && Enabled(m, a)
    ensures Runs(base, Apply(m, a))
  {
    hide Enabled, Apply;
    var acts, ms :| Run(base, acts, ms) && m == ms[|acts|];
    var acts', ms' := acts + [a], ms + [Apply(m, a)];
    assert forall i | 0 <= i < |acts| :: Enabled(ms[i], acts[i]) && ms[i + 1] == Apply(ms[i], acts[i]);
    assert Run(base, acts', ms');
    assert ms'[|acts'|] == Apply(m, a);
  }

  /** Thread `tid` enters a call, takes one step of it, or leaves it with `reply`. */
  lemma Starts(base: Svc, m: State, tid: nat, call: Call) returns (n: State)
    requires Runs(base, m) && tid !in m.busy
    ensures Runs(base, n) && n == Apply(m, Invoke(tid, call))
  {
    hide Runs;
    RunsStep(base, m, Invoke(tid, call));
    n := Apply(m, Invoke(tid, call));
  }

  lemma Moves(base: Svc, m: State, tid: nat) returns (n: State)
    requires Runs(base, m) && tid in m.busy && Step(m.svc, m.busy[tid].call, m.busy[tid].pc).1.Continue?
    ensures Runs(base, n) && n == Apply(m, Proceed(tid))
  {
    hide Runs;
    RunsStep(base, m, Proceed(tid));
    n := Apply(m, Proceed(tid));
  }

  lemma Ends(base: Svc, m: State, tid: nat, reply: Reply) returns (n: State)
    requires Runs(base, m) && tid in m.busy && Answers(m.svc, Step(m.svc, m.busy[tid].call, m.busy[tid].pc).1, reply)
    ensures Runs(base, n) && n == Apply(m, Return(tid, reply))
  {
    hide Runs;
    RunsStep(base, m, Return(tid, reply));
    n := Apply(m, Return(tid, reply));
  }

  ghost predicate JustReturned(m: State, reply: Reply) {
    m.hist != [] && Returns(m.hist, |m.hist| - 1, reply)
  }

  /** A call left to itself runs to its end, other calls standing still. */
  lemma {:induction false} FinishAlone(base: Svc, m: State, tid: nat, reply: Reply) returns (n: State)
    requires Runs(base, m) && tid in m.busy
    requires var (e, o) := Alone(m.svc, m.busy[tid].call, m.busy[tid].pc); Answers(e, o, reply)
    ensures Runs(base, n) && n.busy == m.busy - {tid} && n.svc == Alone(m.svc, m.busy[tid].call, m.busy[tid].pc).0
    ensures m.hist < n.hist && JustReturned(n, reply)
    ensures forall i | |m.hist| <= i < |n.hist| :: !n.hist[i].event.Invoked?
    decreases Stage(m.busy[tid].pc)
  {
    hide Runs;
    var b := m.busy[tid];
    if Step(m.svc, b.call, b.pc).1.Continue? {
      RunsStep(base, m, Proceed(tid));
      n := FinishAlone(base, Apply(m, Proceed(tid)), tid, reply);
    } else {
      ReadsChangeNothing(m.svc, b.call, b.pc);
      hide Step;
      RunsStep(base, m, Return(tid, reply));
      n := Apply(m, Return(tid, reply));
    }
  }

  lemma ReadsChangeNothing(s: Svc, call: Call, pc: Pc)
    requires Fits(call, pc)
    ensures Step(s, call, pc).1.ReadTimeline? || Step(s, call, pc).1.ReadStore? ==> Step(s, call, pc).0 == s
  { }

  /** Thread `tid` makes a whole call while the others stand still. */
  lemma CallAlone(base: Svc, m: State, tid: nat, call: Call, reply: Reply) returns (n: State)
    requires Runs(base, m) && tid !in m.busy
    requires var (e, o) := Alone(m.svc, call, Begin); Answers(e, o, reply)
    ensures Runs(base, n) && n.busy == m.busy && n.svc == Alone(m.svc, call, Begin).0
    ensures m.hist < n.hist && JustReturned(n, reply)
    ensures forall i | |m.hist| <= i < |n.hist| && n.hist[i].event.Invoked? :: n.hist[i].event.call == call
  {
    hide Runs, Alone, Answers;
    RunsStep(base, m, Invoke(tid, call));
    n := FinishAlone(base, Apply(m, Invoke(tid, call)), tid, reply);
  }

  /** One-call-at-a-time runs are runs with at most one thread in the service, so everything proved of every
      interleaving, restoring included, holds of them. */
  lemma {:induction false} OneAtATimeReachable(calls: seq<Call>, replies: seq<Reply>, states: seq<Svc>, i: nat)
    returns (m: State)
    requires OneAtATime(calls, replies, states) && i <= |calls|
    ensures Reachable(NEW, m) && m.busy == map[] && m.svc == states[i]
  {
    hide Runs, AtRest, Alone, Answers;
    if i == 0 {
      NewAtRest();
      RunsQuiet(NEW);
      m := Quiet(NEW);
    } else {
      var p := OneAtATimeReachable(calls, replies, states, i - 1);
      assert OneCall(states[i - 1], calls[i - 1], replies[i - 1], states[i]);
      m := CallAlone(NEW, p, 0, calls[i - 1], replies[i - 1]);
    }
  }

  /** Every call has a reply: no schedule gets stuck. */
  lemma AnswerExists(s: Svc, o: Outcome) returns (reply: Reply)
    requires !o.Continue?
    ensures Answers(s, o, reply)
  {
    match o
    case Finish(r) => reply := r;
    case ReadTimeline(user, limit) =>
      NewestFirstTotal();
      var all := ListingExists(NewestFirst, Visible(s.store, user));
      CutIsTop(all, limit);
      reply := Timeline(Cut(all, limit));
    case ReadStore(now, uc, tc) =>
      var x := SnapshotExists(s.store);
      reply := Captured(ServiceState(now, uc, tc, x));
  }
}
