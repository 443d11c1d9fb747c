/** When a run is one call at a time with nothing left out, ids, timestamps and captured counters included. */
module Calm {
  import opened Calls
  import opened Services
  import opened Machine
  import opened Invariants
  import opened Interleavings
  import opened Reference

  predicate HoldsUserId(pc: Pc) { pc.UserIdTaken? }

  predicate HoldsTweetId(pc: Pc) { pc.TweetIdTaken? || pc.Stamped? }

  predicate Reading(pc: Pc) { pc.ClockRead? || pc.UserCtrRead? || pc.TweetCtrRead? }

  /** Two calls that both hold an id of one kind, or a snapshot under way beside one that holds an id. */
  predicate Clash(p: Pc, q: Pc) {
    || (HoldsUserId(p) && HoldsUserId(q)) || (HoldsTweetId(p) && HoldsTweetId(q))
    || (Reading(p) && (HoldsUserId(q) || HoldsTweetId(q))) || (Reading(q) && (HoldsUserId(p) || HoldsTweetId(p)))
  }

  /** The action leads to no clash, and does not tick the clock under a stamped post or a snapshot under way. */
  ghost predicate Undisturbed(m: State, a: Action)
    requires Enabled(m, a)
  {
    match a
    case Invoke(_, _) => true
    case Proceed(tid) => forall q | q in m.busy && q != tid :: !Clash(Apply(m, a).busy[tid].pc, m.busy[q].pc)
    case Return(tid, _) => m.busy[tid].call.Tick? ==> forall q | q in m.busy ::
        !m.busy[q].pc.Stamped? && !Reading(m.busy[q].pc)
  }

  /** `s` is the shared state without the ids that calls in flight hold; what they hold and have read of it is
      still current. */
  ghost predicate Settled(s: Svc, m: State) {
    && s.store == m.svc.store && s.clock == m.svc.clock
    && (forall p, q | p in m.busy && q in m.busy && p != q :: !Clash(m.busy[p].pc, m.busy[q].pc))
    && (forall p | p in m.busy :: Current(s, m.svc, m.busy[p].pc))
    && (s.userCtr == m.svc.userCtr || exists p :: p in m.busy && HoldsUserId(m.busy[p].pc))
    && (s.tweetCtr == m.svc.tweetCtr || exists p :: p in m.busy && HoldsTweetId(m.busy[p].pc))
  }

  ghost predicate Current(s: Svc, now: Svc, pc: Pc) {
    match pc
    case UserIdTaken(id) => id == now.userCtr == s.userCtr + 1
    case TweetIdTaken(id) => id == now.tweetCtr == s.tweetCtr + 1
    case Stamped(id, at) => id == now.tweetCtr == s.tweetCtr + 1 && at == now.clock
    case ClockRead(clock) => clock == now.clock
    case UserCtrRead(clock, uc) => clock == now.clock && uc == now.userCtr
    case TweetCtrRead(clock, uc, tc) => clock == now.clock && uc == now.userCtr && tc == now.tweetCtr
    case _ => true
  }

  /** A call in flight still holds what it held unless it is the one that moved. */
  lemma HoldersStay(m: State, a: Action)
    requires Enabled(m, a)
    ensures var n := Apply(m, a);
            && (forall p | p in m.busy && p != a.tid :: p in n.busy && n.busy[p] == m.busy[p])
            && (forall p | p in n.busy && p != a.tid :: p in m.busy && n.busy[p] == m.busy[p])
  { }

  lemma InvokeSettled(s: Svc, m: State, a: Action)
    requires Settled(s, m) && a.Invoke? && Enabled(m, a)
    ensures Settled(s, Apply(m, a))
  {
    var n := Apply(m, a);
    HoldersStay(m, a);
    assert n.svc == m.svc && n.busy[a.tid].pc == Begin && a.tid !in m.busy;
    hide Apply, Clash, Current;
    forall p, q | p in n.busy && q in n.busy && p != q ensures !Clash(n.busy[p].pc, n.busy[q].pc) {
      BeginFree(s, m.svc, n.busy[p].pc);
      BeginFree(s, m.svc, n.busy[q].pc);
    }
    forall p | p in n.busy ensures Current(s, n.svc, n.busy[p].pc) { BeginFree(s, m.svc, Begin); }
    if s.userCtr != m.svc.userCtr {
      var p :| p in m.busy && HoldsUserId(m.busy[p].pc);
      assert p in n.busy && HoldsUserId(n.busy[p].pc);
    }
    if s.tweetCtr != m.svc.tweetCtr {
      var p :| p in m.busy && HoldsTweetId(m.busy[p].pc);
      assert p in n.busy && HoldsTweetId(n.busy[p].pc);
    }
  }

  lemma BeginFree(s: Svc, now: Svc, pc: Pc)
    ensures Current(s, now, Begin) && !Clash(Begin, pc) && !Clash(pc, Begin)
  { }

  lemma StepCurrent(s: Svc, now: Svc, call: Call, pc: Pc)
    requires Fits(call, pc) && Step(now, call, pc).1.Continue? && Current(s, now, pc)
    requires HoldsUserId(Step(now, call, pc).1.pc) ==> s.userCtr == now.userCtr
    requires HoldsTweetId(Step(now, call, pc).1.pc) && !HoldsTweetId(pc) ==> s.tweetCtr == now.tweetCtr
    ensures var (next, o) := Step(now, call, pc);
            && Current(s, next, o.pc) && next.store == now.store && next.clock == now.clock
            && next.userCtr == now.userCtr + (if HoldsUserId(o.pc) then 1 else 0)
            && next.tweetCtr == now.tweetCtr + (if HoldsTweetId(o.pc) && !HoldsTweetId(pc) then 1 else 0)
            && (HoldsTweetId(pc) ==> HoldsTweetId(o.pc)) && !HoldsUserId(pc)
  { }

  /** What one call holds and has read stays current when another draws an id it does not clash with. */
  lemma StaysCurrent(s: Svc, now: Svc, next: Svc, pc: Pc, other: Pc)
    requires Current(s, now, pc) && !Clash(pc, other) && next.clock == now.clock
    requires next.userCtr == now.userCtr || HoldsUserId(other)
    requires next.tweetCtr == now.tweetCtr || HoldsTweetId(other)
    ensures Current(s, next, pc)
  { }

  lemma ProceedSettled(s: Svc, m: State, a: Action)
    requires Settled(s, m) && a.Proceed? && Enabled(m, a) && Undisturbed(m, a)
    ensures Settled(s, Apply(m, a))
  {
    var n, b := Apply(m, a), m.busy[a.tid];
    HoldersStay(m, a);
    NewHolder(s, m, a);
    StepCurrent(s, m.svc, b.call, b.pc);
    hide Step, Clash, Current;
    assert n.svc == Step(m.svc, b.call, b.pc).0 && n.busy[a.tid].pc == Step(m.svc, b.call, b.pc).1.pc;
    forall p | p in n.busy ensures Current(s, n.svc, n.busy[p].pc) {
      if p != a.tid {
        ClashSymmetric(n.busy[a.tid].pc, m.busy[p].pc);
        StaysCurrent(s, m.svc, n.svc, m.busy[p].pc, n.busy[a.tid].pc);
      }
    }
    forall p, q | p in n.busy && q in n.busy && p != q ensures !Clash(n.busy[p].pc, n.busy[q].pc) {
      ClashSymmetric(n.busy[p].pc, n.busy[q].pc);
    }
    HoldersKept(s, m, a);
  }

  lemma ClashSymmetric(p: Pc, q: Pc)
    ensures Clash(p, q) <==> Clash(q, p)
  { }

  /** Who draws an id finds none of that kind held. */
  lemma NewHolder(s: Svc, m: State, a: Action)
    requires Settled(s, m) && a.Proceed? && Enabled(m, a) && Undisturbed(m, a)
    ensures var (pc, next) := (m.busy[a.tid].pc, Step(m.svc, m.busy[a.tid].call, m.busy[a.tid].pc).1.pc);
            && (HoldsUserId(next) ==> s.userCtr == m.svc.userCtr)
            && (HoldsTweetId(next) && !HoldsTweetId(pc) ==> s.tweetCtr == m.svc.tweetCtr)
  {
    var pc, next := m.busy[a.tid].pc, Step(m.svc, m.busy[a.tid].call, m.busy[a.tid].pc).1.pc;
    StepOnce(m.svc, m.busy[a.tid].call, pc);
    hide Step, Current;
    assert Apply(m, a).busy[a.tid].pc == next;
    forall q | q in m.busy && q != a.tid ensures !Clash(next, m.busy[q].pc) { }
  }

  lemma StepOnce(s: Svc, call: Call, pc: Pc)
    requires Fits(call, pc) && Step(s, call, pc).1.Continue?
    ensures !HoldsUserId(pc)
  { }

  lemma HoldersKept(s: Svc, m: State, a: Action)
    requires Settled(s, m) && a.Proceed? && Enabled(m, a)
    ensures var n := Apply(m, a);
            && (s.userCtr == n.svc.userCtr || exists p :: p in n.busy && HoldsUserId(n.busy[p].pc))
            && (s.tweetCtr == n.svc.tweetCtr || exists p :: p in n.busy && HoldsTweetId(n.busy[p].pc))
  {
    var n, b := Apply(m, a), m.busy[a.tid];
    HoldersStay(m, a);
    StepDraws(m.svc, b.call, b.pc);
    StepOnce(m.svc, b.call, b.pc);
    KeepsTweetId(m.svc, b.call, b.pc);
    hide Step, Current, Clash;
    assert a.tid in n.busy && n.busy[a.tid].pc == Step(m.svc, b.call, b.pc).1.pc
        && n.svc == Step(m.svc, b.call, b.pc).0;
    if s.userCtr != m.svc.userCtr {
      var p :| p in m.busy && HoldsUserId(m.busy[p].pc);
      assert p in n.busy && HoldsUserId(n.busy[p].pc);
    }
    if s.tweetCtr != m.svc.tweetCtr {
      var p :| p in m.busy && HoldsTweetId(m.busy[p].pc);
      assert p in n.busy && HoldsTweetId(n.busy[p].pc);
    }
  }

  lemma KeepsTweetId(s: Svc, call: Call, pc: Pc)
    requires Fits(call, pc) && Step(s, call, pc).1.Continue?
    ensures HoldsTweetId(pc) ==> HoldsTweetId(Step(s, call, pc).1.pc)
  { }

  // ----- the last step of a call, against the call run alone -----

  /** What the call comes to from the settled state `s`, in which its own id is not drawn yet. */
  ghost predicate IsOneCall(s: Svc, now: Svc, call: Call, pc: Pc, reply: Reply, s': Svc)
    requires Fits(call, pc)
  {
    var end := Step(now, call, pc).0;
    && OneCall(s, call, reply, s') && s'.store == end.store && s'.clock == end.clock
    && s'.userCtr == s.userCtr + (if HoldsUserId(pc) then 1 else 0)
    && s'.tweetCtr == s.tweetCtr + (if HoldsTweetId(pc) then 1 else 0)
  }

  lemma LastStepIsOneCall(start: Svc, s: Svc, now: Svc, call: Call, pc: Pc, reply: Reply)
    requires Fits(call, pc) && Learnt(start, now, call, pc) && Answers(now, Step(now, call, pc).1, reply)
    requires s.store == now.store && s.clock == now.clock && Current(s, now, pc)
    requires Reading(pc) ==> s == now
    ensures IsOneCall(s, now, call, pc, reply, Alone(s, call, Begin).0)
  {
    match call
    case CreateUser(handle) => if handle != "" { AloneCreate(s, handle); }
    case Unfollow(from, to) => AloneUnfollow(s, from, to);
    case Post(author, text) => if pc.Stamped? { AlonePost(s, author, text); }
    case SnapshotState => AloneSnapshot(s);
    case _ =>
  }

  /** A snapshot under way beside no call that holds an id sees the settled state. */
  lemma ReaderSettled(s: Svc, m: State, tid: nat)
    requires Settled(s, m) && tid in m.busy && Reading(m.busy[tid].pc)
    ensures s == m.svc
  {
    hide Current;
    assert forall q | q in m.busy && q != tid :: !Clash(m.busy[tid].pc, m.busy[q].pc);
  }

  lemma LastStepStill(s: Svc, call: Call, pc: Pc)
    requires Fits(call, pc) && !Step(s, call, pc).1.Continue?
    ensures var end := Step(s, call, pc).0;
            end.userCtr == s.userCtr && end.tweetCtr == s.tweetCtr && (!call.Tick? ==> end.clock == s.clock)
  { }

  lemma OthersCurrent(s: Svc, now: Svc, pc: Pc, own: Pc, s': Svc, end: Svc)
    requires Current(s, now, pc) && !Clash(pc, own) && end.userCtr == now.userCtr && end.tweetCtr == now.tweetCtr
    requires end.clock == now.clock || (!pc.Stamped? && !Reading(pc))
    requires s'.userCtr == s.userCtr + (if HoldsUserId(own) then 1 else 0)
    requires s'.tweetCtr == s.tweetCtr + (if HoldsTweetId(own) then 1 else 0)
    ensures Current(s', end, pc)
  { }

  lemma OwnCurrent(s: Svc, now: Svc, own: Pc)
    requires Current(s, now, own)
    ensures HoldsUserId(own) ==> s.userCtr + 1 == now.userCtr
    ensures HoldsTweetId(own) ==> s.tweetCtr + 1 == now.tweetCtr
  { }

  lemma AfterReturn(s: Svc, m: State, a: Action, s': Svc)
    requires Settled(s, m) && a.Return? && Enabled(m, a) && Undisturbed(m, a)
    requires IsOneCall(s, m.svc, m.busy[a.tid].call, m.busy[a.tid].pc, a.reply, s')
    ensures Settled(s', Apply(m, a))
  {
    var n, own := Apply(m, a), m.busy[a.tid].pc;
    HoldersStay(m, a);
    LastStepStill(m.svc, m.busy[a.tid].call, own);
    OwnCurrent(s, m.svc, own);
    hide Step, OneCall, Clash, Current, Answers;
    assert n.svc == Step(m.svc, m.busy[a.tid].call, own).0 && a.tid !in n.busy;
    forall p | p in n.busy ensures Current(s', n.svc, n.busy[p].pc) {
      OthersCurrent(s, m.svc, m.busy[p].pc, own, s', n.svc);
    }
    if s'.userCtr != n.svc.userCtr {
      var p :| p in m.busy && HoldsUserId(m.busy[p].pc);
      assert p in n.busy && HoldsUserId(n.busy[p].pc);
    }
    if s'.tweetCtr != n.svc.tweetCtr {
      var p :| p in m.busy && HoldsTweetId(m.busy[p].pc);
      assert p in n.busy && HoldsTweetId(n.busy[p].pc);
    }
  }

  lemma ReturnSettled(base: Svc, s: Svc, m: State, a: Action) returns (s': Svc)
    requires Inv(base, m) && Settled(s, m) && a.Return? && Enabled(m, a) && Undisturbed(m, a)
    ensures a.tid in m.busy && OneCall(s, m.busy[a.tid].call, a.reply, s') && Settled(s', Apply(m, a))
  {
    var b := m.busy[a.tid];
    s' := Alone(s, b.call, Begin).0;
    InvThread(base, m, a.tid);
    assert Learnt(m.hist[b.since].after, m.svc, b.call, b.pc);
    hide Inv, Accounted, Learnt, Alone, Step, Answers, Apply;
    if Reading(b.pc) { ReaderSettled(s, m, a.tid); }
    LastStepIsOneCall(m.hist[b.since].after, s, m.svc, b.call, b.pc, a.reply);
    hide Settled;
    AfterReturn(s, m, a, s');
  }

  // ----- whole runs -----

  function CallsOf(hist: seq<Entry>): seq<Call> {
    if hist == [] then []
    else
      var e := hist[|hist| - 1].event;
      CallsOf(hist[..|hist| - 1]) + if e.Returned? then [e.call] else []
  }

  function RepliesOf(hist: seq<Entry>): seq<Reply> {
    if hist == [] then []
    else
      var e := hist[|hist| - 1].event;
      RepliesOf(hist[..|hist| - 1]) + if e.Returned? then [e.reply] else []
  }

  lemma OneMoreEntry(m: State, a: Action)
    requires Enabled(m, a)
    ensures var n := Apply(m, a);
            && CallsOf(n.hist) == CallsOf(m.hist) + (if a.Return? then [m.busy[a.tid].call] else [])
            && RepliesOf(n.hist) == RepliesOf(m.hist) + (if a.Return? then [a.reply] else [])
  {
    hide Step, Answers;
    assert Apply(m, a).hist[..|m.hist|] == m.hist;
  }

  lemma OneMoreCall(calls: seq<Call>, replies: seq<Reply>, states: seq<Svc>, call: Call, reply: Reply, s': Svc)
    requires OneAtATime(calls, replies, states) && OneCall(states[|calls|], call, reply, s')
    ensures OneAtATime(calls + [call], replies + [reply], states + [s'])
  {
    hide OneCall;
  }

  /** If in a run no action is disturbed - no two calls hold ids of one kind together, none holds an id beside
      a snapshot under way, and no tick falls under a stamped post or a snapshot - then what the calls returned,
      in the order they returned, is what they give one at a time: ids, timestamps and counters included. */
  lemma {:induction false} CalmRunIsOneAtATime(acts: seq<Action>, ms: seq<State>, i: nat) returns (states: seq<Svc>)
    requires Run(NEW, acts, ms) && i <= |acts| && forall k | 0 <= k < i :: Undisturbed(ms[k], acts[k])
    ensures OneAtATime(CallsOf(ms[i].hist), RepliesOf(ms[i].hist), states)
    ensures Settled(states[|CallsOf(ms[i].hist)|], ms[i])
    ensures ms[i].busy == map[] ==> states[|CallsOf(ms[i].hist)|] == ms[i].svc
  {
    hide Inv, Accounted, AtRest, Settled, Undisturbed, OneCall, Apply, Enabled;
    if i == 0 {
      states := [NEW];
      NewSettled();
    } else {
      states := CalmRunIsOneAtATime(acts, ms, i - 1);
      var m, a, calls := ms[i - 1], acts[i - 1], CallsOf(ms[i - 1].hist);
      NewAtRest();
      RunAccounted(NEW, acts, ms, i - 1);
      OneMoreEntry(m, a);
      if a.Return? {
        var s' := ReturnSettled(NEW, states[|calls|], m, a);
        OneMoreCall(calls, RepliesOf(m.hist), states, m.busy[a.tid].call, a.reply, s');
        states := states + [s'];
      } else if a.Proceed? { ProceedSettled(states[|calls|], m, a); } else { InvokeSettled(states[|calls|], m, a); }
    }
    NothingHeld(states[|CallsOf(ms[i].hist)|], ms[i]);
  }

  lemma NothingHeld(s: Svc, m: State)
    requires Settled(s, m)
    ensures m.busy == map[] ==> s == m.svc
  { }

  /** So every reply of such a run is the one the log-based reference gives at that point. */
  lemma CalmRunRefinesLog(acts: seq<Action>, ms: seq<State>, j: nat)
    requires Run(NEW, acts, ms) && forall k | 0 <= k < |acts| :: Undisturbed(ms[k], acts[k])
    requires j < |CallsOf(ms[|acts|].hist)|
    ensures var calls, replies := CallsOf(ms[|acts|].hist), RepliesOf(ms[|acts|].hist);
            |replies| == |calls| && Replies(AfterAll(calls[..j]), calls[j], replies[j])
  {
    hide Undisturbed, Settled, OneCall, Enabled, Apply;
    var states := CalmRunIsOneAtATime(acts, ms, |acts|);
    OneAtATimeRefinesLog(CallsOf(ms[|acts|].hist), RepliesOf(ms[|acts|].hist), states, j);
  }

  lemma NewSettled()
    ensures Settled(NEW, Quiet(NEW)) && OneAtATime([], [], [NEW])
  { }
}
