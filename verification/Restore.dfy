/** A service restored from a snapshot, and whether anyone can tell. */
module Restore {
  import opened Domain
  import opened Store
  import opened Views
  import opened Normalise
  import opened Calls
  import opened Services
  import opened Machine
  import opened Invariants
  import opened Interleavings
  import opened Trails
  import opened AuthorOrder
  import Json

  /** Equal counters, clock, users, edges and tweets; the tables may lay them out differently, with empty
      follow sets left behind or lists in another order. */
  ghost predicate Alike(a: Svc, b: Svc) {
    && a.userCtr == b.userCtr && a.tweetCtr == b.tweetCtr && a.clock == b.clock
    && SameView(a.store, b.store) && WellKeyed(a.store) && WellKeyed(b.store)
  }

  lemma StepAlike(a: Svc, b: Svc, call: Call, pc: Pc)
    requires Alike(a, b) && Fits(call, pc)
    ensures Step(a, call, pc).1 == Step(b, call, pc).1
    ensures Alike(Step(a, call, pc).0, Step(b, call, pc).0)
  {
    match call
    case FollowUser(from, to) =>
      if from != to && from in a.store.users && to in a.store.users {
        PutFollowEdges(a.store, Follow(from, to));
        PutFollowEdges(b.store, Follow(from, to));
      }
    case Unfollow(from, to) =>
      DeleteFollowEdges(a.store, from, to);
      DeleteFollowEdges(b.store, from, to);
    case Post(author, text) =>
      if pc.Stamped? && author in a.store.users {
        var t := Tweet(pc.tweetId, author, text, pc.at);
        PutTweetBag(a.store, t); PutTweetOwnLists(a.store, t);
        PutTweetBag(b.store, t); PutTweetOwnLists(b.store, t);
      }
    case _ =>
  }

  lemma AnswersAlike(a: Svc, b: Svc, o: Outcome, reply: Reply)
    requires Alike(a, b)
    ensures Answers(a, o, reply) <==> Answers(b, o, reply)
  {
    if o.ReadTimeline? { VisibleSame(a.store, b.store, o.user); }
  }

  /** With distinct ids a finished call has one reply. */
  lemma AnswersDetermined(s: Svc, o: Outcome, p: Reply, q: Reply)
    requires WellKeyed(s.store) && DistinctUserIds(s.store.users) && DistinctIds(AllTweets(s.store))
    requires Answers(s, o, p) && Answers(s, o, q)
    ensures p == q
  {
    match o
    case Finish(_) =>
    case ReadTimeline(user, limit) => TimelineDetermined(s.store, s.store, user, limit, p.tweets, q.tweets);
    case ReadStore(_, _, _) => SnapshotCanonical(s.store, s.store, p.state.store, q.state.store);
  }

  // ----- two services side by side under the same schedule -----

  ghost predicate SideBySide(m: State, n: State) {
    && Alike(m.svc, n.svc) && m.busy == n.busy && |m.hist| == |n.hist|
    && forall k | 0 <= k < |m.hist| :: m.hist[k].event == n.hist[k].event
  }

  lemma ActionSideBySide(m: State, n: State, a: Action)
    requires SideBySide(m, n) && Enabled(m, a)
    ensures Enabled(n, a) && SideBySide(Apply(m, a), Apply(n, a))
  {
    if !a.Invoke? {
      var b := m.busy[a.tid];
      StepAlike(m.svc, n.svc, b.call, b.pc);
      if a.Return? { AnswersAlike(m.svc, n.svc, Step(m.svc, b.call, b.pc).1, a.reply); }
      hide Step, Alike, Answers;
    }
  }

  /** The scheduler's part of an action: which thread moves, and the call it makes if it starts one. */
  datatype Choice = Start(tid: nat, call: Call) | Go(tid: nat)

  function ChoiceOf(a: Action): Choice {
    match a case Invoke(tid, call) => Start(tid, call) case Proceed(tid) => Go(tid) case Return(tid, _) => Go(tid)
  }

  lemma ChoiceDeterminesAction(base: Svc, m: State, a: Action, b: Action)
    requires Inv(base, m) && Accounted(base, m) && Enabled(m, a) && Enabled(m, b) && ChoiceOf(a) == ChoiceOf(b)
    ensures a == b
  {
    hide Step, ThreadOk, EntryOk;
    if a.Return? && b.Return? {
      var c := m.busy[a.tid];
      AnswersDetermined(m.svc, Step(m.svc, c.call, c.pc).1, a.reply, b.reply);
    }
  }

  lemma RunSideBySide(a: Svc, b: Svc, acts: seq<Action>, ms: seq<State>) returns (ns: seq<State>)
    requires Alike(a, b) && Run(a, acts, ms)
    ensures Run(b, acts, ns) && forall i | 0 <= i <= |acts| :: SideBySide(ms[i], ns[i])
  {
    hide Alike, Enabled, Apply, SideBySide;
    ns := [Quiet(b)];
    QuietSideBySide(a, b);
    for i := 0 to |acts|
      invariant |ns| == i + 1 && ns[0] == Quiet(b)
      invariant forall k | 0 <= k < i :: Enabled(ns[k], acts[k]) && ns[k + 1] == Apply(ns[k], acts[k])
      invariant forall k | 0 <= k <= i :: SideBySide(ms[k], ns[k])
    {
      ActionSideBySide(ms[i], ns[i], acts[i]);
      ns := ns + [Apply(ns[i], acts[i])];
    }
  }

  lemma QuietSideBySide(a: Svc, b: Svc)
    requires Alike(a, b)
    ensures SideBySide(Quiet(a), Quiet(b))
  { }

  lemma {:induction false} SameChoicesSameRun(a: Svc, acts: seq<Action>, ms: seq<State>, bcts: seq<Action>,
          ns: seq<State>, i: nat)
    requires AtRest(a) && Run(a, acts, ms) && Run(a, bcts, ns) && |acts| == |bcts| && i <= |acts|
    requires forall k | 0 <= k < |acts| :: ChoiceOf(acts[k]) == ChoiceOf(bcts[k])
    ensures acts[..i] == bcts[..i] && ms[i] == ns[i]
  {
    hide AtRest, Inv, Accounted, Enabled, Apply, ChoiceOf;
    if i > 0 {
      SameChoicesSameRun(a, acts, ms, bcts, ns, i - 1);
      RunAccounted(a, acts, ms, i - 1);
      ChoiceDeterminesAction(a, ms[i - 1], acts[i - 1], bcts[i - 1]);
      assert acts[..i] == acts[..i - 1] + [acts[i - 1]] && bcts[..i] == bcts[..i - 1] + [bcts[i - 1]];
    }
  }

  // ----- snapshot, then load -----

  /** A snapshot taken with no other call in flight: what `snapshot_state` may capture when run alone. */
  ghost predicate TakenAlone(s: Svc, x: ServiceState) {
    x.clockNow == s.clock && x.idCounterUsers == s.userCtr && x.idCounterTweets == s.tweetCtr
        && IsSnapshot(s.store, x.store)
  }

  lemma TakenAloneIsTheCall(s: Svc, x: ServiceState)
    ensures TakenAlone(s, x) <==> var (e, o) := Alone(s, SnapshotState, Begin); e == s && Answers(e, o, Captured(x))
  {
    AloneSnapshot(s);
  }

  lemma LoadAlike(s: Svc, x: ServiceState)
    requires AtRest(s) && TakenAlone(s, x)
    ensures Alike(s, Load(x)) && AtRest(Load(x))
  {
    RestoreSameView(s.store, x.store);
  }

  /** The restored service can do exactly what the original can: every run of either, under any
      interleaving of calls, is matched by a run of the other with the same invocations and replies. */
  lemma RestoredServiceBisimilar(base: Svc, m: State, x: ServiceState, acts: seq<Action>, ms: seq<State>)
    requires Reachable(base, m) && m.busy == map[] && TakenAlone(m.svc, x)
    ensures Run(m.svc, acts, ms) ==> exists ns :: Run(Load(x), acts, ns) && SideBySide(ms[|acts|], ns[|acts|])
    ensures Run(Load(x), acts, ms) ==> exists ns :: Run(m.svc, acts, ns) && SideBySide(ns[|acts|], ms[|acts|])
  {
    QuiescentAtRest(base, m);
    LoadAlike(m.svc, x);
    hide AtRest, Enabled, Apply, TakenAlone;
    if Run(m.svc, acts, ms) { var ns := RunSideBySide(m.svc, Load(x), acts, ms); }
    if Run(Load(x), acts, ms) {
      AlikeSymmetric(m.svc, Load(x));
      var ns := RunSideBySide(Load(x), m.svc, acts, ms);
      SideBySideSymmetric(ms[|acts|], ns[|acts|]);
    }
  }

  lemma AlikeSymmetric(a: Svc, b: Svc)
    requires Alike(a, b)
    ensures Alike(b, a)
  { }

  lemma SideBySideSymmetric(m: State, n: State)
    requires SideBySide(m, n)
    ensures SideBySide(n, m)
  { }

  /** And no hash order can part them: the same schedule of calls gets the same reply from both, id for id,
      timestamp for timestamp, timeline for timeline and snapshot for snapshot. */
  lemma RestoredServiceIndistinguishable(base: Svc, m: State, x: ServiceState,
                                         acts: seq<Action>, ms: seq<State>, bcts: seq<Action>, ns: seq<State>)
    requires Reachable(base, m) && m.busy == map[] && TakenAlone(m.svc, x)
    requires Run(m.svc, acts, ms) && Run(Load(x), bcts, ns) && |acts| == |bcts|
    requires forall k | 0 <= k < |acts| :: ChoiceOf(acts[k]) == ChoiceOf(bcts[k])
    ensures acts == bcts && SideBySide(ms[|acts|], ns[|acts|])
  {
    QuiescentAtRest(base, m);
    LoadAlike(m.svc, x);
    hide AtRest, Enabled, Apply, TakenAlone, ChoiceOf;
    var ks := RunSideBySide(m.svc, Load(x), acts, ms);
    SameChoicesSameRun(Load(x), acts, ks, bcts, ns, |acts|);
    assert acts[..|acts|] == acts && bcts[..|bcts|] == bcts;
  }

  /** The same through the admin endpoints: whatever unknown fields the JSON has picked up on its way, it
      parses, and what is then loaded matches the original run for run. */
  lemma RestoredFromJsonBisimilar(base: Svc, m: State, x: ServiceState, v: Json.Value, acts: seq<Action>,
                                  ms: seq<State>)
    requires Reachable(base, m) && m.busy == map[] && TakenAlone(m.svc, x)
    requires Json.InRange(x) && Json.SameKnownFields(v, Json.StateToJson(x))
    ensures Json.ParseState(v).Good?
    ensures var y := Json.ParseState(v).value;
            && Alike(m.svc, Load(y))
            && (Run(m.svc, acts, ms) ==> exists ns :: Run(Load(y), acts, ns) && SideBySide(ms[|acts|], ns[|acts|]))
            && (Run(Load(y), acts, ms) ==> exists ns :: Run(m.svc, acts, ns) && SideBySide(ns[|acts|], ms[|acts|]))
  {
    hide AtRest, TakenAlone, Json.StateToJson, Json.SameKnownFields, Alike, Load, Enabled, Apply, SideBySide;
    Json.ParsesExactly(v, x);
    QuiescentAtRest(base, m);
    LoadAlike(m.svc, x);
    RestoredServiceBisimilar(base, m, x, acts, ms);
  }

  // ----- every snapshot of a run from a new service fits the JSON form -----

  lemma {:induction false} CountAtMost(hist: seq<Entry>, what: Event -> bool)
    ensures Count(hist, what) <= |hist|
  {
    if hist != [] { CountAtMost(hist[..|hist| - 1], what); }
  }

  /** Counters, clock, ids and timestamps of a run from a new service lie between 0 and its number of actions. */
  ghost predicate WithinSteps(s: Svc, n: nat) {
    && 0 <= s.clock <= n && 0 <= s.userCtr <= n && 0 <= s.tweetCtr <= n
    && (forall u | u in s.store.users.Values :: 0 <= u.id <= n)
    && (forall t | t in AllTweets(s.store) :: 0 <= t.id <= n && 0 <= t.createdAt <= n)
  }

  lemma RunWithinSteps(m: State)
    requires Reachable(NEW, m)
    ensures WithinSteps(m.svc, |m.hist|)
  {
    CountersWithinSteps(m);
    ReachableInv(NEW, m);
    hide Inv, EntryOk, ThreadOk;
    forall t | t in AllTweets(m.svc.store) ensures 0 <= t.createdAt { DatedSinceNew(m, t); }
  }

  lemma CountersWithinSteps(m: State)
    requires Reachable(NEW, m)
    ensures 0 <= m.svc.clock <= |m.hist| && 0 <= m.svc.userCtr <= |m.hist| && 0 <= m.svc.tweetCtr <= |m.hist|
  {
    ReachableInv(NEW, m);
    NowIsLast(NEW, m);
    hide Inv, Accounted, Reachable;
    assert m.hist[..|m.hist|] == m.hist;
    CountersCount(NEW, m, |m.hist|);
    CountAtMost(m.hist, IsTick);
    CountAtMost(m.hist, DrawsUserId);
    CountAtMost(m.hist, DrawsTweetId);
  }

  lemma DatedSinceNew(m: State, t: Tweet)
    requires Reachable(NEW, m) && t in AllTweets(m.svc.store)
    ensures 0 <= t.createdAt
  {
    ReachableInv(NEW, m);
    AllTweetsCount(m.svc.store, t);
    ListsInReturnOrder(NEW, m, t.author);
    assert t in ListOf(m.svc.store.byAuthor, t.author);
    hide Accepted;
    AcceptedSince(NEW, m, t.author, t);
  }

  /** The states of a run are reached by its first actions. */
  lemma ReachedAt(base: Svc, m: State, k: nat) returns (n: State)
    requires Reachable(base, m) && k < |m.hist|
    ensures Reachable(base, n) && n.svc == m.hist[k].after && |n.hist| == k + 1
  {
    hide AtRest, Enabled, Apply;
    var acts, ms :| Run(base, acts, ms) && m == ms[|acts|];
    HistoryFollowsRun(base, acts, ms, |acts|);
    HistoryFollowsRun(base, acts, ms, k + 1);
    n := ms[k + 1];
    assert Run(base, acts[..k + 1], ms[..k + 2]);
    assert ms[..k + 2][|acts[..k + 1]|] == n;
  }

  lemma CaptureInRange(s: Svc, n: nat, x: ServiceState)
    requires WithinSteps(s, n) && n <= 9223372036854775807 && IsSnapshot(s.store, x.store)
    requires 0 <= x.clockNow <= n && 0 <= x.idCounterUsers <= n && 0 <= x.idCounterTweets <= n
    ensures Json.InRange(x)
  {
    hide AllTweets;
    forall u | u in x.store.users ensures Json.IsI64(u.id) { assert u in multiset(x.store.users); }
    forall t | t in x.store.tweets ensures Json.IsI64(t.id) && Json.IsI64(t.createdAt) {
      assert t in multiset(x.store.tweets);
    }
  }

  /** What any snapshot of a run of fewer than 2^63 actions captures, overlapped or not, has i64 fields. */
  lemma CapturedInRange(m: State, k: nat, x: ServiceState)
    requires Reachable(NEW, m) && Returns(m.hist, k, Captured(x)) && |m.hist| <= 9223372036854775807
    ensures Json.InRange(x)
  {
    ReachableRan(NEW, m);
    CapturedAt(NEW, m, k, x);
    var n := ReachedAt(NEW, m, k);
    RunWithinSteps(n);
    hide Reachable, Ran, IsSnapshot, WithinSteps;
    var now, users, tweets := CaptureNumbered(NEW, m, k, x);
    CountAtMost(m.hist[..now], IsTick);
    CountAtMost(m.hist[..users], DrawsUserId);
    CountAtMost(m.hist[..tweets], DrawsTweetId);
    CaptureInRange(n.svc, k + 1, x);
  }

  /** So a service restored from the JSON of a snapshot of such a run, taken alone, matches the original. */
  lemma NewServiceRestoredFromJson(m: State, x: ServiceState, v: Json.Value, acts: seq<Action>, ms: seq<State>)
    requires Reachable(NEW, m) && m.busy == map[] && |m.hist| <= 9223372036854775807 && TakenAlone(m.svc, x)
    requires Json.SameKnownFields(v, Json.StateToJson(x))
    ensures Json.ParseState(v) == Json.Good(x)
    ensures Run(m.svc, acts, ms) ==> exists ns :: Run(Load(x), acts, ns) && SideBySide(ms[|acts|], ns[|acts|])
    ensures Run(Load(x), acts, ms) ==> exists ns :: Run(m.svc, acts, ns) && SideBySide(ns[|acts|], ms[|acts|])
  {
    RunWithinSteps(m);
    CaptureInRange(m.svc, |m.hist|, x) by { assert TakenAlone(m.svc, x); }
    hide Reachable, TakenAlone, Json.StateToJson, Json.SameKnownFields, Json.InRange, Load, Enabled, Apply, SideBySide;
    Json.ParsesExactly(v, x);
    RestoredServiceBisimilar(NEW, m, x, acts, ms);
  }
}
