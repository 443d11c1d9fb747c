/** Every call takes effect at once, at its last lock acquisition: the order of the returns explains the run. */
module Linearization {
  import opened Domain
  import opened Store
  import opened Views
  import opened Calls
  import opened Machine
  import opened Invariants
  import opened Interleavings

  /** A completed call: what was asked, what was answered, and the state it was invoked in. */
  datatype Completion = Completion(call: Call, reply: Reply, start: Svc)

  /** Every return answers an earlier invocation of the same call by the same thread. */
  ghost predicate Answered(hist: seq<Entry>) {
    forall k | 0 <= k < |hist| && hist[k].event.Returned? ::
      hist[k].event.since < k && hist[hist[k].event.since].event == Invoked(hist[k].event.tid, hist[k].event.call)
  }

  ghost function Completed(hist: seq<Entry>): seq<Completion>
    requires Answered(hist)
  {
    if hist == [] then []
    else
      var e, done := hist[|hist| - 1].event, Completed(hist[..|hist| - 1]);
      if e.Returned? then done + [Completion(e.call, e.reply, hist[e.since].after)] else done
  }

  /** Nothing but ids drawn by calls still under way. */
  ghost predicate Drift(a: Svc, b: Svc) {
    b.store == a.store && b.clock == a.clock && a.userCtr <= b.userCtr && a.tweetCtr <= b.tweetCtr
  }

  /** No stored user or tweet already has the id the reply hands out. */
  ghost predicate FreshId(s: Svc, reply: Reply) {
    match reply
    case UserMade(u) => forall h | h in s.store.users :: s.store.users[h].id != u.id
    case Posted(t) => forall other | other in AllTweets(s.store) :: other.id != t.id
    case _ => true
  }

  /** One indivisible call from `s` to `s'`, invoked somewhere between `first` and `s`. */
  ghost predicate Effect(first: Svc, c: Completion, s: Svc, s': Svc) {
    Grows(first, c.start) && Grows(c.start, s) && AtOnce(c.start, s, c.call, c.reply, s') && FreshId(s, c.reply)
  }

  /** `done`, one indivisible call after another, leads from `s` to `s'` with those replies. */
  ghost predicate OneByOne(s: Svc, done: seq<Completion>, s': Svc)
    decreases |done|
  {
    if done == [] then Drift(s, s')
    else
      var n := |done| - 1;
      exists before, after :: OneByOne(s, done[..n], before) && Effect(s, done[n], before, after) && Drift(after, s')
  }

  lemma DriftOn(s: Svc, done: seq<Completion>, mid: Svc, s': Svc)
    requires OneByOne(s, done, mid) && Drift(mid, s')
    ensures OneByOne(s, done, s')
  {
    hide Effect;
    if done != [] {
      var n := |done| - 1;
      var before, after :| OneByOne(s, done[..n], before) && Effect(s, done[n], before, after) && Drift(after, mid);
      assert Drift(after, s');
    }
  }

  lemma OneMore(s: Svc, done: seq<Completion>, c: Completion, before: Svc, after: Svc)
    requires OneByOne(s, done, before) && Effect(s, c, before, after)
    ensures OneByOne(s, done + [c], after)
  {
    hide Effect;
    assert (done + [c])[..|done|] == done;
    assert Drift(after, after);
  }

  lemma {:induction false} HistoryOneByOne(base: Svc, m: State, k: nat)
    requires Inv(base, m) && Accounted(base, m) && k <= |m.hist| && Answered(m.hist)
    ensures OneByOne(base, Completed(m.hist[..k]), Before(base, m.hist, k))
  {
    hide Inv, Accounted, Effect, OneByOne;
    if k == 0 { NoneDone(base); } else {
      HistoryOneByOne(base, m, k - 1);
      assert m.hist[..k][..k - 1] == m.hist[..k - 1];
      var done, e := Completed(m.hist[..k - 1]), m.hist[k - 1].event;
      if e.Returned? {
        ReturnIsEffect(base, m, k - 1);
        OneMore(base, done, Completion(e.call, e.reply, m.hist[e.since].after), Before(base, m.hist, k - 1),
            m.hist[k - 1].after);
      } else {
        OthersDrift(base, m, k - 1);
        DriftOn(base, done, Before(base, m.hist, k - 1), m.hist[k - 1].after);
      }
    }
  }

  lemma NoneDone(s: Svc)
    ensures OneByOne(s, [], s)
  { }

  lemma OthersDrift(base: Svc, m: State, k: nat)
    requires Inv(base, m) && k < |m.hist| && !m.hist[k].event.Returned?
    ensures Drift(Before(base, m.hist, k), m.hist[k].after)
  {
    hide AtOnce, ThreadOk, StoreOk, TweetsAccounted, UsersAccounted;
    assert EntryOk(base, m.hist, k);
  }

  lemma ReturnIsEffect(base: Svc, m: State, k: nat)
    requires Inv(base, m) && Accounted(base, m) && k < |m.hist| && m.hist[k].event.Returned?
             && m.hist[k].event.since < k
    ensures var e := m.hist[k].event;
            Effect(base, Completion(e.call, e.reply, m.hist[e.since].after), Before(base, m.hist, k), m.hist[k].after)
  {
    hide Inv, Accounted, AtOnce, Grows, FreshId;
    var e := m.hist[k].event;
    InvForward(base, m, 0, e.since + 1);
    InvForward(base, m, e.since + 1, k);
    ReturnAtOnce(base, m, k);
    ReplyIsFresh(base, m, k, e.reply);
  }

  /** Users and tweets are never lost and end up with distinct ids, so an id handed out was new. */
  lemma ReplyIsFresh(base: Svc, m: State, k: nat, reply: Reply)
    requires Inv(base, m) && Accounted(base, m) && Returns(m.hist, k, reply)
    ensures FreshId(Before(base, m.hist, k), reply)
  {
    hide Inv, Accounted, AllTweets, StoreOk, Atomic, Earned, OnlySteps;
    InvNow(base, m);
    ReplyFacts(base, m, k, reply, |m.hist|);
    match reply
    case UserMade(u) => NewUser(base, m, k, u);
    case Posted(t) =>
      PostedCall(base, m, k, t);
      FreshTweet(AllTweets(Before(base, m.hist, k).store), t, AllTweets(m.svc.store));
    case _ =>
  }

  lemma NewUser(base: Svc, m: State, k: nat, u: User)
    requires Inv(base, m) && Accounted(base, m) && Returns(m.hist, k, UserMade(u))
    ensures var before := Before(base, m.hist, k).store.users;
            u.handle !in before && forall h | h in before :: h in m.svc.store.users && m.svc.store.users[h] == before[h]
    ensures u.handle in m.svc.store.users && m.svc.store.users[u.handle] == u && DistinctUserIds(m.svc.store.users)
  {
    hide Inv, Accounted, AllTweets, StoreOk, OnlySteps;
    InvNow(base, m);
    ReplyFacts(base, m, k, UserMade(u), |m.hist|);
  }

  lemma FreshTweet(before: multiset<Tweet>, t: Tweet, end: multiset<Tweet>)
    requires DistinctIds(end) && before + multiset{t} <= end
    ensures forall other | other in before :: other.id != t.id
  {
    forall other | other in before ensures other.id != t.id {
      assert (before + multiset{t})[other] <= end[other] && (before + multiset{t})[t] <= end[t];
    }
  }

  /** Linearizability. What the threads' calls returned, in the order they returned, is what the same calls
      give one indivisible call after another, tables and clock included. Ids, timestamps and captured
      counters are the ones drawn in each call's own window: ids are fresh, but need not follow this order.
      Each call's place lies between its invocation and its return, so the order respects real time. */
  lemma Linearizable(base: Svc, m: State)
    requires Reachable(base, m)
    ensures Answered(m.hist) && OneByOne(base, Completed(m.hist), m.svc)
  {
    ReachableInv(base, m);
    hide Inv, Accounted, OneByOne, Answered;
    ReturnsAnswer(base, m);
    HistoryOneByOne(base, m, |m.hist|);
    InvNow(base, m);
    assert m.hist[..|m.hist|] == m.hist;
  }

  lemma ReturnsAnswer(base: Svc, m: State)
    requires Inv(base, m)
    ensures Answered(m.hist)
  {
    hide Inv, Accounted, Earned, Atomic, Grows;
    forall k | 0 <= k < |m.hist| && m.hist[k].event.Returned?
      ensures m.hist[k].event.since < k
              && m.hist[m.hist[k].event.since].event == Invoked(m.hist[k].event.tid, m.hist[k].event.call)
    {
      ReplyFacts(base, m, k, m.hist[k].event.reply, k + 1);
    }
  }
}
