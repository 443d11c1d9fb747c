/** What holds of every interleaving of calls, from any service at rest, without `load_state`. */
module Interleavings {
  import opened Domain
  import opened Store
  import opened Views
  import opened HashOrder
  import opened Calls
  import opened Machine
  import opened Invariants

  /** The states `ms` a schedule `acts` of thread actions leads through. */
  ghost predicate Run(base: Svc, acts: seq<Action>, ms: seq<State>) {
    && |ms| == |acts| + 1 && ms[0] == Quiet(base)
    && forall i | 0 <= i < |acts| :: Enabled(ms[i], acts[i]) && ms[i + 1] == Apply(ms[i], acts[i])
  }

  /** Some schedule leads from `base`, whatever it holds, to `m`. */
  ghost predicate Runs(base: Svc, m: State) {
    exists acts, ms :: Run(base, acts, ms) && m == ms[|acts|]
  }

  /** ... from tables filed under their keys, as those of every loaded service are. */
  ghost predicate Ran(base: Svc, m: State) {
    WellKeyed(base.store) && Runs(base, m)
  }

  ghost predicate Reachable(base: Svc, m: State) {
    AtRest(base) && Runs(base, m)
  }

  lemma {:induction false} RunInv(base: Svc, acts: seq<Action>, ms: seq<State>, i: nat)
    requires WellKeyed(base.store) && Run(base, acts, ms) && i <= |acts|
    ensures Inv(base, ms[i])
  {
    hide WellKeyed, Inv, Accounted, Enabled, Apply;
    if i == 0 { QuietInv(base); } else {
      RunInv(base, acts, ms, i - 1);
      ActionKeepsInv(base, ms[i - 1], acts[i - 1]);
    }
  }

  lemma {:induction false} RunAccounted(base: Svc, acts: seq<Action>, ms: seq<State>, i: nat)
    requires AtRest(base) && Run(base, acts, ms) && i <= |acts|
    ensures Inv(base, ms[i]) && Accounted(base, ms[i])
  {
    RestKeyed(base);
    RunInv(base, acts, ms, i);
    hide AtRest, WellKeyed, Inv, Accounted, Enabled, Apply;
    if i == 0 { QuietAccounted(base); } else {
      RunAccounted(base, acts, ms, i - 1);
      ActionKeepsAccounts(base, ms[i - 1], acts[i - 1]);
    }
  }

  lemma RestKeyed(s: Svc)
    requires AtRest(s)
    ensures WellKeyed(s.store)
  { }

  lemma ReachableRan(base: Svc, m: State)
    requires Reachable(base, m)
    ensures Ran(base, m)
  {
    RestKeyed(base);
  }

  lemma RanInv(base: Svc, m: State)
    requires Ran(base, m)
    ensures Inv(base, m)
  {
    hide WellKeyed, Inv, Accounted, Enabled, Apply;
    var acts, ms :| Run(base, acts, ms) && m == ms[|acts|];
    RunInv(base, acts, ms, |acts|);
  }

  lemma ReachableInv(base: Svc, m: State)
    requires Reachable(base, m)
    ensures Inv(base, m) && Accounted(base, m)
  {
    hide AtRest, Inv, Accounted, Enabled, Apply;
    var acts, ms :| Run(base, acts, ms) && m == ms[|acts|];
    RunAccounted(base, acts, ms, |acts|);
  }

  /** Whatever the schedule, a state with no call in flight is one every run may start from. */
  lemma QuiescentAtRest(base: Svc, m: State)
    requires Reachable(base, m) && m.busy == map[]
    ensures AtRest(m.svc)
  {
    ReachableInv(base, m);
    assert HeldTweetIds(m.busy) == map[] && HeldUserIds(m.busy) == map[];
  }

  /** In every reachable state the timelines and snapshots a step may answer with are exactly those the
      store returns for some hash iteration order. */
  lemma ReachableReadsExact(base: Svc, m: State, user: string, limit: nat, r: seq<Tweet>, x: StoreSnapshot)
    requires Reachable(base, m)
    ensures IsTimeline(m.svc.store, user, limit, r) <==> MayShow(m.svc.store, user, limit, r)
    ensures IsSnapshot(m.svc.store, x) <==> MayCapture(m.svc.store, x)
  {
    ReachableInv(base, m);
    hide Inv, Accounted, IsTimeline, MayShow, IsSnapshot, MayCapture;
    InvNow(base, m);
    ReadsExact(m.svc.store, user, limit, r, x);
  }

  // ----- safety of the tables (F4, F6, F9) -----

  ghost predicate TablesOk(s: Svc) {
    && (forall h | h in s.store.users :: s.store.users[h].handle == h)
    && (forall from, to | from in s.store.follows && to in s.store.follows[from] ::
          from != to && from in s.store.users && to in s.store.users)
    && (forall a, t | a in s.store.byAuthor && t in s.store.byAuthor[a] ::
          t.author == a && a in s.store.users && t.createdAt <= s.clock)
  }

  lemma TablesSafe(base: Svc, m: State)
    requires Reachable(base, m)
    ensures TablesOk(m.svc)
  {
    ReachableInv(base, m);
    StoreOkTables(m.svc);
  }

  lemma StoreOkTables(s: Svc)
    requires StoreOk(s)
    ensures TablesOk(s)
  {
    assert forall from, to | from in s.store.follows && to in s.store.follows[from] ::
        Follow(from, to) in Edges(s.store);
    forall a, t | a in s.store.byAuthor && t in s.store.byAuthor[a] ensures t in AllTweets(s.store) {
      AllTweetsCount(s.store, t);
      assert t in multiset(s.store.byAuthor[a]);
    }
  }

  // ----- conservation of ids (F8) -----

  /** Every tweet id taken in a run is stored or still held by the call that took it, and no two are equal. */
  lemma TweetIdsConserved(base: Svc, m: State)
    requires Reachable(base, m)
    ensures m.svc.tweetCtr - base.tweetCtr ==
            |AllTweets(m.svc.store)| - |AllTweets(base.store)| + |HeldTweetIds(m.busy)|
    ensures base == NEW ==> m.svc.tweetCtr == |AllTweets(m.svc.store)| + |HeldTweetIds(m.busy)|
    ensures DistinctIds(AllTweets(m.svc.store)) && forall t | t in AllTweets(m.svc.store) :: 1 <= t.id <= m.svc.tweetCtr
    ensures var held := HeldTweetIds(m.busy);
            && (forall p | p in held :: 1 <= held[p] <= m.svc.tweetCtr)
            && (forall p, t | p in held && t in AllTweets(m.svc.store) :: t.id != held[p])
            && (forall p, q | p in held && q in held && p != q :: held[p] != held[q])
  {
    ReachableInv(base, m);
    hide StoreOk, EntryOk, ThreadOk, HeldTweetIds, UsersAccounted;
    assert TweetsAccounted(base, m);
  }

  /** A post whose author was found registered is never refused at its append, three lock acquisitions later. */
  lemma AppendNeverRefused(base: Svc, m: State, p: nat)
    requires Ran(base, m) && p in m.busy && m.busy[p].call.Post? && !m.busy[p].pc.Begin?
    ensures forall t: Tweet | t.author == m.busy[p].call.author :: PutTweet(m.svc.store, t).Ok?
  {
    RanInv(base, m);
    InvThread(base, m, p);
    hide Inv, Accounted, Grows, AllTweets, OnlySteps, Ran, Learnt;
    var b := m.busy[p];
    AuthorKnownSince(m.hist[b.since].after, m.svc, b.call, b.pc);
  }

  lemma AuthorKnownSince(start: Svc, s: Svc, call: Call, pc: Pc)
    requires call.Post? && !pc.Begin? && Fits(call, pc) && Learnt(start, s, call, pc)
    ensures call.author in s.store.users
  { }

  lemma InvThread(base: Svc, m: State, p: nat)
    requires Inv(base, m) && p in m.busy
    ensures ThreadOk(m, p)
  {
    hide StoreOk, EntryOk, TweetsAccounted, UsersAccounted, ThreadOk;
  }

  /** Every user id taken in a run is registered, held, or was spent on a refused duplicate. */
  lemma UserIdsAccounted(base: Svc, m: State)
    requires Reachable(base, m)
    ensures m.svc.userCtr - base.userCtr ==
            |m.svc.store.users| - |base.store.users| + |HeldUserIds(m.busy)| + Refusals(m.hist)
    ensures base == NEW ==> m.svc.userCtr == |m.svc.store.users| + |HeldUserIds(m.busy)| + Refusals(m.hist)
    ensures DistinctUserIds(m.svc.store.users)
    ensures forall h | h in m.svc.store.users :: 1 <= m.svc.store.users[h].id <= m.svc.userCtr
    ensures var held := HeldUserIds(m.busy);
            && (forall p | p in held :: 1 <= held[p] <= m.svc.userCtr)
            && (forall p, h | p in held && h in m.svc.store.users :: m.svc.store.users[h].id != held[p])
            && (forall p, q | p in held && q in held && p != q :: held[p] != held[q])
  {
    ReachableInv(base, m);
    hide StoreOk, EntryOk, ThreadOk, HeldUserIds, TweetsAccounted, Refusals;
    assert UsersAccounted(base, m);
  }

  // ----- the history: replies against the states they were given in -----

  ghost predicate Returns(hist: seq<Entry>, i: nat, reply: Reply) {
    i < |hist| && hist[i].event.Returned? && hist[i].event.reply == reply
  }

  lemma {:induction false} Forward(base: Svc, hist: seq<Entry>, i: nat, j: nat)
    requires i <= j <= |hist| && forall k | 0 <= k < |hist| :: EntryOk(base, hist, k)
    ensures Grows(Before(base, hist, i), Before(base, hist, j))
    decreases j
  {
    hide Grows;
    if i < j {
      Forward(base, hist, i, j - 1);
      EntryGrows(base, hist, j - 1);
      GrowsTransitive(Before(base, hist, i), Before(base, hist, j - 1), Before(base, hist, j));
    } else {
      GrowsReflexive(Before(base, hist, i));
    }
  }

  lemma EntryGrows(base: Svc, hist: seq<Entry>, k: nat)
    requires k < |hist| && EntryOk(base, hist, k)
    ensures Grows(Before(base, hist, k), hist[k].after)
  { }

  lemma GrowsReflexive(s: Svc) ensures Grows(s, s) { }

  /** The state a reply was earned in only grew up to any later place of the history. */
  lemma ReplyFacts(base: Svc, m: State, i: nat, reply: Reply, later: nat)
    requires Inv(base, m) && Returns(m.hist, i, reply) && i < later <= |m.hist|
    ensures m.hist[i].event.since < i
            && m.hist[m.hist[i].event.since].event == Invoked(m.hist[i].event.tid, m.hist[i].event.call)
    ensures Earned(m.hist[m.hist[i].event.since].after, m.hist[i].after, reply)
    ensures Atomic(Before(base, m.hist, i).store, m.hist[i].event.call, reply, m.hist[i].after.store)
    ensures Grows(m.hist[i].after, Before(base, m.hist, later))
  {
    hide Grows, Earned, Atomic, ThreadOk, StoreOk, TweetsAccounted, UsersAccounted;
    assert EntryOk(base, m.hist, i);
    Forward(base, m.hist, i + 1, later);
  }

  lemma ReturnAtOnce(base: Svc, m: State, k: nat)
    requires Inv(base, m) && k < |m.hist| && m.hist[k].event.Returned?
    ensures m.hist[k].event.since < k
    ensures var e := m.hist[k].event;
            AtOnce(m.hist[e.since].after, Before(base, m.hist, k), e.call, e.reply, m.hist[k].after)
  {
    hide AtOnce, ThreadOk, StoreOk, TweetsAccounted, UsersAccounted;
    assert EntryOk(base, m.hist, k);
  }

  /** In a run from any tables, loaded ones included, every return does at once what its whole call would. */
  lemma EveryReturnAtOnce(base: Svc, m: State, k: nat)
    requires Ran(base, m) && k < |m.hist| && m.hist[k].event.Returned?
    ensures m.hist[k].event.since < k
    ensures var e := m.hist[k].event;
            AtOnce(m.hist[e.since].after, Before(base, m.hist, k), e.call, e.reply, m.hist[k].after)
  {
    hide Runs, WellKeyed, Inv, AtOnce, Before;
    RanInv(base, m);
    ReturnAtOnce(base, m, k);
  }

  /** At most one `create_user` per handle succeeds, and its id is the one stored from then on. */
  lemma HandleTakenOnce(base: Svc, m: State, i: nat, u: User)
    requires Ran(base, m) && Returns(m.hist, i, UserMade(u))
    ensures u.handle in m.svc.store.users && m.svc.store.users[u.handle] == u
    ensures forall k: nat, v | k != i && Returns(m.hist, k, UserMade(v)) :: v.handle != u.handle
  {
    RanInv(base, m);
    NowIsLast(base, m);
    hide Inv;
    ReplyFacts(base, m, i, UserMade(u), |m.hist|);
    forall k: nat, v | k != i && Returns(m.hist, k, UserMade(v)) ensures v.handle != u.handle {
      if i < k { SecondHandle(base, m, i, u, k, v); } else { SecondHandle(base, m, k, v, i, u); }
    }
  }

  lemma NowIsLast(base: Svc, m: State)
    requires Inv(base, m)
    ensures m.svc == Before(base, m.hist, |m.hist|)
  {
    hide ThreadOk, EntryOk, WellKeyed;
  }

  lemma InvNow(base: Svc, m: State)
    requires Inv(base, m) && Accounted(base, m)
    ensures m.svc == Before(base, m.hist, |m.hist|) && StoreOk(m.svc)
    ensures DistinctIds(AllTweets(m.svc.store)) && DistinctUserIds(m.svc.store.users)
    ensures forall t | t in AllTweets(m.svc.store) :: t.id <= m.svc.tweetCtr
  { }

  lemma SecondHandle(base: Svc, m: State, i: nat, u: User, k: nat, v: User)
    requires Inv(base, m) && i < k && Returns(m.hist, i, UserMade(u)) && Returns(m.hist, k, UserMade(v))
    ensures v.handle != u.handle
  {
    hide Inv, StoreOk, TweetsAccounted, UsersAccounted;
    ReplyFacts(base, m, i, UserMade(u), k);
    ReplyFacts(base, m, k, UserMade(v), k + 1);
  }

  // ----- real-time order of posts (F7, F8) -----

  /** What a reply was earned with is still there for a call invoked after it was given. */
  lemma EarlierReply(base: Svc, m: State, i: nat, reply: Reply, k: nat, next: Reply)
    requires Inv(base, m) && Returns(m.hist, i, reply) && Returns(m.hist, k, next) && i < m.hist[k].event.since
    ensures exists before, start, end ::
              Earned(before, m.hist[i].after, reply) && Grows(m.hist[i].after, start) && Grows(start, end)
                  && Earned(start, end, next)
              && end == m.hist[k].after
  {
    hide Inv, Accounted, Atomic, Grows, Earned;
    var since := m.hist[k].event.since;
    ReplyFacts(base, m, k, next, k + 1);
    ReplyFacts(base, m, i, reply, since + 1);
    InvForward(base, m, since + 1, k + 1);
  }

  lemma InvForward(base: Svc, m: State, i: nat, j: nat)
    requires Inv(base, m) && i <= j <= |m.hist|
    ensures Grows(Before(base, m.hist, i), Before(base, m.hist, j))
  {
    hide Grows;
    Forward(base, m.hist, i, j);
  }

  /** If one post returned before another was invoked, the first has the smaller id and no later timestamp. */
  lemma PostsInRealTimeOrder(base: Svc, m: State, i: nat, t: Tweet, k: nat, u: Tweet)
    requires Ran(base, m) && Returns(m.hist, i, Posted(t)) && Returns(m.hist, k, Posted(u))
    requires i < m.hist[k].event.since
    ensures t.id < u.id && t.createdAt <= u.createdAt
  {
    RanInv(base, m);
    hide Inv, Accounted, AllTweets;
    EarlierReply(base, m, i, Posted(t), k, Posted(u));
  }

  /** So it comes after the other in every timeline, of any user at any time, that shows both. */
  lemma TimelinesShowRealTimeOrder(base: Svc, m: State, i: nat, t: Tweet, k: nat, u: Tweet,
                                   n: State, user: string, limit: nat, r: seq<Tweet>, p: nat, q: nat)
    requires Reachable(base, m) && Returns(m.hist, i, Posted(t)) && Returns(m.hist, k, Posted(u))
    requires i < m.hist[k].event.since
    requires Reachable(base, n) && IsTimeline(n.svc.store, user, limit, r)
    requires p < |r| && q < |r| && r[p] == t && r[q] == u
    ensures q < p
  {
    ReachableRan(base, m);
    hide Inv, Accounted, Reachable, Ran, AllTweets, IsTimeline, Edges;
    PostsInRealTimeOrder(base, m, i, t, k, u);
    ReachableInv(base, n);
    InvNow(base, n);
    TimelineMeaning(n.svc.store, user, limit, r);
    NewerComesFirst(r, p, q);
  }

  lemma NewerComesFirst(r: seq<Tweet>, p: nat, q: nat)
    requires StrictlyNewestFirst(r) && p < |r| && q < |r| && Newer(r[q], r[p])
    ensures q < p
  { }

  lemma PostedCall(base: Svc, m: State, k: nat, u: Tweet)
    requires Inv(base, m) && Returns(m.hist, k, Posted(u))
    ensures AllTweets(m.hist[k].after.store) == AllTweets(Before(base, m.hist, k).store) + multiset{u}
  {
    hide Inv, Accounted, AllTweets;
    ReplyFacts(base, m, k, Posted(u), k + 1);
  }

  // ----- snapshots taken while others run -----

  /** A snapshot holds every post made by a call that returned before it was invoked, under its counter and clock. */
  lemma SnapshotHasEarlierPosts(base: Svc, m: State, k: nat, x: ServiceState, i: nat, t: Tweet)
    requires Ran(base, m) && Returns(m.hist, k, Captured(x)) && Returns(m.hist, i, Posted(t))
             && i < m.hist[k].event.since
    ensures t in x.store.tweets && t.id <= x.idCounterTweets && t.createdAt <= x.clockNow
  {
    RanInv(base, m);
    hide Inv, Accounted, AllTweets, IsSnapshot;
    EarlierReply(base, m, i, Posted(t), k, Captured(x));
    CapturedTweet(m.hist[k].after.store, x.store, t);
  }

  lemma CapturedTweet(s: Inner, x: StoreSnapshot, t: Tweet)
    requires IsSnapshot(s, x) && t in AllTweets(s)
    ensures t in x.tweets
  {
    assert t in multiset(x.tweets);
  }

  lemma SnapshotHasEarlierUsers(base: Svc, m: State, k: nat, x: ServiceState, i: nat, u: User)
    requires Ran(base, m) && Returns(m.hist, k, Captured(x)) && Returns(m.hist, i, UserMade(u))
             && i < m.hist[k].event.since
    ensures u in x.store.users && u.id <= x.idCounterUsers
  {
    RanInv(base, m);
    hide Inv, Accounted, AllTweets;
    EarlierReply(base, m, i, UserMade(u), k, Captured(x));
    assert u in m.hist[k].after.store.users.Values && u in multiset(x.store.users);
  }

  /** Edges join two different captured users, and authors are captured users. */
  ghost predicate SelfContained(x: StoreSnapshot) {
    && (forall f | f in x.follows :: f.from != f.to && HasHandle(x.users, f.from) && HasHandle(x.users, f.to))
    && (forall t | t in x.tweets :: HasHandle(x.users, t.author))
  }

  ghost predicate HasHandle(us: seq<User>, h: string) {
    exists u :: u in us && u.handle == h
  }

  lemma SnapshotSelfContained(base: Svc, m: State, k: nat, x: ServiceState)
    requires Reachable(base, m) && Returns(m.hist, k, Captured(x))
    ensures SelfContained(x.store)
  {
    var s := m.hist[k].after;
    assert StoreOk(s) && IsSnapshot(s.store, x.store) by {
      ReachableInv(base, m);
      hide Inv, Accounted, Atomic, AllTweets;
      ReplyFacts(base, m, k, Captured(x), k + 1);
      HistoryStoreOk(base, m, k);
    }
    CaptureSelfContained(s, x.store);
  }

  lemma CaptureSelfContained(s: Svc, x: StoreSnapshot)
    requires StoreOk(s) && IsSnapshot(s.store, x)
    ensures SelfContained(x)
  {
    forall h | h in s.store.users ensures HasHandle(x.users, h) {
      assert s.store.users[h] in s.store.users.Values && s.store.users[h] in multiset(x.users);
    }
    forall f | f in x.follows ensures f in Edges(s.store) { assert f in multiset(x.follows); }
    forall t | t in x.tweets ensures t in AllTweets(s.store) { assert t in multiset(x.tweets); }
  }

  /** The history records the states of the run, one per action. */
  lemma {:induction false} HistoryFollowsRun(base: Svc, acts: seq<Action>, ms: seq<State>, n: nat)
    requires Run(base, acts, ms) && n <= |acts|
    ensures |ms[n].hist| == n && forall k | 0 <= k < n :: ms[n].hist[k].after == ms[k + 1].svc
  {
    if n > 0 {
      HistoryFollowsRun(base, acts, ms, n - 1);
      hide Step, Enabled;
      assert ms[n] == Apply(ms[n - 1], acts[n - 1]);
    }
  }

  lemma HistoryStoreOk(base: Svc, m: State, k: nat)
    requires Reachable(base, m) && k < |m.hist|
    ensures StoreOk(m.hist[k].after)
  {
    hide AtRest, StoreOk, Enabled;
    var acts, ms :| Run(base, acts, ms) && m == ms[|acts|];
    HistoryFollowsRun(base, acts, ms, |acts|);
    RunAccounted(base, acts, ms, k + 1);
  }
}
