/** Ids after a restore: which captured states lead to an id being handed out a second time, and which
    restore a service with every guarantee intact. */
module Reissue {
  import opened Domain
  import opened Sorting
  import opened Store
  import opened Views
  import opened Normalise
  import opened Calls
  import opened Services
  import opened Machine
  import opened Invariants
  import opened Interleavings
  import opened Trails
  import opened Schedules
  import opened Restore

  // ----- ids handed out in a run lie above the counters it started from, whatever it started from -----

  ghost predicate IdAbove(base: Svc, reply: Reply) {
    match reply
    case UserMade(u) => u.id > base.userCtr
    case Posted(t) => t.id > base.tweetCtr
    case _ => true
  }

  ghost predicate HoldsAbove(base: Svc, pc: Pc) {
    && (pc.UserIdTaken? ==> pc.id > base.userCtr)
    && (pc.TweetIdTaken? || pc.Stamped? ==> pc.tweetId > base.tweetCtr)
  }

  ghost predicate IssuesAbove(base: Svc, m: State) {
    && base.userCtr <= m.svc.userCtr && base.tweetCtr <= m.svc.tweetCtr
    && (forall tid | tid in m.busy :: HoldsAbove(base, m.busy[tid].pc))
    && (forall k: nat, reply | Returns(m.hist, k, reply) :: IdAbove(base, reply))
  }

  lemma StepIssuesAbove(base: Svc, s: Svc, call: Call, pc: Pc)
    requires Fits(call, pc) && base.userCtr <= s.userCtr && base.tweetCtr <= s.tweetCtr && HoldsAbove(base, pc)
    ensures var (s', o) := Step(s, call, pc);
            && base.userCtr <= s'.userCtr && base.tweetCtr <= s'.tweetCtr
            && (o.Continue? ==> HoldsAbove(base, o.pc))
            && (forall reply | Answers(s, o, reply) :: IdAbove(base, reply))
  { }

  lemma ActionIssuesAbove(base: Svc, m: State, a: Action)
    requires IssuesAbove(base, m) && Enabled(m, a)
    ensures IssuesAbove(base, Apply(m, a))
  {
    hide IdAbove, HoldsAbove;
    var n := Apply(m, a);
    if a.Invoke? { assert HoldsAbove(base, Begin) by { NothingHeld(base); } }
    else { StepIssuesAbove(base, m.svc, m.busy[a.tid].call, m.busy[a.tid].pc); }
    hide Step, Answers;
    forall k: nat, reply | Returns(n.hist, k, reply) ensures IdAbove(base, reply) {
      if k < |m.hist| { assert Returns(m.hist, k, reply); }
    }
  }

  lemma NothingHeld(base: Svc)
    ensures HoldsAbove(base, Begin)
  { }

  lemma {:induction false} RunIssuesAbove(base: Svc, acts: seq<Action>, ms: seq<State>, i: nat)
    requires Run(base, acts, ms) && i <= |acts|
    ensures IssuesAbove(base, ms[i])
  {
    if i > 0 {
      hide IssuesAbove, Enabled, Apply;
      RunIssuesAbove(base, acts, ms, i - 1);
      ActionIssuesAbove(base, ms[i - 1], acts[i - 1]);
    }
  }

  // ----- reissued ids -----

  /** Some run from the loaded state hands out the id of a tweet the load stored. */
  ghost predicate ReissuesTweetId(x: ServiceState) {
    exists m, k: nat, u, t ::
        Runs(Load(x), m) && Returns(m.hist, k, Posted(u)) && t in AllTweets(Load(x).store) && t.id == u.id
  }

  /** Some run from the loaded state hands out the id of a user the load registered. */
  ghost predicate ReissuesUserId(x: ServiceState) {
    exists m, k: nat, u, h ::
        Runs(Load(x), m) && Returns(m.hist, k, UserMade(u)) && h in Load(x).store.users
            && Load(x).store.users[h].id == u.id
  }

  ghost predicate TweetAboveCounter(x: ServiceState) {
    exists t :: t in x.store.tweets && t.id > x.idCounterTweets
  }

  /** Of several entries for one handle only the last is loaded. */
  ghost predicate UserAboveCounter(x: ServiceState) {
    exists u :: LastFor(x.store.users, u) && u.id > x.idCounterUsers
  }

  /** A loaded snapshot can lead to a tweet's id being handed out again, by any calls in any interleaving,
      exactly when a captured tweet's id is above the captured counter. */
  lemma TweetIdReissuedExactlyWhen(x: ServiceState)
    ensures ReissuesTweetId(x) <==> TweetAboveCounter(x)
  {
    LoadedTweets(x);
    if ReissuesTweetId(x) { ReissuedTweetAbove(x); }
    if t :| t in x.store.tweets && t.id > x.idCounterTweets { TweetReissued(x, t); }
  }

  lemma LoadedTweets(x: ServiceState)
    ensures forall t :: t in AllTweets(Load(x).store) <==> t in x.store.tweets
    ensures Load(x).tweetCtr == x.idCounterTweets
  {
    ReplaceView(x.store);
    forall t ensures t in multiset(x.store.tweets) <==> t in x.store.tweets { }
  }

  lemma ReissuedTweetAbove(x: ServiceState)
    requires ReissuesTweetId(x)
    ensures TweetAboveCounter(x)
  {
    LoadedTweets(x);
    hide Load, AllTweets, Run;
    var m, k: nat, u, t :| && Runs(Load(x), m) && Returns(m.hist, k, Posted(u)) && t in AllTweets(Load(x).store)
                           && t.id == u.id;
    RunsIssueAbove(Load(x), m);
    assert IdAbove(Load(x), Posted(u));
    assert t in x.store.tweets;
  }

  lemma RunsIssueAbove(base: Svc, m: State)
    requires Runs(base, m)
    ensures forall k: nat, reply | Returns(m.hist, k, reply) :: IdAbove(base, reply)
  {
    hide Enabled, Apply, IdAbove, HoldsAbove;
    var acts, ms :| Run(base, acts, ms) && m == ms[|acts|];
    RunIssuesAbove(base, acts, ms, |acts|);
  }

  /** Register somebody new, post until the counter stands just below the id, and post once more. */
  lemma TweetReissued(x: ServiceState, t: Tweet)
    requires t in x.store.tweets && t.id > x.idCounterTweets
    ensures ReissuesTweetId(x)
  {
    hide Runs, AllTweets, Load;
    LoadedTweets(x);
    var base := Load(x);
    RunsQuiet(base);
    var m, author := NextUser(base, Quiet(base));
    m := PostsOn(base, m, author.handle, t.id - x.idCounterTweets - 1);
    var n, u := NextPost(base, m, author.handle);
    assert t in AllTweets(base.store);
  }

  lemma NextUser(base: Svc, m: State) returns (n: State, u: User)
    requires Runs(base, m) && m.busy == map[]
    ensures Runs(base, n) && n.busy == map[] && JustReturned(n, UserMade(u)) && u.handle in n.svc.store.users
    ensures u.id == n.svc.userCtr == m.svc.userCtr + 1 && n.svc.tweetCtr == m.svc.tweetCtr
  {
    hide Runs;
    var handle := FreshHandle(m.svc.store.users.Keys);
    AloneCreate(m.svc, handle);
    u := User(m.svc.userCtr + 1, handle);
    n := CallAlone(base, m, 0, CreateUser(handle), UserMade(u));
  }

  lemma FreshHandle(taken: set<string>) returns (handle: string)
    ensures handle != "" && handle !in taken
  {
    var rest, n := taken, 1;
    while rest != {}
      invariant n > 0 && forall g | g in taken - rest :: |g| < n
    {
      var g :| g in rest;
      rest, n := rest - {g}, if |g| < n then n else |g| + 1;
    }
    handle := seq(n, _ => 'a');
  }

  lemma NextPost(base: Svc, m: State, author: string) returns (n: State, u: Tweet)
    requires Runs(base, m) && m.busy == map[] && author in m.svc.store.users
    ensures Runs(base, n) && n.busy == map[] && JustReturned(n, Posted(u)) && author in n.svc.store.users
    ensures u.id == n.svc.tweetCtr == m.svc.tweetCtr + 1
  {
    hide Runs;
    AlonePost(m.svc, author, "x");
    u := Tweet(m.svc.tweetCtr + 1, author, "x", m.svc.clock);
    n := CallAlone(base, m, 0, Post(author, "x"), Posted(u));
  }

  lemma PostsOn(base: Svc, m: State, author: string, count: nat) returns (n: State)
    requires Runs(base, m) && m.busy == map[] && author in m.svc.store.users
    ensures Runs(base, n) && n.busy == map[] && author in n.svc.store.users && n.svc.tweetCtr == m.svc.tweetCtr + count
  {
    hide Runs, JustReturned;
    n := m;
    for i := 0 to count
      invariant Runs(base, n) && n.busy == map[] && author in n.svc.store.users && n.svc.tweetCtr == m.svc.tweetCtr + i
    {
      var u;
      n, u := NextPost(base, n, author);
    }
  }

  /** The same for users: exactly when a user the load registers has an id above the captured counter. */
  lemma UserIdReissuedExactlyWhen(x: ServiceState)
    ensures ReissuesUserId(x) <==> UserAboveCounter(x)
  {
    if ReissuesUserId(x) { ReissuedUserAbove(x); }
    if u :| LastFor(x.store.users, u) && u.id > x.idCounterUsers { UserReissued(x, u); }
  }

  lemma LoadedUsers(x: ServiceState)
    ensures forall u: User :: (u.handle in Load(x).store.users && Load(x).store.users[u.handle] == u) <==>
            LastFor(x.store.users, u)
    ensures forall h | h in Load(x).store.users :: Load(x).store.users[h].handle == h
    ensures Load(x).userCtr == x.idCounterUsers
  {
    ReplaceView(x.store);
  }

  lemma ReissuedUserAbove(x: ServiceState)
    requires ReissuesUserId(x)
    ensures UserAboveCounter(x)
  {
    LoadedUsers(x);
    hide Load, Run, LastFor;
    var m, k: nat, u, h :| && Runs(Load(x), m) && Returns(m.hist, k, UserMade(u)) && h in Load(x).store.users
                           && Load(x).store.users[h].id == u.id;
    RunsIssueAbove(Load(x), m);
    assert IdAbove(Load(x), UserMade(u));
    assert LastFor(x.store.users, Load(x).store.users[h]);
  }

  lemma UserReissued(x: ServiceState, v: User)
    requires LastFor(x.store.users, v) && v.id > x.idCounterUsers
    ensures ReissuesUserId(x)
  {
    hide Runs, LastFor;
    LoadedUsers(x);
    var base := Load(x);
    RunsQuiet(base);
    var m := Quiet(base);
    for i := 1 to v.id - x.idCounterUsers
      invariant Runs(base, m) && m.busy == map[] && m.svc.userCtr == base.userCtr + i - 1
    {
      var u;
      m, u := NextUser(base, m);
    }
    var n, u := NextUser(base, m);
    assert v.handle in base.store.users && base.store.users[v.handle].id == u.id;
  }

  // ----- the loaded counters and clock are where every run goes on from -----

  /** In any run from any loaded state, the n-th id drawn is n above the loaded counter, and a post is dated
      the loaded clock plus the ticks before its stamp. The first post without a tick is dated the loaded clock. */
  lemma LoadedPostNumbered(x: ServiceState, m: State, k: nat, t: Tweet) returns (drew: nat, stamped: nat)
    requires Runs(Load(x), m) && Returns(m.hist, k, Posted(t))
    ensures drew < k && m.hist[drew].event == Stepped(m.hist[k].event.tid, TweetIdTaken(t.id))
    ensures stamped < k && m.hist[stamped].event == Stepped(m.hist[k].event.tid, Stamped(t.id, t.createdAt))
    ensures t.id == x.idCounterTweets + Count(m.hist[..drew], DrawsTweetId) + 1
    ensures t.createdAt == x.clockNow + Count(m.hist[..stamped], IsTick)
    ensures (forall j | 0 <= j < k :: !IsTick(m.hist[j].event)) ==> t.createdAt == x.clockNow
  {
    LoadedFields(x);
    hide Load, Runs;
    drew, stamped := PostNumbered(Load(x), m, k, t);
    if forall j | 0 <= j < k :: !IsTick(m.hist[j].event) { NoneCounted(m.hist[..stamped], IsTick); }
  }

  lemma LoadedUserNumbered(x: ServiceState, m: State, k: nat, u: User) returns (drew: nat)
    requires Runs(Load(x), m) && Returns(m.hist, k, UserMade(u))
    ensures drew < k && m.hist[drew].event == Stepped(m.hist[k].event.tid, UserIdTaken(u.id))
    ensures u.id == x.idCounterUsers + Count(m.hist[..drew], DrawsUserId) + 1
  {
    LoadedFields(x);
    hide Load, Runs;
    drew := UserNumbered(Load(x), m, k, u);
  }

  lemma LoadedFields(x: ServiceState)
    ensures Load(x).clock == x.clockNow && Load(x).userCtr == x.idCounterUsers && Load(x).tweetCtr == x.idCounterTweets
    ensures WellKeyed(Load(x).store)
  {
    ReplaceKeyed(x.store);
  }

  lemma {:induction false} NoneCounted(hist: seq<Entry>, what: Event -> bool)
    requires forall j | 0 <= j < |hist| :: !what(hist[j].event)
    ensures Count(hist, what) == 0
  {
    if hist != [] { NoneCounted(hist[..|hist| - 1], what); }
  }

  // ----- which captured states restore a service with every guarantee intact -----

  /** No captured id is above its captured counter, and no captured tweet is dated after the captured clock. */
  ghost predicate Covered(x: ServiceState) {
    && (forall u | u in x.store.users :: u.id <= x.idCounterUsers)
    && (forall t | t in x.store.tweets :: t.id <= x.idCounterTweets && t.createdAt <= x.clockNow)
  }

  /** What a snapshot captured among running calls restores is a service that all the theorems on runs start
      from exactly when the counters and the clock, read before the tables, cover what was captured. */
  lemma CaptureRestoresExactlyWhen(base: Svc, m: State, k: nat, x: ServiceState)
    requires Reachable(base, m) && Returns(m.hist, k, Captured(x))
    ensures AtRest(Load(x)) <==> Covered(x)
  {
    CapturedFacts(base, m, k, x);
    hide Reachable, Load, Returns;
    var s := m.hist[k].after;
    LoadedLedgers(s, x);
  }

  lemma CapturedFacts(base: Svc, m: State, k: nat, x: ServiceState)
    requires Reachable(base, m) && Returns(m.hist, k, Captured(x))
    ensures var s := m.hist[k].after; StoreOk(s) && OneIdEach(s) && IsSnapshot(s.store, x.store)
    ensures 0 <= x.idCounterUsers && 0 <= x.idCounterTweets
  {
    hide AtRest, Enabled, Apply, StoreOk, OneIdEach, Inv, Accounted, IsSnapshot;
    var acts, ms :| Run(base, acts, ms) && m == ms[|acts|];
    HistoryFollowsRun(base, acts, ms, |acts|);
    RunAccounted(base, acts, ms, k + 1);
    InvFacts(base, ms[k + 1]);
    RunAccounted(base, acts, ms, |acts|);
    CaptureFacts(base, m, k, x);
  }

  lemma InvFacts(base: Svc, m: State)
    requires Inv(base, m) && Accounted(base, m)
    ensures StoreOk(m.svc) && OneIdEach(m.svc)
  {
    hide EntryOk, ThreadOk, StoreOk;
  }

  lemma CaptureFacts(base: Svc, m: State, k: nat, x: ServiceState)
    requires AtRest(base) && Inv(base, m) && Returns(m.hist, k, Captured(x))
    ensures IsSnapshot(m.hist[k].after.store, x.store) && 0 <= x.idCounterUsers && 0 <= x.idCounterTweets
  {
    hide Inv, Accounted, Atomic, AllTweets, IsSnapshot, StoreOk, OnlySteps;
    ReplyFacts(base, m, k, Captured(x), k + 1);
    InvForward(base, m, 0, m.hist[k].event.since + 1);
  }

  /** Distinct positive ids. */
  ghost predicate OneIdEach(s: Svc) {
    && DistinctIds(AllTweets(s.store)) && (forall t | t in AllTweets(s.store) :: 1 <= t.id)
    && DistinctUserIds(s.store.users) && (forall h | h in s.store.users :: 1 <= s.store.users[h].id)
  }

  ghost predicate CountersCover(s: Svc) {
    && (forall h | h in s.store.users :: s.store.users[h].id <= s.userCtr)
    && (forall t | t in AllTweets(s.store) :: t.id <= s.tweetCtr && t.createdAt <= s.clock)
  }

  lemma LoadedLedgers(s: Svc, x: ServiceState)
    requires StoreOk(s) && OneIdEach(s) && IsSnapshot(s.store, x.store)
    requires 0 <= x.idCounterUsers && 0 <= x.idCounterTweets
    ensures AtRest(Load(x)) <==> Covered(x)
  {
    RestoreSameView(s.store, x.store);
    hide AtRest, Covered, StoreOk, OneIdEach, CountersCover;
    RestedIffCovering(s, Load(x));
    CoveredCapture(s, Load(x), x);
  }

  lemma RestedIffCovering(s: Svc, l: Svc)
    requires StoreOk(s) && OneIdEach(s) && SameView(s.store, l.store) && WellKeyed(l.store)
    requires 0 <= l.userCtr && 0 <= l.tweetCtr
    ensures AtRest(l) <==> CountersCover(l)
  {
    hide Edges, AllTweets;
  }

  lemma CoveredCapture(s: Svc, l: Svc, x: ServiceState)
    requires IsSnapshot(s.store, x.store) && SameView(s.store, l.store)
    requires l.userCtr == x.idCounterUsers && l.tweetCtr == x.idCounterTweets && l.clock == x.clockNow
    ensures Covered(x) <==> CountersCover(l)
  {
    hide Edges, AllTweets, SortedBy;
    forall t ensures t in x.store.tweets <==> t in AllTweets(l.store) {
      assert t in multiset(x.store.tweets) <==> t in x.store.tweets;
    }
    forall u ensures u in x.store.users <==> u in l.store.users.Values {
      assert u in multiset(x.store.users) <==> u in x.store.users;
    }
    forall h | h in l.store.users ensures l.store.users[h] in x.store.users {
      assert l.store.users[h] in l.store.users.Values;
    }
    forall u | u in x.store.users ensures exists h :: h in l.store.users && l.store.users[h] == u {
      assert u in l.store.users.Values;
    }
  }

  // ----- the same for any state a caller may upload -----

  /** Everything the guarantees need of an uploaded state, entry by entry. */
  ghost predicate Sound(x: ServiceState) {
    && SelfContained(x.store) && 0 <= x.idCounterUsers && 0 <= x.idCounterTweets
    && (forall u | LastFor(x.store.users, u) :: 1 <= u.id <= x.idCounterUsers)
    && (forall u, v | LastFor(x.store.users, u) && LastFor(x.store.users, v) && u.id == v.id :: u == v)
    && (forall t | t in x.store.tweets :: 1 <= t.id <= x.idCounterTweets && t.createdAt <= x.clockNow)
    && (forall i, j | 0 <= i < j < |x.store.tweets| :: x.store.tweets[i].id != x.store.tweets[j].id)
  }

  /** Admission checks are bypassed, yet the loaded service is one that all the theorems on runs start from
      exactly when the uploaded state is sound. */
  lemma LoadRestsExactlyWhen(x: ServiceState)
    ensures AtRest(Load(x)) <==> Sound(x)
  {
    hide StoreOk, UserLedger, TweetLedger, LastFor, SelfContained, AllTweets, Replace;
    ReplaceView(x.store);
    TablesSound(x);
    UsersSound(x);
    TweetsSound(x.store.tweets, x.idCounterTweets);
  }

  lemma TablesSound(x: ServiceState)
    ensures StoreOk(Load(x)) <==> SelfContained(x.store) && forall t | t in x.store.tweets :: t.createdAt <= x.clockNow
  {
    ReplaceView(x.store);
    LoadedTweets(x);
    hide AllTweets, Edges, HasHandle;
    forall h ensures h in Load(x).store.users <==> HasHandle(x.store.users, h) { HandleIndexed(x.store.users, h); }
  }

  lemma {:induction false} HandleIndexed(us: seq<User>, h: string)
    ensures h in IndexUsers(us) <==> HasHandle(us, h)
  {
    if us != [] {
      var n := |us| - 1;
      HandleIndexed(us[..n], h);
      assert us == us[..n] + [us[n]];
    }
  }

  lemma UsersSound(x: ServiceState)
    ensures UserLedger(Load(x).store.users, map[], x.idCounterUsers, x.idCounterUsers - |Load(x).store.users|) <==>
            && 0 <= x.idCounterUsers
            && (forall u | LastFor(x.store.users, u) :: 1 <= u.id <= x.idCounterUsers)
            && (forall u, v | LastFor(x.store.users, u) && LastFor(x.store.users, v) && u.id == v.id :: u == v)
  {
    LoadedUsers(x);
    hide LastFor, Replace;
    var users := Load(x).store.users;
    forall h | h in users ensures LastFor(x.store.users, users[h]) { }
  }

  lemma TweetsSound(ts: seq<Tweet>, ctr: int)
    ensures TweetLedger(multiset(ts), map[], ctr, ctr - |multiset(ts)|) <==>
            && 0 <= ctr && (forall t | t in ts :: 1 <= t.id <= ctr)
            && forall i, j | 0 <= i < j < |ts| :: ts[i].id != ts[j].id
  {
    forall t ensures t in multiset(ts) <==> t in ts { }
    if DistinctIds(multiset(ts)) {
      forall i, j | 0 <= i < j < |ts| ensures ts[i].id != ts[j].id {
        assert ts[i] in multiset(ts) && ts[j] in multiset(ts);
        if ts[i] == ts[j] { TwiceCounts(ts, i, j); }
      }
    } else if forall i, j | 0 <= i < j < |ts| :: ts[i].id != ts[j].id {
      DistinctTweetsBag(ts);
      forall t | t in multiset(ts) ensures multiset(ts)[t] == 1 { AtMostOnce(ts, t); }
      assert false;
    }
  }

  lemma AtRestNeverReissues(x: ServiceState)
    requires AtRest(Load(x))
    ensures !ReissuesTweetId(x) && !ReissuesUserId(x)
  {
    LoadedTweets(x);
    LoadedUsers(x);
    TweetIdReissuedExactlyWhen(x);
    UserIdReissuedExactlyWhen(x);
  }

  /** A snapshot taken with no other call in flight never leads there. */
  lemma TakenAloneNeverReissues(s: Svc, x: ServiceState)
    requires AtRest(s) && TakenAlone(s, x)
    ensures !ReissuesTweetId(x) && !ReissuesUserId(x)
  {
    LoadAlike(s, x);
    AtRestNeverReissues(x);
  }
}
