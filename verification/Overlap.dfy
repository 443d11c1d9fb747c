/** Runs that show what interleaving can do: snapshots that overlap other calls, and ids out of order. */
module Overlap {
  import opened Domain
  import opened Store
  import opened Views
  import opened Calls
  import opened Services
  import opened Machine
  import opened Invariants
  import opened Interleavings
  import opened Reference
  import opened Schedules
  import opened Reissue

  // ----- snapshots that overlap other calls -----

  lemma AliceJoins(base: Svc, m: State, tid: nat) returns (n: State)
    requires Runs(base, m) && tid !in m.busy && m.svc == NEW
    ensures Runs(base, n) && n.busy == m.busy && n.svc == Svc(EMPTY.(users := map["a" := User(1, "a")]), 1, 0, 0)
    ensures m.hist < n.hist && JustReturned(n, UserMade(User(1, "a")))
    ensures forall i | |m.hist| <= i < |n.hist| && n.hist[i].event.Invoked? :: n.hist[i].event.call == CreateUser("a")
  {
    hide Runs;
    AloneCreate(m.svc, "a");
    n := CallAlone(base, m, tid, CreateUser("a"), UserMade(User(1, "a")));
  }

  /** Thread 1's snapshot has read the clock and both counters; the tables are still to come. */
  lemma CountersRead(base: Svc, m: State) returns (n: State)
    requires Runs(base, m) && m.busy == map[]
    ensures Runs(base, n) && n.svc == m.svc && n.busy.Keys == {1} && n.busy[1].call == SnapshotState
    ensures n.busy[1].pc == TweetCtrRead(m.svc.clock, m.svc.userCtr, m.svc.tweetCtr)
  {
    hide Runs;
    n := Starts(base, m, 1, SnapshotState);
    n := Moves(base, n, 1);
    n := Moves(base, n, 1);
    n := Moves(base, n, 1);
  }

  lemma TablesRead(base: Svc, m: State, x: ServiceState) returns (n: State)
    requires Runs(base, m) && m.busy.Keys == {1} && m.busy[1].call == SnapshotState && IsSnapshot(m.svc.store, x.store)
    requires m.busy[1].pc == TweetCtrRead(x.clockNow, x.idCounterUsers, x.idCounterTweets)
    ensures Runs(base, n) && n.busy == map[] && JustReturned(n, Captured(x))
  {
    hide Runs;
    n := Ends(base, m, 1, Captured(x));
    assert n.busy.Keys == {};
  }

  /** "Atomically" is not so: a post that slips in between the counter read and the table read is captured
      under a counter that does not cover it, and the restored service hands its id out again. */
  lemma OverlappedSnapshotReissues() returns (m: State, k: nat, x: ServiceState)
    ensures Reachable(NEW, m) && m.busy == map[] && Returns(m.hist, k, Captured(x)) && ReissuesTweetId(x)
  {
    hide Runs, AtRest, ReissuesTweetId, Alone, AllTweets;
    NewAtRest();
    RunsQuiet(NEW);
    m := AliceJoins(NEW, Quiet(NEW), 0);
    m := CountersRead(NEW, m);
    var t := Tweet(1, "a", "hi", 0);
    AlonePost(m.svc, "a", "hi");
    PutTweetBag(m.svc.store, t);
    m := CallAlone(NEW, m, 2, Post("a", "hi"), Posted(t));
    var s := SnapshotExists(m.svc.store);
    x := ServiceState(0, 1, 0, s);
    assert t in s.tweets by { assert t in multiset(s.tweets); }
    m := TablesRead(NEW, m, x);
    k := |m.hist| - 1;
    TweetIdReissuedExactlyWhen(x);
  }

  /** The same with `create_user`: the new user is captured under a counter that does not cover its id. */
  lemma OverlappedSnapshotReissuesUserId() returns (m: State, k: nat, x: ServiceState)
    ensures Reachable(NEW, m) && m.busy == map[] && Returns(m.hist, k, Captured(x)) && ReissuesUserId(x)
  {
    hide Runs, AtRest, ReissuesUserId;
    NewAtRest();
    RunsQuiet(NEW);
    m := CountersRead(NEW, Quiet(NEW));
    m := AliceJoins(NEW, m, 2);
    var s := SnapshotExists(m.svc.store);
    x := ServiceState(0, 0, 0, s);
    Normalise.OnlyEntry(m.svc.store, s.users, User(1, "a"));
    m := TablesRead(NEW, m, x);
    k := |m.hist| - 1;
    UserIdReissuedExactlyWhen(x);
  }

  /** Nor may a load overlap a post, even one that took all its locks at once: here the loaded state is sound,
      and yet the post under way and the next one return the same id. */
  lemma LoadOverlapsPost() returns (m: State, x: ServiceState, t: Tweet, u: Tweet)
    ensures Reachable(NEW, m) && m.busy.Keys == {1} && AtRest(Load(x))
    ensures var (s, o) := Alone(Load(x), m.busy[1].call, m.busy[1].pc);
            o == Finish(Posted(t)) && Alone(s, Post("a", "B"), Begin).1 == Finish(Posted(u)) && t.id == u.id
  {
    hide Runs, AtRest, Alone;
    NewAtRest();
    RunsQuiet(NEW);
    m := AliceJoins(NEW, Quiet(NEW), 0);
    m := IdTaken(NEW, m, 1, "a", "A");
    x := ServiceState(0, 1, 0, StoreSnapshot([User(1, "a")], [], []));
    AliceLoads(x);
    t, u := Tweet(1, "a", "A", 0), Tweet(1, "a", "B", 0);
    AloneAppend(Load(x), "a", "A", 1);
    AlonePost(Load(x).(store := PutTweet(Load(x).store, t).value), "a", "B");
  }

  lemma AliceLoads(x: ServiceState)
    requires x == ServiceState(0, 1, 0, StoreSnapshot([User(1, "a")], [], []))
    ensures AtRest(Load(x)) && "a" in Load(x).store.users
  {
    LoadRestsExactlyWhen(x);
    HandleIndexed(x.store.users, "a");
    assert HasHandle(x.store.users, "a") by { assert User(1, "a") in x.store.users; }
  }

  // ----- ids need not follow the order in which calls take effect -----

  ghost predicate OnlyPostsBy(hist: seq<Entry>, a: string) {
    forall i | 0 <= i < |hist| && hist[i].event.Invoked? && hist[i].event.call.Post? :: hist[i].event.call.author == a
  }

  /** Post A draws id 1, post B draws id 2 and is stored first: a timeline in between shows id 2 alone, and
      the author's list descends in id. */
  lemma IdsOutOfOrder() returns (m: State, k: nat)
    ensures Reachable(NEW, m) && m.busy == map[] && OnlyPostsBy(m.hist, "a")
    ensures Returns(m.hist, k, Timeline([Tweet(2, "a", "B", 0)])) && m.hist[k].event.call == HomeTimeline("a", 0)
    ensures ListOf(m.svc.store.byAuthor, "a") == [Tweet(2, "a", "B", 0), Tweet(1, "a", "A", 0)]
  {
    hide Runs, AtRest, Alone, IsTimeline;
    NewAtRest();
    m := SecondIdFirst();
    m := Shows(NEW, m, 3, "a", [Tweet(2, "a", "B", 0)]);
    k := |m.hist| - 1;
    AloneAppend(m.svc, "a", "A", 1);
    m := FinishAlone(NEW, m, 1, Posted(Tweet(1, "a", "A", 0)));
  }

  /** With a tick before A reads the clock, the larger id carries the earlier timestamp. */
  lemma LargerIdEarlierDate() returns (m: State)
    ensures Reachable(NEW, m) && m.busy == map[]
    ensures ListOf(m.svc.store.byAuthor, "a") == [Tweet(2, "a", "B", 0), Tweet(1, "a", "A", 1)]
  {
    hide Runs, AtRest, Alone, IsTimeline;
    NewAtRest();
    m := SecondIdFirst();
    m := TickAlone(m, 3);
    AloneAppend(m.svc, "a", "A", 1);
    m := FinishAlone(NEW, m, 1, Posted(Tweet(1, "a", "A", 1)));
  }

  lemma TickAlone(m: State, tid: nat) returns (n: State)
    requires Runs(NEW, m) && tid !in m.busy
    ensures Runs(NEW, n) && n.busy == m.busy && n.svc == m.svc.(clock := m.svc.clock + 1)
  {
    hide Runs;
    n := CallAlone(NEW, m, tid, Tick, Done);
  }

  lemma EarlyStamp() returns (m: State)
    ensures Runs(NEW, m) && m.svc == Svc(EMPTY.(users := map["a" := User(1, "a")]), 1, 1, 1)
    ensures m.busy.Keys == {1} && m.busy[1].call == Post("a", "A") && m.busy[1].pc == Stamped(1, 0)
  {
    hide Runs;
    RunsQuiet(NEW);
    m := AliceJoins(NEW, Quiet(NEW), 0);
    m := IdTaken(NEW, m, 1, "a", "A");
    m := Moves(NEW, m, 1);
    m := TickAlone(m, 3);
  }

  /** With a tick after A has read the clock, and B read it then, the list descends in timestamps too. */
  lemma DatesOutOfOrder() returns (m: State)
    ensures Reachable(NEW, m) && m.busy == map[]
    ensures ListOf(m.svc.store.byAuthor, "a") == [Tweet(2, "a", "B", 1), Tweet(1, "a", "A", 0)]
  {
    hide Runs, AtRest, Alone;
    NewAtRest();
    m := EarlyStamp();
    AlonePost(m.svc, "a", "B");
    m := CallAlone(NEW, m, 2, Post("a", "B"), Posted(Tweet(2, "a", "B", 1)));
    m := Ends(NEW, m, 1, Posted(Tweet(1, "a", "A", 0)));
    assert m.busy.Keys == {};
  }

  lemma SecondIdFirst() returns (m: State)
    ensures Runs(NEW, m) && OnlyPostsBy(m.hist, "a") && IsTimeline(m.svc.store, "a", 0, [Tweet(2, "a", "B", 0)])
    ensures "a" in m.svc.store.users && m.svc.clock == 0 && ListOf(m.svc.store.byAuthor, "a") == [Tweet(2, "a", "B", 0)]
    ensures m.busy.Keys == {1} && m.busy[1].call == Post("a", "A") && m.busy[1].pc == TweetIdTaken(1)
  {
    hide Runs, Alone, IsTimeline;
    RunsQuiet(NEW);
    m := AliceJoins(NEW, Quiet(NEW), 0);
    m := IdTaken(NEW, m, 1, "a", "A");
    var t := Tweet(2, "a", "B", 0);
    AlonePost(m.svc, "a", "B");
    OnlyTweetShown(m.svc.store, t);
    m := CallAlone(NEW, m, 2, Post("a", "B"), Posted(t));
  }

  lemma IdTaken(base: Svc, m: State, tid: nat, author: string, text: string) returns (n: State)
    requires Runs(base, m) && tid !in m.busy && author in m.svc.store.users && text != ""
    ensures Runs(base, n) && n.busy.Keys == m.busy.Keys + {tid} && n.busy[tid].call == Post(author, text)
    ensures n.busy[tid].pc == TweetIdTaken(m.svc.tweetCtr + 1) && n.svc == m.svc.(tweetCtr := m.svc.tweetCtr + 1)
    ensures m.hist < n.hist
    ensures forall i | |m.hist| <= i < |n.hist| && n.hist[i].event.Invoked? ::
            n.hist[i].event.call == Post(author, text)
  {
    hide Runs;
    n := Starts(base, m, tid, Post(author, text));
    n := Moves(base, n, tid);
    n := Moves(base, n, tid);
  }

  lemma OnlyTweetShown(s: Inner, t: Tweet)
    requires s.byAuthor == map[] && t.author in s.users
    ensures IsTimeline(PutTweet(s, t).value, t.author, 0, [t])
  {
    var n := PutTweet(s, t).value;
    PutTweetBag(s, t);
    forall u: Tweet ensures Visible(n, t.author)[u] == multiset{t}[u] {
      PutTweetOwnLists(s, t);
      VisibleCount(n, t.author, u);
    }
    assert Visible(n, t.author) == multiset{t};
  }

  lemma Shows(base: Svc, m: State, tid: nat, user: string, r: seq<Tweet>) returns (n: State)
    requires Runs(base, m) && tid !in m.busy && IsTimeline(m.svc.store, user, 0, r)
    ensures Runs(base, n) && n.busy == m.busy && n.svc == m.svc && m.hist < n.hist && JustReturned(n, Timeline(r))
    ensures forall i | |m.hist| <= i < |n.hist| && n.hist[i].event.Invoked? ::
            n.hist[i].event.call == HomeTimeline(user, 0)
    ensures n.hist[|n.hist| - 1].event.call == HomeTimeline(user, 0)
  {
    hide Runs, IsTimeline;
    n := Starts(base, m, tid, HomeTimeline(user, 0));
    n := Ends(base, n, tid, Timeline(r));
    assert n.busy == m.busy;
  }

  /** One call at a time that cannot happen: if `a` alone posts, an unlimited timeline of `a` that shows
      anything reaches down to the tweet with id 1. */
  lemma OneAtATimeShowsTheFirst(calls: seq<Call>, replies: seq<Reply>, states: seq<Svc>, i: nat, a: string)
    requires OneAtATime(calls, replies, states) && i < |calls| && calls[i] == HomeTimeline(a, 0)
    requires forall j | 0 <= j < |calls| && calls[j].Post? :: calls[j].author == a
    ensures replies[i].Timeline? && var ts := replies[i].tweets; ts == [] || ts[|ts| - 1].id == 1
  {
    OneAtATimeRefinesLog(calls, replies, states, i);
    StatesRepresented(calls, replies, states, i);
    hide OneAtATime, AfterAll;
    var r := AfterAll(calls[..i]);
    LogOnlyBy(calls[..i], a);
    if r.log != [] { OldestLast(r.log, Shown(r, a)); }
  }

  lemma {:induction false} LogOnlyBy(calls: seq<Call>, a: string)
    requires forall j | 0 <= j < |calls| && calls[j].Post? :: calls[j].author == a
    ensures forall t | t in AfterAll(calls).log :: t.author == a
  {
    if calls != [] { LogOnlyBy(calls[..|calls| - 1], a); }
  }

  lemma {:induction false} OldestLast(log: seq<Tweet>, authors: set<string>)
    requires log != [] && log[0].author in authors
    ensures var ts := NewestFrom(log, authors); ts != [] && ts[|ts| - 1] == log[0]
  {
    if |log| > 1 { OldestLast(log[..|log| - 1], authors); }
  }
}
