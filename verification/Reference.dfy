/** The service as its users think of it - a list of users, a set of edges and one append-only log of
    accepted posts - and the proof that calls made one at a time cannot tell the difference. */
module Reference {
  import opened Domain
  import opened Sorting
  import opened Store
  import opened Views
  import opened Calls
  import opened Services

  datatype Ref = Ref(users: seq<User>, edges: set<Follow>, log: seq<Tweet>, attempts: nat, clock: int)

  const START := Ref([], {}, [], 0, 0)

  predicate Has(r: Ref, handle: string) {
    exists u :: u in r.users && u.handle == handle
  }

  /** The log from its end, keeping the posts of `authors`. */
  function NewestFrom(log: seq<Tweet>, authors: set<string>): seq<Tweet> {
    if log == [] then []
    else
      var n := |log| - 1;
      (if log[n].author in authors then [log[n]] else []) + NewestFrom(log[..n], authors)
  }

  function Shown(r: Ref, user: string): set<string> {
    {user} + set f | f in r.edges && f.from == user :: f.to
  }

  /** What a call does. */
  function After(r: Ref, call: Call): Ref {
    match call
    case CreateUser(handle) =>
      if handle == "" then r
      else if Has(r, handle) then r.(attempts := r.attempts + 1)
      else r.(attempts := r.attempts + 1, users := r.users + [User(r.attempts + 1, handle)])
    case FollowUser(from, to) =>
      if from != to && Has(r, from) && Has(r, to) then r.(edges := r.edges + {Follow(from, to)}) else r
    case Unfollow(from, to) =>
      if Has(r, from) && Has(r, to) then r.(edges := r.edges - {Follow(from, to)}) else r
    case Post(author, text) =>
      if text != "" && Has(r, author) then r.(log := r.log + [Tweet(|r.log| + 1, author, text, r.clock)]) else r
    case Tick => r.(clock := r.clock + 1)
    case _ => r
  }

  /** What a call answers: one reply each, the sorted list of edges included. */
  ghost predicate Replies(r: Ref, call: Call, reply: Reply) {
    match call
    case CreateUser(handle) =>
      reply == if handle == "" then Fail(EmptyHandle)
               else if Has(r, handle) then Fail(DuplicateUser)
               else UserMade(User(r.attempts + 1, handle))
    case HasUser(handle) => reply == Known(Has(r, handle))
    case FollowUser(from, to) =>
      reply == if from == to then Fail(SelfFollow) else if Has(r, from) && Has(r, to) then Done else Fail(UnknownUser)
    case Unfollow(from, to) => reply == if Has(r, from) && Has(r, to) then Done else Fail(UnknownUser)
    case Post(author, text) =>
      reply == if text == "" then Fail(EmptyText) else if !Has(r, author) then Fail(UnknownUser)
               else Posted(Tweet(|r.log| + 1, author, text, r.clock))
    case HomeTimeline(user, limit) => reply == Timeline(Cut(NewestFrom(r.log, Shown(r, user)), limit))
    case Tick => reply == Done
    case SnapshotState =>
      && reply.Captured? && var x := reply.state;
      && x == ServiceState(r.clock, r.attempts, |r.log|, StoreSnapshot(r.users, x.store.follows, r.log))
      && StrictlySortedBy(ByEnds, x.store.follows) && forall f :: f in x.store.follows <==> f in r.edges
  }

  // ----- the simulation -----

  ghost predicate Represents(s: Svc, r: Ref) {
    && s.userCtr == r.attempts && s.tweetCtr == |r.log| && s.clock == r.clock
    && WellKeyed(s.store)
    && UsersAgree(s.store.users, r.users) && UsersListed(r.users, r.attempts)
    && Edges(s.store) == r.edges
    && AllTweets(s.store) == multiset(r.log) && InOrder(r.log, r.clock)
    && ListsFollow(s.store.byAuthor, r.log)
  }

  /** Every author's list is append-only: the author's part of the log, in log order. */
  ghost predicate ListsFollow(byAuthor: map<string, seq<Tweet>>, log: seq<Tweet>) {
    forall a :: ListOf(byAuthor, a) == ByAuthor(log, a)
  }

  ghost predicate UsersAgree(users: map<string, User>, list: seq<User>) {
    forall u: User :: u in list <==> u.handle in users && users[u.handle] == u
  }

  ghost predicate UsersListed(list: seq<User>, attempts: nat) {
    && (forall i, j | 0 <= i < j < |list| :: list[i].id < list[j].id)
    && (forall u | u in list :: u.id <= attempts)
  }

  /** Ids count up from one, timestamps never go back. */
  ghost predicate InOrder(log: seq<Tweet>, clock: int) {
    && (forall i | 0 <= i < |log| :: log[i].id == i + 1 && log[i].createdAt <= clock)
    && (forall i, j | 0 <= i < j < |log| :: log[i].createdAt <= log[j].createdAt)
  }

  lemma StartRepresented()
    ensures Represents(NEW, START)
  { }

  lemma HasAgrees(s: Svc, r: Ref, h: string)
    requires Represents(s, r)
    ensures Has(r, h) <==> h in s.store.users
  {
    if h in s.store.users { assert s.store.users[h] in r.users; }
  }

  /** One call on the service: alone from start to end, with any reply it may give. */
  ghost predicate OneCall(s: Svc, call: Call, reply: Reply, s': Svc) {
    var (e, o) := Alone(s, call, Begin);
    s' == e && Answers(e, o, reply)
  }

  lemma CreateSimulated(s: Svc, r: Ref, handle: string)
    requires Represents(s, r)
    ensures var (e, o) := Alone(s, CreateUser(handle), Begin);
            Represents(e, After(r, CreateUser(handle))) && o.Finish? && Replies(r, CreateUser(handle), o.reply)
  {
    HasAgrees(s, r, handle);
    if handle != "" {
      AloneCreate(s, handle);
      RepresentsCounters(s, r);
      hide Alone, Represents;
      IdSpent(s, r);
      if !Has(r, handle) { ListsUser(s, r, User(s.userCtr + 1, handle)); }
    }
  }

  lemma IdSpent(s: Svc, r: Ref)
    requires Represents(s, r)
    ensures Represents(s.(userCtr := s.userCtr + 1), r.(attempts := r.attempts + 1))
  { }

  lemma ListsUser(s: Svc, r: Ref, u: User)
    requires Represents(s, r) && u.id == r.attempts + 1 && u.handle !in s.store.users
    ensures Represents(s.(userCtr := s.userCtr + 1, store := PutUser(s.store, u).value),
                       r.(attempts := r.attempts + 1, users := r.users + [u]))
  {
    hide InOrder, AllTweets, ListsFollow, Edges;
    forall v: User ensures v in r.users + [u] <==> v in r.users || v == u { }
    SameFollows(s.store, u);
  }

  lemma SameFollows(s: Inner, u: User)
    requires u.handle !in s.users
    ensures Edges(PutUser(s, u).value) == Edges(s) && AllTweets(PutUser(s, u).value) == AllTweets(s)
  { }

  lemma FollowSimulated(s: Svc, r: Ref, from: string, to: string)
    requires Represents(s, r)
    ensures var (e, o) := Alone(s, FollowUser(from, to), Begin);
            Represents(e, After(r, FollowUser(from, to))) && o.Finish? && Replies(r, FollowUser(from, to), o.reply)
  {
    HasAgrees(s, r, from);
    HasAgrees(s, r, to);
    if from != to && Has(r, from) && Has(r, to) { PutFollowEdges(s.store, Follow(from, to)); }
  }

  lemma UnfollowSimulated(s: Svc, r: Ref, from: string, to: string)
    requires Represents(s, r)
    ensures var (e, o) := Alone(s, Unfollow(from, to), Begin);
            Represents(e, After(r, Unfollow(from, to))) && o.Finish? && Replies(r, Unfollow(from, to), o.reply)
  {
    HasAgrees(s, r, from);
    HasAgrees(s, r, to);
    AloneUnfollow(s, from, to);
    DeleteFollowEdges(s.store, from, to);
  }

  lemma PostSimulated(s: Svc, r: Ref, author: string, text: string)
    requires Represents(s, r)
    ensures var (e, o) := Alone(s, Post(author, text), Begin);
            Represents(e, After(r, Post(author, text))) && o.Finish? && Replies(r, Post(author, text), o.reply)
  {
    HasAgrees(s, r, author);
    if text != "" && author in s.store.users {
      AlonePost(s, author, text);
      hide Alone, Represents;
      LogsPost(s, r, Tweet(s.tweetCtr + 1, author, text, s.clock));
      RepresentsCounters(s, r);
    }
  }

  lemma RepresentsCounters(s: Svc, r: Ref)
    requires Represents(s, r)
    ensures s.userCtr == r.attempts && s.tweetCtr == |r.log| && s.clock == r.clock
  { }

  lemma LogsPost(s: Svc, r: Ref, t: Tweet)
    requires Represents(s, r) && t.id == |r.log| + 1 && t.createdAt == r.clock && t.author in s.store.users
    ensures Represents(s.(tweetCtr := s.tweetCtr + 1, store := PutTweet(s.store, t).value), r.(log := r.log + [t]))
  {
    PutTweetBag(s.store, t);
    PutTweetOwnLists(s.store, t);
    LogGrows(r.log, r.clock, t);
    ListGrows(s.store, r.log, t);
    assert Edges(PutTweet(s.store, t).value) == Edges(s.store);
    hide InOrder, AllTweets, Edges, ListsFollow, UsersAgree, UsersListed, OwnLists;
  }

  lemma ListGrows(s: Inner, log: seq<Tweet>, t: Tweet)
    requires ListsFollow(s.byAuthor, log) && t.author in s.users
    ensures ListsFollow(PutTweet(s, t).value.byAuthor, log + [t])
  {
    assert (log + [t])[..|log|] == log;
  }

  lemma LogGrows(log: seq<Tweet>, clock: int, t: Tweet)
    requires InOrder(log, clock) && t.id == |log| + 1 && t.createdAt == clock
    ensures InOrder(log + [t], clock) && multiset(log + [t]) == multiset(log) + multiset{t}
  { }

  // ----- timelines: gathering, sorting and cutting is reading the log backwards -----

  lemma {:induction false} NewestFromCount(log: seq<Tweet>, authors: set<string>, t: Tweet)
    ensures multiset(NewestFrom(log, authors))[t] == if t.author in authors then multiset(log)[t] else 0
  {
    if log != [] {
      var n := |log| - 1;
      NewestFromCount(log[..n], authors, t);
      assert log == log[..n] + [log[n]];
      PushCount(log[..n], log[n], t);
    }
  }

  lemma {:induction false} NewestFromSorted(log: seq<Tweet>, authors: set<string>, clock: int)
    requires InOrder(log, clock)
    ensures SortedBy(NewestFirst, NewestFrom(log, authors))
  {
    if log != [] {
      var n := |log| - 1;
      NewestFromSorted(log[..n], authors, clock);
      forall t | t in NewestFrom(log[..n], authors) ensures NewestFirst(log[n], t) {
        LastIsNewest(log, authors, clock, t);
      }
    }
  }

  lemma LastIsNewest(log: seq<Tweet>, authors: set<string>, clock: int, t: Tweet)
    requires InOrder(log, clock) && log != [] && t in NewestFrom(log[..|log| - 1], authors)
    ensures NewestFirst(log[|log| - 1], t)
  {
    var n := |log| - 1;
    NewestFromCount(log[..n], authors, t);
    assert t in multiset(NewestFrom(log[..n], authors)) && t in multiset(log[..n]);
    var i :| 0 <= i < n && log[i] == t;
  }

  lemma LogBag(log: seq<Tweet>, clock: int)
    requires InOrder(log, clock)
    ensures DistinctIds(multiset(log))
  {
    forall t | t in multiset(log) ensures multiset(log)[t] == 1 { LogOnce(log, clock, t); }
    forall t, u | t in multiset(log) && u in multiset(log) && t.id == u.id ensures t == u {
      var i :| 0 <= i < |log| && log[i] == t;
      var j :| 0 <= j < |log| && log[j] == u;
    }
  }

  lemma {:induction false} LogOnce(log: seq<Tweet>, clock: int, t: Tweet)
    requires InOrder(log, clock)
    ensures multiset(log)[t] <= 1
  {
    if log != [] {
      var n := |log| - 1;
      LogOnce(log[..n], clock, t);
      assert log == log[..n] + [log[n]];
      if t in multiset(log[..n]) { var i :| 0 <= i < n && log[i] == t; }
    }
  }

  /** F1 and F2 against the log: whatever order the authors are gathered in, the timeline is the log from
      its newest end, restricted to the user and whom the user follows, cut to the limit. */
  lemma TimelineIsLogReversed(s: Svc, r: Ref, user: string, limit: nat, tweets: seq<Tweet>)
    requires Represents(s, r) && IsTimeline(s.store, user, limit, tweets)
    ensures tweets == Cut(NewestFrom(r.log, Shown(r, user)), limit)
  {
    ShownBag(s, r, user);
    hide Visible, Shown, Represents, NewestFrom, Cut;
    CutIsOnlyTop(NewestFrom(r.log, Shown(r, user)), limit, tweets);
  }

  lemma CutIsOnlyTop(all: seq<Tweet>, limit: nat, r: seq<Tweet>)
    requires SortedBy(NewestFirst, all) && NoTies(NewestFirst, multiset(all)) && Top(NewestFirst, multiset(all), r)
    requires |r| == if limit > 0 && |multiset(all)| > limit then limit else |multiset(all)|
    ensures r == Cut(all, limit)
  {
    NewestFirstTotal();
    CutIsTop(all, limit);
    TopUnique(NewestFirst, multiset(all), r, Cut(all, limit));
  }

  lemma ShownBag(s: Svc, r: Ref, user: string)
    requires Represents(s, r)
    ensures multiset(NewestFrom(r.log, Shown(r, user))) == Visible(s.store, user)
    ensures SortedBy(NewestFirst, NewestFrom(r.log, Shown(r, user)))
    ensures NoTies(NewestFirst, Visible(s.store, user))
  {
    hide SortedBy, Visible, Shown, NewestFrom, Edges, UsersAgree, UsersListed, ListsFollow;
    forall t: Tweet ensures multiset(NewestFrom(r.log, Shown(r, user)))[t] == Visible(s.store, user)[t] {
      ShownCount(s, r, user, t);
    }
    NewestFromSorted(r.log, Shown(r, user), r.clock);
    LogBag(r.log, r.clock);
    VisibleWithin(s.store, user);
  }

  lemma ShownCount(s: Svc, r: Ref, user: string, t: Tweet)
    requires Represents(s, r)
    ensures multiset(NewestFrom(r.log, Shown(r, user)))[t] == Visible(s.store, user)[t]
  {
    NewestFromCount(r.log, Shown(r, user), t);
    VisibleCount(s.store, user, t);
    assert t.author in Shown(r, user) <==> t.author == user || Follow(user, t.author) in r.edges;
  }

  lemma SnapshotIsReference(s: Svc, r: Ref, x: ServiceState)
    requires Represents(s, r) && Answers(s, ReadStore(s.clock, s.userCtr, s.tweetCtr), Captured(x))
    ensures Replies(r, SnapshotState, Captured(x))
  {
    ByUserIdTotal(); ByIdTotal(); ByEndsTotal();
    SnapshotUsers(s.store.users, r.users, r.attempts, x.store.users);
    LogBag(r.log, r.clock);
    SortedListUnique(ById, multiset(r.log), r.log, x.store.tweets);
    SortedSetStrict(ByEnds, r.edges, x.store.follows);
  }

  lemma SnapshotUsers(users: map<string, User>, list: seq<User>, attempts: nat, us: seq<User>)
    requires UsersAgree(users, list) && UsersListed(list, attempts)
    requires forall h | h in users :: users[h].handle == h
    requires SortedListOf(ByUserId, multiset(users.Values), us)
    ensures us == list
  {
    ByUserIdTotal();
    ListedValues(users, list);
    IncreasingIds(list, attempts);
    StrictIsListing(ByUserId, list, users.Values);
    SortedListUnique(ByUserId, multiset(list), us, list);
  }

  lemma ListedValues(users: map<string, User>, list: seq<User>)
    requires UsersAgree(users, list) && forall h | h in users :: users[h].handle == h
    ensures forall u :: u in list <==> u in users.Values
  {
    forall u: User ensures u in list <==> u in users.Values {
      if u in users.Values { var h :| h in users && users[h] == u; }
    }
  }

  lemma IncreasingIds(list: seq<User>, attempts: nat)
    requires UsersListed(list, attempts)
    ensures StrictlySortedBy(ByUserId, list) && NoTies(ByUserId, multiset(list))
  {
    forall u, v | u in multiset(list) && v in multiset(list) && u.id == v.id ensures u == v {
      var i :| 0 <= i < |list| && list[i] == u;
      var j :| 0 <= j < |list| && list[j] == v;
    }
  }

  lemma CallSimulated(s: Svc, r: Ref, call: Call, reply: Reply, s': Svc)
    requires Represents(s, r) && OneCall(s, call, reply, s')
    ensures Represents(s', After(r, call)) && Replies(r, call, reply)
  {
    match call
    case CreateUser(handle) => CreateSimulated(s, r, handle);
    case HasUser(handle) => HasAgrees(s, r, handle);
    case FollowUser(from, to) => FollowSimulated(s, r, from, to);
    case Unfollow(from, to) => UnfollowSimulated(s, r, from, to);
    case Post(author, text) => PostSimulated(s, r, author, text);
    case HomeTimeline(user, limit) => TimelineIsLogReversed(s, r, user, limit, reply.tweets);
    case Tick =>
    case SnapshotState => AloneSnapshot(s); SnapshotIsReference(s, r, reply.state);
  }

  // ----- whole runs -----

  /** Calls made one at a time from a new service, with the replies got and the states passed through. */
  ghost predicate OneAtATime(calls: seq<Call>, replies: seq<Reply>, states: seq<Svc>) {
    && |replies| == |calls| && |states| == |calls| + 1 && states[0] == NEW
    && forall i | 0 <= i < |calls| :: OneCall(states[i], calls[i], replies[i], states[i + 1])
  }

  function AfterAll(calls: seq<Call>): Ref {
    if calls == [] then START else After(AfterAll(calls[..|calls| - 1]), calls[|calls| - 1])
  }

  lemma {:induction false} StatesRepresented(calls: seq<Call>, replies: seq<Reply>, states: seq<Svc>, i: nat)
    requires OneAtATime(calls, replies, states) && i <= |calls|
    ensures Represents(states[i], AfterAll(calls[..i]))
  {
    hide Represents, OneCall, After;
    if i == 0 { StartRepresented(); } else {
      StatesRepresented(calls, replies, states, i - 1);
      assert calls[..i][..i - 1] == calls[..i - 1];
      CallSimulated(states[i - 1], AfterAll(calls[..i - 1]), calls[i - 1], replies[i - 1], states[i]);
    }
  }

  /** Every reply of every one-call-at-a-time run, ids, timestamps, timelines and snapshots included, is the
      one the log-based reference gives at that point. */
  lemma OneAtATimeRefinesLog(calls: seq<Call>, replies: seq<Reply>, states: seq<Svc>, i: nat)
    requires OneAtATime(calls, replies, states) && i < |calls|
    ensures Replies(AfterAll(calls[..i]), calls[i], replies[i])
  {
    hide Represents, OneCall, Replies, AfterAll;
    StatesRepresented(calls, replies, states, i);
    CallSimulated(states[i], AfterAll(calls[..i]), calls[i], replies[i], states[i + 1]);
  }

  /** In such a run every author's list is the author's part of the log, in the order the posts were accepted. */
  lemma ListsAppendOnly(calls: seq<Call>, replies: seq<Reply>, states: seq<Svc>, i: nat, a: string)
    requires OneAtATime(calls, replies, states) && i <= |calls|
    ensures ListOf(states[i].store.byAuthor, a) == ByAuthor(AfterAll(calls[..i]).log, a)
  {
    StatesRepresented(calls, replies, states, i);
  }

  /** The reference leaves no choice: a call has one reply. */
  lemma RepliesDetermined(r: Ref, call: Call, p: Reply, q: Reply)
    requires Replies(r, call, p) && Replies(r, call, q)
    ensures p == q
  {
    if call.SnapshotState? {
      ByEndsTotal();
      StrictAgree(ByEnds, p.state.store.follows, q.state.store.follows);
    }
  }
}
