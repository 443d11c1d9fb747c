/** Any number of threads inside the service at once: their steps interleave lock by lock. */
module Machine {
  import opened Domain
  import opened Store
  import opened Views
  import opened Calls

  /** A call in flight: where it stands, and the place in the history of its invocation. */
  datatype InFlight = InFlight(call: Call, pc: Pc, since: nat)

  type Busy = b: InFlight | Fits(b.call, b.pc) witness InFlight(Tick, Begin, 0)

  datatype Event =
    | Invoked(tid: nat, call: Call)
    | Stepped(tid: nat, pc: Pc)
    | Returned(tid: nat, call: Call, reply: Reply, since: nat)

  /** What happened, and the shared state just after. */
  datatype Entry = Entry(event: Event, after: Svc)

  datatype State = State(svc: Svc, busy: map<nat, Busy>, hist: seq<Entry>)

  /** Threads start calls, take the next step of one, or take the step that ends one. */
  datatype Action = Invoke(tid: nat, call: Call) | Proceed(tid: nat) | Return(tid: nat, reply: Reply)

  function Quiet(svc: Svc): State { State(svc, map[], []) }

  ghost predicate Enabled(m: State, a: Action)
  {
    match a
    case Invoke(tid, _) => tid !in m.busy
    case Proceed(tid) => tid in m.busy && Step(m.svc, m.busy[tid].call, m.busy[tid].pc).1.Continue?
    case Return(tid, reply) => tid in m.busy && Answers(m.svc, Step(m.svc, m.busy[tid].call, m.busy[tid].pc).1, reply)
  }

  ghost function Apply(m: State, a: Action): State
    requires Enabled(m, a)
  {
    match a
    case Invoke(tid, call) =>
      State(m.svc, m.busy[tid := InFlight(call, Begin, |m.hist|)], m.hist + [Entry(Invoked(tid, call), m.svc)])
    case Proceed(tid) =>
      var b := m.busy[tid];
      var (s, o) := Step(m.svc, b.call, b.pc);
      State(s, m.busy[tid := b.(pc := o.pc)], m.hist + [Entry(Stepped(tid, o.pc), s)])
    case Return(tid, reply) =>
      var b := m.busy[tid];
      var (s, _) := Step(m.svc, b.call, b.pc);
      State(s, m.busy - {tid}, m.hist + [Entry(Returned(tid, b.call, reply, b.since), s)])
  }

  // ----- what every step gives the other threads to rely on -----

  /** Counters and clock never go back; users, with their ids, and tweets are never lost. */
  ghost predicate Grows(a: Svc, b: Svc) {
    && a.userCtr <= b.userCtr && a.tweetCtr <= b.tweetCtr && a.clock <= b.clock
    && (forall h | h in a.store.users :: h in b.store.users && b.store.users[h] == a.store.users[h])
    && AllTweets(a.store) <= AllTweets(b.store)
  }

  /** F4, F6, F9 and timestamps: edges join two different registered users, authors are registered,
      everything is filed under its key, and nothing stored is dated after the clock. */
  ghost predicate StoreOk(s: Svc) {
    && WellKeyed(s.store)
    && (forall f | f in Edges(s.store) :: f.from != f.to && f.from in s.store.users && f.to in s.store.users)
    && (forall t | t in AllTweets(s.store) :: t.author in s.store.users && t.createdAt <= s.clock)
  }

  /** What a call in flight has learnt stays true: `start` is the state it was invoked in. */
  ghost predicate Learnt(start: Svc, s: Svc, call: Call, pc: Pc)
    requires Fits(call, pc)
  {
    match pc
    case Begin => true
    case UserIdTaken(id) => call.handle != "" && start.userCtr < id <= s.userCtr
    case FromKnown => call.from in s.store.users
    case BothKnown => call.from in s.store.users && call.to in s.store.users
    case AuthorKnown => call.text != "" && call.author in s.store.users
    case TweetIdTaken(id) => call.text != "" && call.author in s.store.users && start.tweetCtr < id <= s.tweetCtr
    case Stamped(id, at) =>
      && call.text != "" && call.author in s.store.users
      && start.tweetCtr < id <= s.tweetCtr && start.clock <= at <= s.clock
    case ClockRead(now) => start.clock <= now <= s.clock
    case UserCtrRead(now, uc) => start.clock <= now <= s.clock && start.userCtr <= uc <= s.userCtr
    case TweetCtrRead(now, uc, tc) =>
      start.clock <= now <= s.clock && start.userCtr <= uc <= s.userCtr && start.tweetCtr <= tc <= s.tweetCtr
  }

  /** The call as one indivisible operation on the tables: what it may answer and what it leaves. */
  ghost predicate Atomic(s: Inner, call: Call, reply: Reply, s': Inner) {
    match call
    case CreateUser(handle) =>
      if handle == "" then reply == Fail(EmptyHandle) && s' == s
      else if handle in s.users then reply == Fail(DuplicateUser) && s' == s
      else reply.UserMade? && reply.user.handle == handle && s' == s.(users := s.users[handle := reply.user])
    case HasUser(handle) => reply == Known(handle in s.users) && s' == s
    case FollowUser(from, to) =>
      if from == to then reply == Fail(SelfFollow) && s' == s
      else if from !in s.users || to !in s.users then reply == Fail(UnknownUser) && s' == s
      else && reply == Done && s'.users == s.users && s'.byAuthor == s.byAuthor
           && Edges(s') == Edges(s) + {Follow(from, to)}
    case Unfollow(from, to) =>
      if from !in s.users || to !in s.users then reply == Fail(UnknownUser) && s' == s
      else && reply == Done && s'.users == s.users && s'.byAuthor == s.byAuthor
           && Edges(s') == Edges(s) - {Follow(from, to)}
    case Post(author, text) =>
      if text == "" then reply == Fail(EmptyText) && s' == s
      else if author !in s.users then reply == Fail(UnknownUser) && s' == s
      else && reply.Posted? && reply.tweet.author == author && reply.tweet.text == text
           && s'.users == s.users && s'.follows == s.follows && AllTweets(s') == AllTweets(s) + multiset{reply.tweet}
    case HomeTimeline(user, limit) => reply.Timeline? && IsTimeline(s, user, limit, reply.tweets) && s' == s
    case Tick => reply == Done && s' == s
    case SnapshotState => reply.Captured? && IsSnapshot(s, reply.state.store) && s' == s
  }

  /** What a finished call's reply owes to the states it was invoked (`start`) and ended (`end`) in. */
  ghost predicate Earned(start: Svc, end: Svc, reply: Reply) {
    match reply
    case UserMade(u) =>
      && start.userCtr < u.id <= end.userCtr && u.handle in end.store.users
      && end.store.users[u.handle] == u
    case Posted(t) =>
      && start.tweetCtr < t.id <= end.tweetCtr && start.clock <= t.createdAt <= end.clock
      && t in AllTweets(end.store)
    case Captured(x) =>
      && start.clock <= x.clockNow <= end.clock && start.userCtr <= x.idCounterUsers <= end.userCtr
      && start.tweetCtr <= x.idCounterTweets <= end.tweetCtr && IsSnapshot(end.store, x.store)
    case _ => true
  }

  /** The call as one indivisible operation on everything the locks protect: what it does to the tables and
      the clock, and where its id, timestamp or captured counters lie. The ids were drawn earlier in the
      call's own window, so the counters stand still here. */
  ghost predicate AtOnce(start: Svc, s: Svc, call: Call, reply: Reply, s': Svc) {
    && Atomic(s.store, call, reply, s'.store)
    && s'.clock == s.clock + (if call.Tick? then 1 else 0)
    && s'.userCtr == s.userCtr && s'.tweetCtr == s.tweetCtr
    && Earned(start, s', reply)
  }

  lemma GrowsTransitive(a: Svc, b: Svc, c: Svc)
    requires Grows(a, b) && Grows(b, c)
    ensures Grows(a, c)
  { }

  lemma LearntStable(start: Svc, s: Svc, s': Svc, call: Call, pc: Pc)
    requires Fits(call, pc) && Learnt(start, s, call, pc) && Grows(s, s')
    ensures Learnt(start, s', call, pc)
  { }

  /** On any tables filed under their keys, loaded ones included, no lock acquisition loses anything. */
  lemma StepGrows(s: Svc, call: Call, pc: Pc)
    requires Fits(call, pc) && WellKeyed(s.store)
    ensures WellKeyed(Step(s, call, pc).0.store) && Grows(s, Step(s, call, pc).0)
  {
    if call.Post? && pc.Stamped? && call.author in s.store.users {
      var t := Tweet(pc.tweetId, call.author, call.text, pc.at);
      PutTweetOwnLists(s.store, t);
      PutTweetBag(s.store, t);
    }
  }

  /** The store writes keep the store's invariant and only add users and tweets. */
  lemma StepKeepsStore(start: Svc, s: Svc, call: Call, pc: Pc)
    requires Fits(call, pc) && StoreOk(s) && Learnt(start, s, call, pc)
    ensures StoreOk(Step(s, call, pc).0) && Grows(s, Step(s, call, pc).0)
  {
    match call
    case FollowUser(from, to) =>
      if from != to && from in s.store.users && to in s.store.users { PutFollowEdges(s.store, Follow(from, to)); }
    case Unfollow(from, to) => DeleteFollowEdges(s.store, from, to);
    case Post(author, text) =>
      if pc.Stamped? {
        var t := Tweet(pc.tweetId, author, text, pc.at);
        PutTweetOwnLists(s.store, t);
        PutTweetBag(s.store, t);
      }
    case CreateUser(_) =>
    case _ =>
  }

  lemma StepLearns(start: Svc, s: Svc, call: Call, pc: Pc)
    requires Fits(call, pc) && Learnt(start, s, call, pc) && Grows(start, s)
    requires Step(s, call, pc).1.Continue?
    ensures Learnt(start, Step(s, call, pc).0, call, Step(s, call, pc).1.pc)
    ensures Step(s, call, pc).0.store == s.store && Step(s, call, pc).0.clock == s.clock
  { }

  /** The step that ends a call does what the whole call would do in one piece, there and then. In
      particular the delete of an unfollow and the append of a post rest on earlier, still valid checks. */
  lemma LastStepIsAtomic(start: Svc, s: Svc, call: Call, pc: Pc, reply: Reply)
    requires Fits(call, pc) && WellKeyed(s.store) && Learnt(start, s, call, pc) && Grows(start, s)
    requires Answers(s, Step(s, call, pc).1, reply)
    ensures AtOnce(start, s, call, reply, Step(s, call, pc).0)
  {
    match call
    case FollowUser(from, to) =>
      if from != to && from in s.store.users && to in s.store.users { PutFollowEdges(s.store, Follow(from, to)); }
    case Unfollow(from, to) => DeleteFollowEdges(s.store, from, to);
    case Post(author, text) =>
      if pc.Stamped? { PutTweetBag(s.store, Tweet(pc.tweetId, author, text, pc.at)); }
    case _ =>
  }
}
