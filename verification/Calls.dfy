/** A service call (crates/service) as the steps between its lock acquisitions. */
module Calls {
  import opened Domain
  import opened Store
  import opened Views

  /** Everything the service's locks protect: the store's, the two generators' and the clock's. */
  datatype Svc = Svc(store: Inner, userCtr: int, tweetCtr: int, clock: int)

  const NEW := Svc(EMPTY, 0, 0, 0)

  datatype ServiceState = ServiceState(clockNow: int, idCounterUsers: int, idCounterTweets: int, store: StoreSnapshot)

  datatype Call =
    | CreateUser(handle: string)
    | HasUser(handle: string)
    | FollowUser(from: string, to: string)
    | Unfollow(from: string, to: string)
    | Post(author: string, text: string)
    | HomeTimeline(user: string, limit: nat)
    | Tick
    | SnapshotState

  datatype Reply =
    | Done
    | Known(known: bool)
    | UserMade(user: User)
    | Posted(tweet: Tweet)
    | Timeline(tweets: seq<Tweet>)
    | Captured(state: ServiceState)
    | Fail(error: Error)

  /** Where a call stands: what it has learnt from the locks taken so far. */
  datatype Pc =
    | Begin
    | UserIdTaken(id: int)
    | FromKnown | BothKnown
    | AuthorKnown | TweetIdTaken(tweetId: int) | Stamped(tweetId: int, at: int)
    | ClockRead(now: int) | UserCtrRead(now: int, uc: int) | TweetCtrRead(now: int, uc: int, tc: int)

  /** After a step a call goes on, or ends with a fixed reply, or with what it reads from the store. */
  datatype Outcome =
    | Continue(pc: Pc)
    | Finish(reply: Reply)
    | ReadTimeline(user: string, limit: nat)
    | ReadStore(now: int, uc: int, tc: int)

  predicate Fits(call: Call, pc: Pc) {
    pc.Begin? || match call
                 case CreateUser(_) => pc.UserIdTaken?
                 case Unfollow(_, _) => pc.FromKnown? || pc.BothKnown?
                 case Post(_, _) => pc.AuthorKnown? || pc.TweetIdTaken? || pc.Stamped?
                 case SnapshotState => pc.ClockRead? || pc.UserCtrRead? || pc.TweetCtrRead?
                 case _ => false
  }

  function Stage(pc: Pc): nat {
    match pc
    case Begin => 4
    case FromKnown => 3 case BothKnown => 2
    case UserIdTaken(_) => 1
    case AuthorKnown => 3 case TweetIdTaken(_) => 2 case Stamped(_, _) => 1
    case ClockRead(_) => 3 case UserCtrRead(_, _) => 2 case TweetCtrRead(_, _, _) => 1
  }

  /** One step of a call: at most one lock acquisition. A refused argument ends it without taking any. */
  function Step(s: Svc, call: Call, pc: Pc): (r: (Svc, Outcome))
    requires Fits(call, pc)
    ensures r.1.Continue? ==> Fits(call, r.1.pc) && Stage(r.1.pc) < Stage(pc)
  {
    match call
    case CreateUser(handle) =>
      if pc.Begin? then
        if handle == "" then (s, Finish(Fail(EmptyHandle)))
        else (s.(userCtr := s.userCtr + 1), Continue(UserIdTaken(s.userCtr + 1)))
      else
        var u := User(pc.id, handle);
        Ended(s, PutUser(s.store, u), UserMade(u))
    case HasUser(handle) => (s, Finish(Known(handle in s.store.users)))
    case FollowUser(from, to) =>
      (match NewFollow(from, to)
       case Err(e) => (s, Finish(Fail(e)))
       case Ok(f) => Ended(s, PutFollow(s.store, f), Done))
    case Unfollow(from, to) =>
      (match pc
       case FromKnown => (s, if to in s.store.users then Continue(BothKnown) else Finish(Fail(UnknownUser)))
       case BothKnown => (s.(store := DeleteFollow(s.store, from, to)), Finish(Done))
       case _ => (s, if from in s.store.users then Continue(FromKnown) else Finish(Fail(UnknownUser))))
    case Post(author, text) =>
      (match pc
       case AuthorKnown => (s.(tweetCtr := s.tweetCtr + 1), Continue(TweetIdTaken(s.tweetCtr + 1)))
       case TweetIdTaken(id) => (s, Continue(Stamped(id, s.clock)))
       case Stamped(id, at) =>
         var t := Tweet(id, author, text, at);
         Ended(s, PutTweet(s.store, t), Posted(t))
       case _ =>
         (s, if text == "" then Finish(Fail(EmptyText))
             else if author in s.store.users then Continue(AuthorKnown) else Finish(Fail(UnknownUser))))
    case HomeTimeline(user, limit) => (s, ReadTimeline(user, limit))
    case Tick => (s.(clock := s.clock + 1), Finish(Done))
    case SnapshotState =>
      (match pc
       case ClockRead(now) => (s, Continue(UserCtrRead(now, s.userCtr)))
       case UserCtrRead(now, uc) => (s, Continue(TweetCtrRead(now, uc, s.tweetCtr)))
       case TweetCtrRead(now, uc, tc) => (s, ReadStore(now, uc, tc))
       case _ => (s, Continue(ClockRead(s.clock))))
  }

  /** A store write ends its call: with `done` if the store took it, with the store's error if not. */
  function Ended(s: Svc, r: Result<Inner>, done: Reply): (Svc, Outcome) {
    match r
    case Ok(store) => (s.(store := store), Finish(done))
    case Err(e) => (s, Finish(Fail(e)))
  }

  /** The replies a finished call may give: the store read is free in hash order only. (The relations cover
      every result of the store's code, and with distinct ids hold of nothing else.) */
  ghost predicate Answers(s: Svc, o: Outcome, reply: Reply) {
    match o
    case Continue(_) => false
    case Finish(r) => reply == r
    case ReadTimeline(user, limit) => reply.Timeline? && IsTimeline(s.store, user, limit, reply.tweets)
    case ReadStore(now, uc, tc) =>
      && reply.Captured? && reply.state == ServiceState(now, uc, tc, reply.state.store)
      && IsSnapshot(s.store, reply.state.store)
  }

  /** A call from `pc` to its end with no other call in between. */
  function Alone(s: Svc, call: Call, pc: Pc): (r: (Svc, Outcome))
    requires Fits(call, pc)
    ensures !r.1.Continue?
    decreases Stage(pc)
  {
    var (s', o) := Step(s, call, pc);
    if o.Continue? then Alone(s', call, o.pc) else (s', o)
  }

  /** `load_state`, whatever the service held before. */
  function Load(x: ServiceState): Svc {
    Svc(Replace(x.store), x.idCounterUsers, x.idCounterTweets, x.clockNow)
  }
}
