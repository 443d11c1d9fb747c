/** `Service`: the calls, made one at a time on the shared objects. */
module Services {
  import opened Domain
  import opened Store
  import opened HashOrder
  import opened Counters
  import opened MemStores
  import opened Calls

  class Service {
    const clk: Logical
    const tweetIds: Generator
    const userIds: Generator
    const st: MemStore

    ghost function State(): Svc
      reads clk, tweetIds, userIds, st
    {
      Svc(st.Contents(), userIds.value, tweetIds.value, clk.value)
    }

    ghost predicate Valid()
      reads st
    {
      tweetIds != userIds && st.Valid()
    }

    constructor ()
      ensures Valid() && State() == NEW
      ensures clk.value == 0 && tweetIds.value == 0 && userIds.value == 0
      ensures st.users == map[] && st.follows == map[] && st.byAuthor == map[]
      ensures fresh(clk) && fresh(tweetIds) && fresh(userIds) && fresh(st)
    {
      clk := new Logical(0);
      tweetIds := new Generator();
      userIds := new Generator();
      st := new MemStore();
    }

    method Tick()
      requires Valid()
      modifies clk
      ensures Valid() && clk.value == old(clk.value) + 1
      ensures (State(), Finish(Done)) == Alone(old(State()), Call.Tick, Begin)
    {
      clk.Tick();
    }

    method CreateUser(handle: string) returns (r: Result<User>)
      requires Valid()
      modifies userIds, st
      ensures Valid()
      ensures handle == "" ==> r == Err(EmptyHandle) && State() == old(State())
      ensures handle != "" ==> userIds.value == old(userIds.value) + 1
      ensures handle != "" && handle in old(st.users) ==> r == Err(DuplicateUser) && st.users == old(st.users)
      ensures handle != "" && handle !in old(st.users) ==>
                r == Ok(User(userIds.value, handle)) && st.users == old(st.users)[handle := r.value]
      ensures st.follows == old(st.follows) && st.byAuthor == old(st.byAuthor)
      ensures (State(), Finish(if r.Ok? then UserMade(r.value) else Fail(r.error))) ==
              Alone(old(State()), Call.CreateUser(handle), Begin)
    {
      if handle == "" { return Err(EmptyHandle); }
      var id := userIds.NextId();
      var u := User(id, handle);
      var put := st.PutUser(u);
      r := Then(put, u);
    }

    method HasUser(handle: string) returns (known: bool)
      ensures known <==> handle in st.users
      ensures (State(), Finish(Known(known))) == Alone(State(), Call.HasUser(handle), Begin)
    {
      known := st.HasUser(handle);
    }

    method Follow(from: string, to: string) returns (r: Result<()>)
      requires Valid()
      modifies st
      ensures Valid() && st.users == old(st.users) && st.byAuthor == old(st.byAuthor)
      ensures from == to ==> r == Err(SelfFollow) && st.follows == old(st.follows)
      ensures from != to && (from !in st.users || to !in st.users) ==>
              r == Err(UnknownUser) && st.follows == old(st.follows)
      ensures from != to && from in st.users && to in st.users ==>
                r == Ok(()) && Edges(st.Contents()) == old(Edges(st.Contents())) + {Domain.Follow(from, to)}
      ensures (State(), Finish(if r.Ok? then Done else Fail(r.error))) ==
              Alone(old(State()), FollowUser(from, to), Begin)
    {
      var f := NewFollow(from, to);
      if f.Err? { return Err(f.error); }
      r := st.PutFollow(f.value);
    }

    method Unfollow(from: string, to: string) returns (r: Result<()>)
      requires Valid()
      modifies st
      ensures Valid() && st.users == old(st.users) && st.byAuthor == old(st.byAuthor)
      ensures from !in st.users || to !in st.users ==> r == Err(UnknownUser) && st.follows == old(st.follows)
      ensures from in st.users && to in st.users ==>
                r == Ok(()) && Edges(st.Contents()) == old(Edges(st.Contents())) - {Domain.Follow(from, to)}
      ensures (State(), Finish(if r.Ok? then Done else Fail(r.error))) ==
              Alone(old(State()), Call.Unfollow(from, to), Begin)
    {
      var known := st.HasUser(from);
      if known { known := st.HasUser(to); }
      AloneUnfollow(State(), from, to);
      if !known { return Err(UnknownUser); }
      st.DeleteFollow(from, to);
      r := Ok(());
    }

    method PostTweet(author: string, text: string) returns (r: Result<Tweet>)
      requires Valid()
      modifies tweetIds, st
      ensures Valid() && st.users == old(st.users) && st.follows == old(st.follows)
      ensures text == "" ==> r == Err(EmptyText) && State() == old(State())
      ensures text != "" && author !in st.users ==> r == Err(UnknownUser) && State() == old(State())
      ensures text != "" && author in st.users ==>
                && r == Ok(Tweet(tweetIds.value, author, text, clk.value)) && tweetIds.value == old(tweetIds.value) + 1
                && (forall a :: ListOf(st.byAuthor, a) ==
                                old(ListOf(st.byAuthor, a)) + if a == author then [r.value] else [])
      ensures (State(), Finish(if r.Ok? then Posted(r.value) else Fail(r.error))) ==
              Alone(old(State()), Post(author, text), Begin)
    {
      hide ListOf, AllTweets;
      if text == "" { return Err(EmptyText); }
      var known := st.HasUser(author);
      if !known { return Err(UnknownUser); }
      AlonePost(State(), author, text);
      var id := tweetIds.NextId();
      var now := clk.Now();
      var t := Tweet(id, author, text, now);
      PutTweetLists(st.Contents(), t);
      var put := st.PutTweet(t);
      r := Then(put, t);
    }

    method HomeTimeline(user: string, limit: nat) returns (tweets: seq<Tweet>)
      ensures Alone(State(), Call.HomeTimeline(user, limit), Begin) == (State(), ReadTimeline(user, limit))
      ensures Answers(State(), ReadTimeline(user, limit), Timeline(tweets))
      ensures MayShow(State().store, user, limit, tweets)
    {
      tweets := st.HomeTimeline(user, limit);
    }

    method SnapshotState() returns (x: ServiceState)
      requires Valid()
      ensures Alone(State(), Call.SnapshotState, Begin) ==
              (State(), ReadStore(clk.value, userIds.value, tweetIds.value))
      ensures Answers(State(), ReadStore(clk.value, userIds.value, tweetIds.value), Captured(x))
      ensures MayCapture(State().store, x.store)
      ensures x.clockNow == clk.value && x.idCounterUsers == userIds.value && x.idCounterTweets == tweetIds.value
    {
      var now := clk.Now();
      var uc := userIds.Current();
      var tc := tweetIds.Current();
      var store := st.Snapshot();
      AloneSnapshot(State());
      x := ServiceState(now, uc, tc, store);
    }

    method LoadState(x: ServiceState)
      requires Valid()
      modifies clk, tweetIds, userIds, st
      ensures Valid() && State() == Load(x)
      ensures clk.value == x.clockNow && userIds.value == x.idCounterUsers && tweetIds.value == x.idCounterTweets
      ensures st.Contents() == Replace(x.store)
    {
      st.Replace(x.store);
      userIds.SetCurrent(x.idCounterUsers);
      tweetIds.SetCurrent(x.idCounterTweets);
      clk.SetNow(x.clockNow);
    }
  }

  /** What the multi-step calls come to with no other call in flight. */
  lemma AloneUnfollow(s: Svc, from: string, to: string)
    ensures Alone(s, Call.Unfollow(from, to), Begin) ==
            if from in s.store.users && to in s.store.users
            then (s.(store := DeleteFollow(s.store, from, to)), Finish(Done))
            else (s, Finish(Fail(UnknownUser)))
  {
    var call := Call.Unfollow(from, to);
    if from in s.store.users {
      AloneGoesOn(s, call, Begin, s, FromKnown);
      if to in s.store.users { AloneGoesOn(s, call, FromKnown, s, BothKnown); }
    }
  }

  lemma AloneCreate(s: Svc, handle: string)
    requires handle != ""
    ensures var n, u := s.(userCtr := s.userCtr + 1), User(s.userCtr + 1, handle);
            Alone(s, Call.CreateUser(handle), Begin) == Ended(n, PutUser(s.store, u), UserMade(u))
  {
    var n := s.(userCtr := s.userCtr + 1);
    CreateSteps(s, handle);
    AloneGoesOn(s, Call.CreateUser(handle), Begin, n, UserIdTaken(n.userCtr));
    hide Step, PutUser;
  }

  lemma CreateSteps(s: Svc, handle: string)
    requires handle != ""
    ensures var n, u := s.(userCtr := s.userCtr + 1), User(s.userCtr + 1, handle);
            && Step(s, Call.CreateUser(handle), Begin) == (n, Continue(UserIdTaken(u.id)))
            && Step(n, Call.CreateUser(handle), UserIdTaken(u.id)) == Ended(n, PutUser(s.store, u), UserMade(u))
  { }

  lemma AlonePost(s: Svc, author: string, text: string)
    requires text != "" && author in s.store.users
    ensures var t := Tweet(s.tweetCtr + 1, author, text, s.clock);
            Alone(s, Post(author, text), Begin) ==
            (s.(tweetCtr := s.tweetCtr + 1, store := PutTweet(s.store, t).value), Finish(Posted(t)))
  {
    var call, n := Post(author, text), s.(tweetCtr := s.tweetCtr + 1);
    PostFirstSteps(s, author, text);
    AloneAppend(n, author, text, n.tweetCtr);
    hide Alone, Step;
    AloneGoesOn(s, call, Begin, s, AuthorKnown);
    AloneGoesOn(s, call, AuthorKnown, n, TweetIdTaken(n.tweetCtr));
  }

  lemma PostFirstSteps(s: Svc, author: string, text: string)
    requires text != "" && author in s.store.users
    ensures Step(s, Post(author, text), Begin) == (s, Continue(AuthorKnown))
    ensures Step(s, Post(author, text), AuthorKnown) ==
            (s.(tweetCtr := s.tweetCtr + 1), Continue(TweetIdTaken(s.tweetCtr + 1)))
  { }

  lemma AloneAppend(s: Svc, author: string, text: string, id: int)
    requires author in s.store.users
    ensures var t := Tweet(id, author, text, s.clock);
            Alone(s, Post(author, text), TweetIdTaken(id)) ==
                (s.(store := PutTweet(s.store, t).value), Finish(Posted(t)))
  {
    AloneGoesOn(s, Post(author, text), TweetIdTaken(id), s, Stamped(id, s.clock));
  }

  lemma AloneGoesOn(s: Svc, call: Call, pc: Pc, s': Svc, pc': Pc)
    requires Fits(call, pc) && Fits(call, pc') && Step(s, call, pc) == (s', Continue(pc'))
    ensures Alone(s, call, pc) == Alone(s', call, pc')
  {
    hide Step;
  }

  lemma AloneSnapshot(s: Svc)
    ensures Alone(s, Call.SnapshotState, Begin) == (s, ReadStore(s.clock, s.userCtr, s.tweetCtr))
  {
    var call := Call.SnapshotState;
    AloneGoesOn(s, call, Begin, s, ClockRead(s.clock));
    AloneGoesOn(s, call, ClockRead(s.clock), s, UserCtrRead(s.clock, s.userCtr));
  }
}
