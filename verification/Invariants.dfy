/** What every step of every interleaving keeps. */
module Invariants {
  import opened Domain
  import opened Store
  import opened Views
  import opened Calls
  import opened Machine

  // ----- ids: taken once, then stored or still held by the call that took them -----

  /** `lost` counts the ids below the counter that belong to no stored tweet and to no call in flight. */
  ghost predicate TweetLedger(all: multiset<Tweet>, held: map<nat, int>, ctr: int, lost: int) {
    && DistinctIds(all)
    && (forall t | t in all :: 1 <= t.id <= ctr)
    && (forall p | p in held :: 1 <= held[p] <= ctr)
    && (forall p, t | p in held && t in all :: t.id != held[p])
    && (forall p, q | p in held && q in held && held[p] == held[q] :: p == q)
    && 0 <= ctr == |all| + |held| + lost
  }

  ghost predicate UserLedger(users: map<string, User>, held: map<nat, int>, ctr: int, refused: int) {
    && DistinctUserIds(users)
    && (forall h | h in users :: 1 <= users[h].id <= ctr)
    && (forall p | p in held :: 1 <= held[p] <= ctr)
    && (forall p, h | p in held && h in users :: users[h].id != held[p])
    && (forall p, q | p in held && q in held && held[p] == held[q] :: p == q)
    && 0 <= ctr == |users| + |held| + refused
  }

  ghost function HeldTweetIds(busy: map<nat, Busy>): map<nat, int> {
    map p | p in busy && (busy[p].pc.TweetIdTaken? || busy[p].pc.Stamped?) :: busy[p].pc.tweetId
  }

  ghost function HeldUserIds(busy: map<nat, Busy>): map<nat, int> {
    map p | p in busy && busy[p].pc.UserIdTaken? :: busy[p].pc.id
  }

  /** How many `create_user` calls have been turned away because the handle was taken. */
  ghost function Refusals(hist: seq<Entry>): nat {
    if hist == [] then 0
    else
      var e := hist[|hist| - 1].event;
      Refusals(hist[..|hist| - 1]) + if e.Returned? && e.reply == Fail(DuplicateUser) then 1 else 0
  }

  lemma TakeTweetId(all: multiset<Tweet>, held: map<nat, int>, ctr: int, lost: int, p: nat)
    requires TweetLedger(all, held, ctr, lost) && p !in held
    ensures TweetLedger(all, held[p := ctr + 1], ctr + 1, lost)
  { }

  lemma StoreTweet(all: multiset<Tweet>, held: map<nat, int>, ctr: int, lost: int, p: nat, t: Tweet)
    requires TweetLedger(all, held, ctr, lost) && p in held && held[p] == t.id
    ensures TweetLedger(all + multiset{t}, held - {p}, ctr, lost)
  {
    LessOne(held, p);
    OneMoreId(all, t);
  }

  lemma OneMoreId(all: multiset<Tweet>, t: Tweet)
    requires DistinctIds(all) && forall u | u in all :: u.id != t.id
    ensures DistinctIds(all + multiset{t})
  {
    assert t !in all;
  }

  lemma TakeUserId(users: map<string, User>, held: map<nat, int>, ctr: int, refused: int, p: nat)
    requires UserLedger(users, held, ctr, refused) && p !in held
    ensures UserLedger(users, held[p := ctr + 1], ctr + 1, refused)
  {
    var next := held[p := ctr + 1];
    assert |next| == |held| + 1;
  }

  lemma StoreUser(users: map<string, User>, held: map<nat, int>, ctr: int, refused: int, p: nat, u: User)
    requires UserLedger(users, held, ctr, refused) && p in held && held[p] == u.id && u.handle !in users
    ensures UserLedger(users[u.handle := u], held - {p}, ctr, refused)
  {
    LessOne(held, p);
  }

  lemma RefuseUser(users: map<string, User>, held: map<nat, int>, ctr: int, refused: int, p: nat)
    requires UserLedger(users, held, ctr, refused) && p in held
    ensures UserLedger(users, held - {p}, ctr, refused + 1)
  {
    LessOne(held, p);
  }

  lemma SettleUser(users: map<string, User>, held: map<nat, int>, ctr: int, refused: int, p: nat, u: User)
    requires UserLedger(users, held, ctr, refused) && p in held && held[p] == u.id
    ensures if u.handle in users then UserLedger(users, held - {p}, ctr, refused + 1)
            else UserLedger(users[u.handle := u], held - {p}, ctr, refused)
  {
    hide UserLedger;
    if u.handle in users {
      RefuseUser(users, held, ctr, refused, p);
    } else {
      StoreUser(users, held, ctr, refused, p, u);
    }
  }

  lemma LessOne(held: map<nat, int>, p: nat)
    requires p in held
    ensures |held - {p}| == |held| - 1
  {
    assert (held - {p}).Keys == held.Keys - {p};
  }

  // ----- the history: each entry against the ones before it -----

  ghost function Before(base: Svc, hist: seq<Entry>, k: nat): Svc
    requires k <= |hist|
  {
    if k == 0 then base else hist[k - 1].after
  }

  /** Between places `i` and `j` thread `tid` only steps. */
  ghost predicate OnlySteps(hist: seq<Entry>, tid: nat, i: nat, j: nat)
    requires j <= |hist|
  {
    forall k | i < k < j && hist[k].event.tid == tid :: hist[k].event.Stepped?
  }

  /** What a step that leads on does to the counters, and what it reads of them and of the clock. */
  ghost predicate Draws(before: Svc, pc: Pc, after: Svc) {
    && after.store == before.store && after.clock == before.clock
    && after.userCtr == before.userCtr + (if pc.UserIdTaken? then 1 else 0)
    && after.tweetCtr == before.tweetCtr + (if pc.TweetIdTaken? then 1 else 0)
    && match pc
       case UserIdTaken(id) => id == after.userCtr
       case TweetIdTaken(id) => id == after.tweetCtr
       case Stamped(_, at) => at == after.clock
       case ClockRead(now) => now == after.clock
       case UserCtrRead(_, uc) => uc == after.userCtr
       case TweetCtrRead(_, _, tc) => tc == after.tweetCtr
       case _ => true
  }

  ghost predicate EntryOk(base: Svc, hist: seq<Entry>, k: nat)
    requires k < |hist|
  {
    var before, after := Before(base, hist, k), hist[k].after;
    Grows(before, after) &&
    match hist[k].event
    case Invoked(_, _) => after == before
    case Stepped(_, pc) => Draws(before, pc, after)
    case Returned(tid, call, reply, since) =>
      && since < k && hist[since].event == Invoked(tid, call) && OnlySteps(hist, tid, since, k)
      && AtOnce(hist[since].after, before, call, reply, after)
  }

  ghost predicate ThreadOk(m: State, tid: nat)
    requires tid in m.busy
  {
    var b := m.busy[tid];
    && b.since < |m.hist| && m.hist[b.since].event == Invoked(tid, b.call) && OnlySteps(m.hist, tid, b.since, |m.hist|)
    && Grows(m.hist[b.since].after, m.svc)
    && Learnt(m.hist[b.since].after, m.svc, b.call, b.pc)
  }

  ghost function Lost(s: Svc): int {
    s.tweetCtr - |AllTweets(s.store)|
  }

  ghost predicate TweetsAccounted(base: Svc, m: State) {
    TweetLedger(AllTweets(m.svc.store), HeldTweetIds(m.busy), m.svc.tweetCtr, Lost(base))
  }

  ghost predicate UsersAccounted(base: Svc, m: State) {
    UserLedger(m.svc.store.users, HeldUserIds(m.busy), m.svc.userCtr,
        base.userCtr - |base.store.users| + Refusals(m.hist))
  }

  /** What holds in runs from any state whose tables are filed under their keys, such as any loaded one. */
  ghost predicate Inv(base: Svc, m: State) {
    && (forall tid | tid in m.busy :: ThreadOk(m, tid))
    && (forall k | 0 <= k < |m.hist| :: EntryOk(base, m.hist, k))
    && m.svc == Before(base, m.hist, |m.hist|)
    && WellKeyed(m.svc.store)
  }

  /** What holds besides in runs from a service at rest. */
  ghost predicate Accounted(base: Svc, m: State) {
    StoreOk(m.svc) && TweetsAccounted(base, m) && UsersAccounted(base, m)
  }

  /** A service at rest that every call may start from: the tables are in order, and the counters cover
      every stored id. Ids that nobody stored may be missing below them. The new service is one. */
  ghost predicate AtRest(s: Svc) {
    && StoreOk(s)
    && TweetLedger(AllTweets(s.store), map[], s.tweetCtr, Lost(s))
    && UserLedger(s.store.users, map[], s.userCtr, s.userCtr - |s.store.users|)
  }

  lemma NewAtRest()
    ensures AtRest(NEW)
  { }

  lemma QuietInv(base: Svc)
    requires WellKeyed(base.store)
    ensures Inv(base, Quiet(base))
  { }

  lemma QuietAccounted(base: Svc)
    requires AtRest(base)
    ensures Accounted(base, Quiet(base))
  {
    assert HeldTweetIds(map[]) == map[] && HeldUserIds(map[]) == map[];
  }

  // ----- every action keeps the invariant -----

  /** Whatever another thread's action does, a call in flight keeps its place and what it has learnt. */
  lemma OtherThreadOk(m: State, n: State, e: Entry, tid: nat)
    requires tid in m.busy && ThreadOk(m, tid)
    requires tid in n.busy && n.busy[tid] == m.busy[tid]
    requires n.hist == m.hist + [e] && e.event.tid != tid && Grows(m.svc, n.svc)
    ensures ThreadOk(n, tid)
  {
    hide Learnt, Grows;
    var b := m.busy[tid];
    LearntStable(m.hist[b.since].after, m.svc, n.svc, b.call, b.pc);
    GrowsTransitive(m.hist[b.since].after, m.svc, n.svc);
  }

  lemma InvokedThreadOk(m: State, a: Action)
    requires a.Invoke? && Enabled(m, a)
    ensures ThreadOk(Apply(m, a), a.tid)
  { }

  lemma ProceededThreadOk(m: State, a: Action)
    requires a.Proceed? && Enabled(m, a) && ThreadOk(m, a.tid)
    requires Grows(m.svc, Apply(m, a).svc)
    ensures ThreadOk(Apply(m, a), a.tid)
  {
    hide Step, Learnt, Grows;
    var b := m.busy[a.tid];
    StepLearns(m.hist[b.since].after, m.svc, b.call, b.pc);
    GrowsTransitive(m.hist[b.since].after, m.svc, Apply(m, a).svc);
  }

  lemma KeepsStore(m: State, a: Action)
    requires Enabled(m, a) && StoreOk(m.svc) && (a.Invoke? || ThreadOk(m, a.tid))
    ensures StoreOk(Apply(m, a).svc) && Grows(m.svc, Apply(m, a).svc)
  {
    if !a.Invoke? {
      hide Step, StoreOk, Learnt, Answers, Grows;
      var b := m.busy[a.tid];
      StepKeepsStore(m.hist[b.since].after, m.svc, b.call, b.pc);
    }
  }

  lemma KeepsGrowing(m: State, a: Action)
    requires Enabled(m, a) && WellKeyed(m.svc.store)
    ensures WellKeyed(Apply(m, a).svc.store) && Grows(m.svc, Apply(m, a).svc)
  {
    if !a.Invoke? {
      hide Step, WellKeyed, Answers, Grows;
      StepGrows(m.svc, m.busy[a.tid].call, m.busy[a.tid].pc);
    }
  }

  lemma KeepsThreads(base: Svc, m: State, a: Action)
    requires Inv(base, m) && Enabled(m, a) && Grows(m.svc, Apply(m, a).svc)
    ensures forall tid | tid in Apply(m, a).busy :: ThreadOk(Apply(m, a), tid)
  {
    hide Step, StoreOk, Learnt, Answers, Grows, ThreadOk, EntryOk, TweetsAccounted, UsersAccounted;
    var n := Apply(m, a);
    forall tid | tid in n.busy ensures ThreadOk(n, tid) {
      if tid != a.tid { OtherThreadOk(m, n, n.hist[|m.hist|], tid); }
      else if a.Invoke? { InvokedThreadOk(m, a); }
      else { ProceededThreadOk(m, a); }
    }
  }

  lemma OldEntryOk(base: Svc, hist: seq<Entry>, e: Entry, k: nat)
    requires k < |hist| && EntryOk(base, hist, k)
    ensures EntryOk(base, hist + [e], k)
  {
    hide Grows, AtOnce;
  }

  lemma NewEntryOk(base: Svc, m: State, a: Action)
    requires Enabled(m, a) && WellKeyed(m.svc.store) && (a.Invoke? || ThreadOk(m, a.tid))
             && m.svc == Before(base, m.hist, |m.hist|)
    requires Grows(m.svc, Apply(m, a).svc)
    ensures EntryOk(base, Apply(m, a).hist, |m.hist|)
  {
    if a.Proceed? {
      var b := m.busy[a.tid];
      hide Grows, AtOnce, Step, Draws;
      StepDraws(m.svc, b.call, b.pc);
    } else if a.Return? {
      var b := m.busy[a.tid];
      LastStepIsAtomic(m.hist[b.since].after, m.svc, b.call, b.pc, a.reply);
      ReturnedEntryOk(base, m, a);
    }
  }

  lemma ReturnedEntryOk(base: Svc, m: State, a: Action)
    requires a.Return? && Enabled(m, a) && ThreadOk(m, a.tid) && m.svc == Before(base, m.hist, |m.hist|)
    requires Grows(m.svc, Apply(m, a).svc)
    requires AtOnce(m.hist[m.busy[a.tid].since].after, m.svc, m.busy[a.tid].call, a.reply, Apply(m, a).svc)
    ensures EntryOk(base, Apply(m, a).hist, |m.hist|)
  {
    hide Grows, AtOnce, Learnt, IsSnapshot, IsTimeline;
    StepTweets(m.svc, m.busy[a.tid].call, m.busy[a.tid].pc);
  }

  lemma StepDraws(s: Svc, call: Call, pc: Pc)
    requires Fits(call, pc) && Step(s, call, pc).1.Continue?
    ensures Draws(s, Step(s, call, pc).1.pc, Step(s, call, pc).0)
  { }

  lemma KeepsHistory(base: Svc, m: State, a: Action)
    requires Inv(base, m) && Enabled(m, a) && Grows(m.svc, Apply(m, a).svc)
    ensures forall k | 0 <= k < |Apply(m, a).hist| :: EntryOk(base, Apply(m, a).hist, k)
  {
    hide Step, StoreOk, Answers, Grows, ThreadOk, EntryOk, TweetsAccounted, UsersAccounted;
    var n := Apply(m, a);
    forall k | 0 <= k < |n.hist| ensures EntryOk(base, n.hist, k) {
      if k < |m.hist| { OldEntryOk(base, m.hist, n.hist[|m.hist|], k); } else { NewEntryOk(base, m, a); }
    }
  }

  // ----- and the ledgers -----

  lemma HeldWith(busy: map<nat, Busy>, tid: nat, b: Busy)
    ensures HeldTweetIds(busy[tid := b]) ==
            if b.pc.TweetIdTaken? || b.pc.Stamped? then HeldTweetIds(busy)[tid := b.pc.tweetId]
            else HeldTweetIds(busy) - {tid}
    ensures HeldUserIds(busy[tid := b]) ==
            if b.pc.UserIdTaken? then HeldUserIds(busy)[tid := b.pc.id] else HeldUserIds(busy) - {tid}
  { }

  lemma HeldWithout(busy: map<nat, Busy>, tid: nat)
    ensures HeldTweetIds(busy - {tid}) == HeldTweetIds(busy) - {tid}
    ensures HeldUserIds(busy - {tid}) == HeldUserIds(busy) - {tid}
  { }

  lemma HeldNot(busy: map<nat, Busy>, tid: nat)
    ensures tid !in busy || (!busy[tid].pc.TweetIdTaken? && !busy[tid].pc.Stamped?) ==>
            HeldTweetIds(busy) - {tid} == HeldTweetIds(busy)
    ensures tid !in busy || !busy[tid].pc.UserIdTaken? ==> HeldUserIds(busy) - {tid} == HeldUserIds(busy)
  { }

  /** Only a post's second step touches the tweet counter, only its last one the lists. */
  lemma StepTweets(s: Svc, call: Call, pc: Pc)
    requires Fits(call, pc)
    ensures var (s', o) := Step(s, call, pc);
            && (pc.AuthorKnown? ==> o == Continue(TweetIdTaken(s.tweetCtr + 1)) && s' == s.(tweetCtr := s.tweetCtr + 1))
            && (pc.TweetIdTaken? ==> o.Continue? && o.pc.Stamped? && o.pc.tweetId == pc.tweetId)
            && (!pc.AuthorKnown? ==> s'.tweetCtr == s.tweetCtr)
            && (!pc.Stamped? ==> s'.store.byAuthor == s.store.byAuthor)
            && (o.Continue? && !pc.AuthorKnown? && !pc.TweetIdTaken? ==>
               !pc.Stamped? && !o.pc.TweetIdTaken? && !o.pc.Stamped?)
  { }

  /** Only `create_user` touches the user counter, first, and the users table, last. */
  lemma StepUsers(s: Svc, call: Call, pc: Pc)
    requires Fits(call, pc)
    ensures var (s', o) := Step(s, call, pc);
            && (o.Continue? && call.CreateUser? ==>
               pc.Begin? && o.pc == UserIdTaken(s.userCtr + 1) && s' == s.(userCtr := s.userCtr + 1))
            && (o.Continue? && !call.CreateUser? ==> !o.pc.UserIdTaken?)
            && (!(o.Continue? && call.CreateUser?) ==> s'.userCtr == s.userCtr)
            && (!pc.UserIdTaken? ==> s'.store.users == s.store.users && o != Finish(Fail(DuplicateUser)))
            && (pc.UserIdTaken? && call.handle in s.store.users ==> s' == s && o == Finish(Fail(DuplicateUser)))
            && (pc.UserIdTaken? && call.handle !in s.store.users ==>
                  && s'.store.users == s.store.users[call.handle := User(pc.id, call.handle)]
                  && o != Finish(Fail(DuplicateUser)))
  { }

  lemma ProceedKeepsTweetIds(base: Svc, m: State, a: Action)
    requires a.Proceed? && Enabled(m, a) && TweetsAccounted(base, m)
    ensures TweetsAccounted(base, Apply(m, a))
  {
    hide Step, TweetLedger, HeldTweetIds, HeldUserIds;
    var n, b, held := Apply(m, a), m.busy[a.tid], HeldTweetIds(m.busy);
    StepTweets(m.svc, b.call, b.pc);
    HeldWith(m.busy, a.tid, n.busy[a.tid]);
    HeldNot(m.busy, a.tid);
    if b.pc.AuthorKnown? { TakeTweetId(AllTweets(m.svc.store), held, m.svc.tweetCtr, Lost(base), a.tid); }
    else if b.pc.TweetIdTaken? { HeldIs(m.busy, a.tid); }
  }

  lemma HeldIs(busy: map<nat, Busy>, tid: nat)
    requires tid in busy
    ensures busy[tid].pc.TweetIdTaken? || busy[tid].pc.Stamped? ==>
              tid in HeldTweetIds(busy) && HeldTweetIds(busy)[tid] == busy[tid].pc.tweetId
                  && HeldTweetIds(busy)[tid := busy[tid].pc.tweetId] == HeldTweetIds(busy)
    ensures busy[tid].pc.UserIdTaken? ==> tid in HeldUserIds(busy) && HeldUserIds(busy)[tid] == busy[tid].pc.id
  { }

  lemma ReturnKeepsTweetIds(base: Svc, m: State, a: Action)
    requires a.Return? && Enabled(m, a) && WellKeyed(m.svc.store) && ThreadOk(m, a.tid) && TweetsAccounted(base, m)
    ensures TweetsAccounted(base, Apply(m, a))
  {
    hide TweetLedger, HeldTweetIds, HeldUserIds, Grows, IsTimeline, IsSnapshot;
    var b, held := m.busy[a.tid], HeldTweetIds(m.busy);
    HeldWithout(m.busy, a.tid);
    if b.pc.Stamped? {
      var t := Tweet(b.pc.tweetId, b.call.author, b.call.text, b.pc.at);
      HeldIs(m.busy, a.tid);
      PutTweetBag(m.svc.store, t);
      StoreTweet(AllTweets(m.svc.store), held, m.svc.tweetCtr, Lost(base), a.tid, t);
    } else {
      HeldNot(m.busy, a.tid);
      StepTweets(m.svc, b.call, b.pc);
    }
  }

  lemma KeepsRefusals(m: State, a: Action)
    requires Enabled(m, a)
    ensures Refusals(Apply(m, a).hist) ==
            Refusals(m.hist) + if a.Return? && a.reply == Fail(DuplicateUser) then 1 else 0
  {
    hide Step, Answers;
    assert Apply(m, a).hist[..|m.hist|] == m.hist;
  }

  lemma ProceedKeepsUserIds(base: Svc, m: State, a: Action)
    requires a.Proceed? && Enabled(m, a) && UsersAccounted(base, m)
    ensures UsersAccounted(base, Apply(m, a))
  {
    hide Step, UserLedger, HeldTweetIds, HeldUserIds, Refusals;
    var n, b, held := Apply(m, a), m.busy[a.tid], HeldUserIds(m.busy);
    KeepsRefusals(m, a);
    StepUsers(m.svc, b.call, b.pc);
    HeldWith(m.busy, a.tid, n.busy[a.tid]);
    if b.call.CreateUser? {
      HeldNot(m.busy, a.tid);
      TakeUserId(m.svc.store.users, held, m.svc.userCtr, base.userCtr - |base.store.users| + Refusals(m.hist), a.tid);
    }
    else { HeldNot(m.busy, a.tid); }
  }

  lemma ReturnKeepsUserIds(base: Svc, m: State, a: Action)
    requires a.Return? && Enabled(m, a) && UsersAccounted(base, m)
    ensures UsersAccounted(base, Apply(m, a))
  {
    hide Step, UserLedger, HeldTweetIds, HeldUserIds, Refusals, Answers;
    var b, n := m.busy[a.tid], Apply(m, a);
    KeepsRefusals(m, a);
    HeldWithout(m.busy, a.tid);
    if b.pc.UserIdTaken? {
      SettledUser(m, a);
      HeldIs(m.busy, a.tid);
      SettleUser(m.svc.store.users, HeldUserIds(m.busy), m.svc.userCtr,
          base.userCtr - |base.store.users| + Refusals(m.hist), a.tid, User(b.pc.id, b.call.handle));
    } else {
      HeldNot(m.busy, a.tid);
      UsersUntouched(m, a);
    }
  }

  lemma UsersUntouched(m: State, a: Action)
    requires a.Return? && Enabled(m, a) && !m.busy[a.tid].pc.UserIdTaken?
    ensures Apply(m, a).svc.store.users == m.svc.store.users && Apply(m, a).svc.userCtr == m.svc.userCtr
            && a.reply != Fail(DuplicateUser)
  {
    hide Step, IsTimeline, IsSnapshot;
    StepUsers(m.svc, m.busy[a.tid].call, m.busy[a.tid].pc);
  }

  lemma SettledUser(m: State, a: Action)
    requires a.Return? && Enabled(m, a) && m.busy[a.tid].pc.UserIdTaken?
    ensures var b := m.busy[a.tid];
            && (a.reply == Fail(DuplicateUser) <==> b.call.handle in m.svc.store.users)
            && Apply(m, a).svc.userCtr == m.svc.userCtr
            && Apply(m, a).svc.store.users ==
               if b.call.handle in m.svc.store.users then m.svc.store.users
               else m.svc.store.users[b.call.handle := User(b.pc.id, b.call.handle)]
  { }

  lemma KeepsAccounts(base: Svc, m: State, a: Action)
    requires Enabled(m, a) && WellKeyed(m.svc.store) && (a.Invoke? || ThreadOk(m, a.tid)) && TweetsAccounted(base, m)
             && UsersAccounted(base, m)
    ensures TweetsAccounted(base, Apply(m, a)) && UsersAccounted(base, Apply(m, a))
  {
    hide Step, TweetLedger, UserLedger, HeldTweetIds, HeldUserIds, Refusals, Answers, ThreadOk, WellKeyed;
    match a
    case Invoke(tid, call) =>
      HeldWith(m.busy, tid, InFlight(call, Begin, |m.hist|));
      HeldNot(m.busy, tid);
      KeepsRefusals(m, a);
    case Proceed(_) => ProceedKeepsTweetIds(base, m, a); ProceedKeepsUserIds(base, m, a);
    case Return(_, _) => ReturnKeepsTweetIds(base, m, a); ReturnKeepsUserIds(base, m, a);
  }

  lemma ActionKeepsInv(base: Svc, m: State, a: Action)
    requires Inv(base, m) && Enabled(m, a)
    ensures Inv(base, Apply(m, a))
  {
    hide Step, WellKeyed, Answers, Grows, ThreadOk, EntryOk;
    KeepsGrowing(m, a);
    KeepsThreads(base, m, a);
    KeepsHistory(base, m, a);
  }

  lemma ActionKeepsAccounts(base: Svc, m: State, a: Action)
    requires Inv(base, m) && Accounted(base, m) && Enabled(m, a)
    ensures Accounted(base, Apply(m, a))
  {
    hide Step, StoreOk, WellKeyed, Answers, Grows, ThreadOk, EntryOk, TweetsAccounted, UsersAccounted;
    KeepsStore(m, a);
    KeepsAccounts(base, m, a);
  }
}
