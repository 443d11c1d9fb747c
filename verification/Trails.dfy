/** The steps behind a reply: where in the history a call drew its id, was stamped, or read what it captured. */
module Trails {
  import opened Domain
  import opened Store
  import opened Views
  import opened Calls
  import opened Machine
  import opened Invariants
  import opened Interleavings

  /** Strictly between the places `from` and `to` thread `tid` took the step to `pc`. */
  ghost predicate Took(hist: seq<Entry>, tid: nat, pc: Pc, from: nat, to: nat) {
    exists p: nat :: TookAt(hist, tid, pc, from, p) && p < to
  }

  ghost predicate TookAt(hist: seq<Entry>, tid: nat, pc: Pc, from: nat, p: nat) {
    from < p < |hist| && hist[p].event == Stepped(tid, pc)
  }

  /** The steps a call has taken to stand at `pc`. */
  ghost predicate CameTo(hist: seq<Entry>, tid: nat, pc: Pc, from: nat, to: nat) {
    (pc.Begin? || Took(hist, tid, pc, from, to)) &&
    match pc
    case Stamped(id, _) => Took(hist, tid, TweetIdTaken(id), from, to)
    case UserCtrRead(now, _) => Took(hist, tid, ClockRead(now), from, to)
    case TweetCtrRead(now, uc, _) =>
        Took(hist, tid, ClockRead(now), from, to) && Took(hist, tid, UserCtrRead(now, uc), from, to)
    case _ => true
  }

  /** Where the call stood when it gave a reply that carries an id or captured values. */
  function EndOf(reply: Reply): Pc {
    match reply
    case UserMade(u) => UserIdTaken(u.id)
    case Posted(t) => Stamped(t.id, t.createdAt)
    case Captured(x) => TweetCtrRead(x.clockNow, x.idCounterUsers, x.idCounterTweets)
    case _ => Begin
  }

  ghost predicate Trail(m: State) {
    && (forall tid | tid in m.busy ::
       m.busy[tid].since < |m.hist| && CameTo(m.hist, tid, m.busy[tid].pc, m.busy[tid].since, |m.hist|))
    && (forall k | 0 <= k < |m.hist| && m.hist[k].event.Returned? ::
          m.hist[k].event.since < k
              && CameTo(m.hist, m.hist[k].event.tid, EndOf(m.hist[k].event.reply), m.hist[k].event.since, k))
  }

  lemma TookStays(hist: seq<Entry>, e: Entry, tid: nat, pc: Pc, from: nat, to: nat, later: nat)
    requires to <= later
    ensures Took(hist, tid, pc, from, to) ==> Took(hist + [e], tid, pc, from, later)
  {
    if Took(hist, tid, pc, from, to) {
      var p: nat :| TookAt(hist, tid, pc, from, p) && p < to;
      assert TookAt(hist + [e], tid, pc, from, p);
    }
  }

  lemma CameStays(hist: seq<Entry>, e: Entry, tid: nat, pc: Pc, from: nat, to: nat, later: nat)
    requires CameTo(hist, tid, pc, from, to) && to <= later
    ensures CameTo(hist + [e], tid, pc, from, later)
  {
    hide Took;
    TookStays(hist, e, tid, pc, from, to, later);
    match pc
    case Stamped(id, _) => TookStays(hist, e, tid, TweetIdTaken(id), from, to, later);
    case UserCtrRead(now, _) => TookStays(hist, e, tid, ClockRead(now), from, to, later);
    case TweetCtrRead(now, uc, _) =>
      TookStays(hist, e, tid, ClockRead(now), from, to, later);
      TookStays(hist, e, tid, UserCtrRead(now, uc), from, to, later);
    case _ =>
  }

  /** A step only leads on from the one before it. */
  lemma StepFrom(s: Svc, call: Call, pc: Pc)
    requires Fits(call, pc)
    ensures var o := Step(s, call, pc).1;
            o.Continue? ==> match o.pc
                            case Stamped(id, _) => pc == TweetIdTaken(id)
                            case UserCtrRead(now, _) => pc == ClockRead(now)
                            case TweetCtrRead(now, uc, _) => pc == UserCtrRead(now, uc)
                            case _ => !o.pc.Begin?
    ensures forall reply | Answers(s, Step(s, call, pc).1, reply) :: EndOf(reply).Begin? || EndOf(reply) == pc
  { }

  lemma NextCame(hist: seq<Entry>, s: Svc, call: Call, pc: Pc, tid: nat, from: nat)
    requires Fits(call, pc) && Step(s, call, pc).1.Continue? && from < |hist| && CameTo(hist, tid, pc, from, |hist|)
    ensures var (s', o) := Step(s, call, pc);
            CameTo(hist + [Entry(Stepped(tid, o.pc), s')], tid, o.pc, from, |hist| + 1)
  {
    var (s', o) := Step(s, call, pc);
    var e := Entry(Stepped(tid, o.pc), s');
    StepFrom(s, call, pc);
    assert TookAt(hist + [e], tid, o.pc, from, |hist|);
    assert Took(hist + [e], tid, o.pc, from, |hist| + 1);
    hide Step, Took, TookAt;
    CameStays(hist, e, tid, pc, from, |hist|, |hist| + 1);
  }

  lemma BusyTrail(m: State, a: Action, tid: nat)
    requires Trail(m) && Enabled(m, a) && tid in Apply(m, a).busy
    ensures var n := Apply(m, a);
            n.busy[tid].since < |n.hist| && CameTo(n.hist, tid, n.busy[tid].pc, n.busy[tid].since, |n.hist|)
  {
    hide Step, Answers, CameTo;
    var n := Apply(m, a);
    if tid != a.tid { CameStays(m.hist, n.hist[|m.hist|], tid, m.busy[tid].pc, m.busy[tid].since, |m.hist|, |n.hist|); }
    else if a.Proceed? { NextCame(m.hist, m.svc, m.busy[tid].call, m.busy[tid].pc, tid, m.busy[tid].since); }
    else { NoneTaken(n.hist, tid, n.busy[tid].since, |n.hist|); }
  }

  lemma NoneTaken(hist: seq<Entry>, tid: nat, from: nat, to: nat)
    ensures CameTo(hist, tid, Begin, from, to)
  { }

  lemma ReturnTrail(m: State, a: Action, k: nat)
    requires Trail(m) && Enabled(m, a) && k < |Apply(m, a).hist| && Apply(m, a).hist[k].event.Returned?
    ensures var n := Apply(m, a); var e := n.hist[k].event;
            e.since < k && CameTo(n.hist, e.tid, EndOf(e.reply), e.since, k)
  {
    hide Step, Answers, CameTo, EndOf;
    var n := Apply(m, a);
    var e := n.hist[k].event;
    if k < |m.hist| { CameStays(m.hist, n.hist[|m.hist|], e.tid, EndOf(e.reply), e.since, k, k); } else {
      var b := m.busy[a.tid];
      StepFrom(m.svc, b.call, b.pc);
      if EndOf(e.reply).Begin? { NoneTaken(n.hist, e.tid, e.since, k); }
      else { CameStays(m.hist, n.hist[k], e.tid, b.pc, e.since, k, k); }
    }
  }

  lemma ActionKeepsTrail(m: State, a: Action)
    requires Trail(m) && Enabled(m, a)
    ensures Trail(Apply(m, a))
  {
    var n := Apply(m, a);
    forall tid | tid in n.busy
      ensures n.busy[tid].since < |n.hist| && CameTo(n.hist, tid, n.busy[tid].pc, n.busy[tid].since, |n.hist|)
    {
      BusyTrail(m, a, tid);
    }
    forall k | 0 <= k < |n.hist| && n.hist[k].event.Returned?
      ensures n.hist[k].event.since < k
              && CameTo(n.hist, n.hist[k].event.tid, EndOf(n.hist[k].event.reply), n.hist[k].event.since, k)
    {
      ReturnTrail(m, a, k);
    }
  }

  lemma {:induction false} RunTrail(base: Svc, acts: seq<Action>, ms: seq<State>, i: nat)
    requires Run(base, acts, ms) && i <= |acts|
    ensures Trail(ms[i])
  {
    if i > 0 {
      hide Trail, Enabled, Apply;
      RunTrail(base, acts, ms, i - 1);
      ActionKeepsTrail(ms[i - 1], acts[i - 1]);
    }
  }

  /** Every reply of every run has the steps behind it, taken by its own thread since its own invocation. */
  lemma ReplyTrail(base: Svc, m: State, k: nat, reply: Reply)
    requires Runs(base, m) && Returns(m.hist, k, reply)
    ensures m.hist[k].event.since < k && CameTo(m.hist, m.hist[k].event.tid, EndOf(reply), m.hist[k].event.since, k)
  {
    hide Enabled, Apply, CameTo, EndOf;
    var acts, ms :| Run(base, acts, ms) && m == ms[|acts|];
    RunTrail(base, acts, ms, |acts|);
  }

  // ----- counters and clock move only where the history shows it -----

  lemma EntryDraws(base: Svc, m: State, j: nat)
    requires Inv(base, m) && j < |m.hist| && m.hist[j].event.Stepped?
    ensures Draws(Before(base, m.hist, j), m.hist[j].event.pc, m.hist[j].after)
  {
    hide Grows, AtOnce, Draws, ThreadOk, StoreOk, TweetsAccounted, UsersAccounted;
    assert EntryOk(base, m.hist, j);
  }

  lemma {:induction false} TweetIdTakenBetween(base: Svc, m: State, i: nat, k: nat, id: int) returns (j: nat)
    requires Inv(base, m) && i <= k <= |m.hist|
    requires Before(base, m.hist, i).tweetCtr < id <= Before(base, m.hist, k).tweetCtr
    ensures i <= j < k && m.hist[j].event.Stepped? && m.hist[j].event.pc == TweetIdTaken(id)
    decreases k
  {
    hide Grows, Atomic, Earned, ThreadOk, StoreOk, TweetsAccounted, UsersAccounted;
    assert EntryOk(base, m.hist, k - 1);
    if id <= Before(base, m.hist, k - 1).tweetCtr {
      j := TweetIdTakenBetween(base, m, i, k - 1, id);
    } else {
      j := k - 1;
    }
  }

  lemma {:induction false} UserIdTakenBetween(base: Svc, m: State, i: nat, k: nat, id: int) returns (j: nat)
    requires Inv(base, m) && i <= k <= |m.hist|
    requires Before(base, m.hist, i).userCtr < id <= Before(base, m.hist, k).userCtr
    ensures i <= j < k && m.hist[j].event.Stepped? && m.hist[j].event.pc == UserIdTaken(id)
    decreases k
  {
    hide Grows, Atomic, Earned, ThreadOk, StoreOk, TweetsAccounted, UsersAccounted;
    assert EntryOk(base, m.hist, k - 1);
    if id <= Before(base, m.hist, k - 1).userCtr {
      j := UserIdTakenBetween(base, m, i, k - 1, id);
    } else {
      j := k - 1;
    }
  }

  /** Entry `j` is a tick that takes the clock to `now`. */
  ghost predicate TicksTo(hist: seq<Entry>, j: nat, now: int) {
    j < |hist| && hist[j].event.Returned? && hist[j].event.call.Tick? && hist[j].after.clock == now
  }

  lemma {:induction false} TickedBetween(base: Svc, m: State, i: nat, k: nat, now: int) returns (j: nat)
    requires Inv(base, m) && i <= k <= |m.hist|
    requires Before(base, m.hist, i).clock < now <= Before(base, m.hist, k).clock
    ensures i <= j < k && TicksTo(m.hist, j, now)
    decreases k
  {
    hide Grows, Atomic, Earned, ThreadOk, StoreOk, TweetsAccounted, UsersAccounted;
    assert EntryOk(base, m.hist, k - 1);
    if now <= Before(base, m.hist, k - 1).clock { j := TickedBetween(base, m, i, k - 1, now); } else { j := k - 1; }
  }

  // ----- ids and timestamps, exactly, in a run from any tables -----

  predicate IsTick(e: Event) { e.Returned? && e.call.Tick? }

  predicate DrawsUserId(e: Event) { e.Stepped? && e.pc.UserIdTaken? }

  predicate DrawsTweetId(e: Event) { e.Stepped? && e.pc.TweetIdTaken? }

  function Count(hist: seq<Entry>, what: Event -> bool): nat {
    if hist == [] then 0
    else var n := |hist| - 1; Count(hist[..n], what) + if what(hist[n].event) then 1 else 0
  }

  /** The clock is where the run started plus the ticks so far; each counter, plus the ids drawn so far. */
  lemma {:induction false} CountersCount(base: Svc, m: State, k: nat)
    requires Inv(base, m) && k <= |m.hist|
    ensures Before(base, m.hist, k).clock == base.clock + Count(m.hist[..k], IsTick)
    ensures Before(base, m.hist, k).userCtr == base.userCtr + Count(m.hist[..k], DrawsUserId)
    ensures Before(base, m.hist, k).tweetCtr == base.tweetCtr + Count(m.hist[..k], DrawsTweetId)
  {
    if k > 0 {
      CountersCount(base, m, k - 1);
      EntryCounts(base, m, k - 1);
      hide Inv;
      assert m.hist[..k][..k - 1] == m.hist[..k - 1];
    }
  }

  lemma EntryCounts(base: Svc, m: State, j: nat)
    requires Inv(base, m) && j < |m.hist|
    ensures var s, e, n := Before(base, m.hist, j), m.hist[j].event, m.hist[j].after;
            && n.clock == s.clock + (if IsTick(e) then 1 else 0)
            && n.userCtr == s.userCtr + (if DrawsUserId(e) then 1 else 0)
            && n.tweetCtr == s.tweetCtr + (if DrawsTweetId(e) then 1 else 0)
  {
    hide Grows, Atomic, Earned, ThreadOk, WellKeyed, OnlySteps;
    assert EntryOk(base, m.hist, j);
  }

  /** A post carries the number of its draw, counted on from the start, and the clock at its stamp: the start
      plus the ticks before. */
  lemma PostNumbered(base: Svc, m: State, k: nat, t: Tweet) returns (drew: nat, stamped: nat)
    requires Ran(base, m) && Returns(m.hist, k, Posted(t))
    ensures var e := m.hist[k].event;
            && TookAt(m.hist, e.tid, TweetIdTaken(t.id), e.since, drew) && drew < k
            && TookAt(m.hist, e.tid, Stamped(t.id, t.createdAt), e.since, stamped) && stamped < k
    ensures t.id == base.tweetCtr + Count(m.hist[..drew], DrawsTweetId) + 1
    ensures t.createdAt == base.clock + Count(m.hist[..stamped], IsTick)
  {
    hide Runs, WellKeyed, Inv, Count;
    RanInv(base, m);
    drew := PostDrew(base, m, k);
    stamped := PostStamped(base, m, k);
    EntryDraws(base, m, drew);
    EntryDraws(base, m, stamped);
    CountersCount(base, m, drew);
    CountersCount(base, m, stamped);
  }

  /** A created user carries the number of its draw. */
  lemma UserNumbered(base: Svc, m: State, k: nat, u: User) returns (drew: nat)
    requires Ran(base, m) && Returns(m.hist, k, UserMade(u))
    ensures var e := m.hist[k].event; TookAt(m.hist, e.tid, UserIdTaken(u.id), e.since, drew) && drew < k
    ensures u.id == base.userCtr + Count(m.hist[..drew], DrawsUserId) + 1
  {
    hide Runs, WellKeyed, Inv, Count, TookAt;
    RanInv(base, m);
    ReplyTrail(base, m, k, UserMade(u));
    var e := m.hist[k].event;
    drew :| TookAt(m.hist, e.tid, UserIdTaken(u.id), e.since, drew) && drew < k;
    UserDraw(base, m, drew, e.tid, e.since, u.id);
    CountersCount(base, m, drew);
  }

  lemma UserDraw(base: Svc, m: State, p: nat, tid: nat, since: nat, id: int)
    requires Inv(base, m) && TookAt(m.hist, tid, UserIdTaken(id), since, p)
    ensures id == Before(base, m.hist, p).userCtr + 1
  {
    EntryDraws(base, m, p);
  }

  /** The post that returned at `i` had drawn its id at `p`. */
  ghost predicate DrewAt(hist: seq<Entry>, i: nat, p: nat)
    requires i < |hist| && hist[i].event.Returned? && hist[i].event.reply.Posted?
  {
    var e := hist[i].event;
    TookAt(hist, e.tid, TweetIdTaken(e.reply.tweet.id), e.since, p) && p < i
  }

  lemma PostDrew(base: Svc, m: State, i: nat) returns (p: nat)
    requires Runs(base, m) && i < |m.hist| && m.hist[i].event.Returned? && m.hist[i].event.reply.Posted?
    ensures DrewAt(m.hist, i, p)
  {
    hide Runs, TookAt;
    var e := m.hist[i].event;
    ReplyTrail(base, m, i, e.reply);
    p :| TookAt(m.hist, e.tid, TweetIdTaken(e.reply.tweet.id), e.since, p) && p < i;
  }

  /** The post that returned at `i` had read the clock at `p`. */
  ghost predicate StampedAt(hist: seq<Entry>, i: nat, p: nat)
    requires i < |hist| && hist[i].event.Returned? && hist[i].event.reply.Posted?
  {
    var e := hist[i].event;
    TookAt(hist, e.tid, Stamped(e.reply.tweet.id, e.reply.tweet.createdAt), e.since, p) && p < i
  }

  lemma PostStamped(base: Svc, m: State, i: nat) returns (p: nat)
    requires Runs(base, m) && i < |m.hist| && m.hist[i].event.Returned? && m.hist[i].event.reply.Posted?
    ensures StampedAt(m.hist, i, p)
  {
    hide Runs, TookAt;
    var e := m.hist[i].event;
    ReplyTrail(base, m, i, e.reply);
    p :| TookAt(m.hist, e.tid, Stamped(e.reply.tweet.id, e.reply.tweet.createdAt), e.since, p) && p < i;
  }

  /** The places where a snapshot read the clock, the user counter and the tweet counter. */
  lemma ReadPlaces(base: Svc, m: State, k: nat, x: ServiceState) returns (now: nat, users: nat, tweets: nat)
    requires Ran(base, m) && Returns(m.hist, k, Captured(x))
    ensures var e := m.hist[k].event;
            && TookAt(m.hist, e.tid, ClockRead(x.clockNow), e.since, now) && now < k
            && TookAt(m.hist, e.tid, UserCtrRead(x.clockNow, x.idCounterUsers), e.since, users) && users < k
            && TookAt(m.hist, e.tid, TweetCtrRead(x.clockNow, x.idCounterUsers, x.idCounterTweets), e.since, tweets)
               && tweets < k
  {
    ReplyTrail(base, m, k, Captured(x));
    hide WellKeyed, Runs, TookAt;
    var e := m.hist[k].event;
    now :| TookAt(m.hist, e.tid, ClockRead(x.clockNow), e.since, now) && now < k;
    users :| TookAt(m.hist, e.tid, UserCtrRead(x.clockNow, x.idCounterUsers), e.since, users) && users < k;
    tweets :| TookAt(m.hist, e.tid, TweetCtrRead(x.clockNow, x.idCounterUsers, x.idCounterTweets), e.since, tweets)
        && tweets < k;
  }

  /** A snapshot's clock and counters are what each was at the place it was read. */
  lemma CaptureNumbered(base: Svc, m: State, k: nat, x: ServiceState) returns (now: nat, users: nat, tweets: nat)
    requires Ran(base, m) && Returns(m.hist, k, Captured(x))
    ensures m.hist[k].event.since < now < k && m.hist[k].event.since < users < k && m.hist[k].event.since < tweets < k
    ensures x.clockNow == base.clock + Count(m.hist[..now], IsTick)
    ensures x.idCounterUsers == base.userCtr + Count(m.hist[..users], DrawsUserId)
    ensures x.idCounterTweets == base.tweetCtr + Count(m.hist[..tweets], DrawsTweetId)
  {
    hide Runs, WellKeyed, Inv, Count;
    RanInv(base, m);
    now, users, tweets := ReadPlaces(base, m, k, x);
    EntryDraws(base, m, now);
    EntryDraws(base, m, users);
    EntryDraws(base, m, tweets);
    CountersCount(base, m, now);
    CountersCount(base, m, users);
    CountersCount(base, m, tweets);
  }

  lemma DrawOrder(base: Svc, m: State, p: nat, q: nat)
    requires Inv(base, m) && p < q < |m.hist| && m.hist[p].event.Stepped? && m.hist[q].event.Stepped?
    requires m.hist[p].event.pc.TweetIdTaken? && m.hist[q].event.pc.TweetIdTaken?
    ensures m.hist[p].event.pc.tweetId < m.hist[q].event.pc.tweetId
  {
    hide Inv, Accounted, AllTweets;
    EntryDraws(base, m, p);
    EntryDraws(base, m, q);
    InvForward(base, m, p + 1, q);
  }

  /** No two posts of a run ever get the same id, whatever state the run starts from. */
  lemma PostIdsDiffer(base: Svc, m: State, i: nat, t: Tweet, k: nat, u: Tweet)
    requires Ran(base, m) && i < k && Returns(m.hist, i, Posted(t)) && Returns(m.hist, k, Posted(u))
    ensures t.id != u.id
  {
    RanInv(base, m);
    OnlyStepsBefore(base, m, k);
    hide Inv, Runs, WellKeyed;
    var p := PostDrew(base, m, i);
    var q := PostDrew(base, m, k);
    if p < q { DrawOrder(base, m, p, q); } else if q < p { DrawOrder(base, m, q, p); }
  }

  lemma OnlyStepsBefore(base: Svc, m: State, k: nat)
    requires Inv(base, m) && k < |m.hist| && m.hist[k].event.Returned?
    ensures OnlySteps(m.hist, m.hist[k].event.tid, m.hist[k].event.since, k)
  {
    hide Grows, AtOnce, ThreadOk, WellKeyed;
    assert EntryOk(base, m.hist, k);
  }

  // ----- what an overlapped snapshot's counters and clock do not cover -----

  lemma CapturedBounds(base: Svc, m: State, k: nat, x: ServiceState)
    requires Reachable(base, m) && Returns(m.hist, k, Captured(x))
    ensures var end := m.hist[k].after;
            && (forall u | u in x.store.users :: u.id <= end.userCtr)
            && (forall t | t in x.store.tweets :: t.id <= end.tweetCtr && t.createdAt <= end.clock)
  {
    EntryBounds(base, m, k);
    CapturedAt(base, m, k, x);
    BoundedCapture(m.hist[k].after, x);
  }

  ghost predicate Bounded(s: Svc) {
    && (forall u | u in s.store.users.Values :: u.id <= s.userCtr)
    && (forall t | t in AllTweets(s.store) :: t.id <= s.tweetCtr && t.createdAt <= s.clock)
  }

  lemma EntryBounds(base: Svc, m: State, k: nat)
    requires Reachable(base, m) && k < |m.hist|
    ensures Bounded(m.hist[k].after)
  {
    hide AtRest, Inv, Accounted, Enabled, Apply, Bounded;
    var acts, ms :| Run(base, acts, ms) && m == ms[|acts|];
    HistoryFollowsRun(base, acts, ms, |acts|);
    RunAccounted(base, acts, ms, k + 1);
    InvBounds(base, ms[k + 1]);
  }

  /** A captured state is a snapshot of the tables at its return, where the clock stands still. */
  lemma CapturedAt(base: Svc, m: State, k: nat, x: ServiceState)
    requires Reachable(base, m) && Returns(m.hist, k, Captured(x))
    ensures IsSnapshot(m.hist[k].after.store, x.store) && m.hist[k].after.clock == Before(base, m.hist, k).clock
  {
    ReachableInv(base, m);
    hide Inv, Accounted, AtOnce, Before;
    ReturnAtOnce(base, m, k);
    CapturedAtOnce(m.hist[m.hist[k].event.since].after, Before(base, m.hist, k), m.hist[k].event.call, x,
        m.hist[k].after);
  }

  lemma CapturedAtOnce(start: Svc, s: Svc, call: Call, x: ServiceState, end: Svc)
    requires AtOnce(start, s, call, Captured(x), end)
    ensures IsSnapshot(end.store, x.store) && end.clock == s.clock
  {
    hide IsSnapshot, IsTimeline, AllTweets, Edges;
  }

  lemma BoundedCapture(end: Svc, x: ServiceState)
    requires Bounded(end) && IsSnapshot(end.store, x.store)
    ensures (forall u | u in x.store.users :: u.id <= end.userCtr)
    ensures (forall t | t in x.store.tweets :: t.id <= end.tweetCtr && t.createdAt <= end.clock)
  {
    forall u | u in x.store.users ensures u.id <= end.userCtr { assert u in multiset(x.store.users); }
    forall t | t in x.store.tweets ensures t.id <= end.tweetCtr && t.createdAt <= end.clock {
      assert t in multiset(x.store.tweets);
    }
  }

  lemma InvBounds(base: Svc, m: State)
    requires Inv(base, m) && Accounted(base, m)
    ensures Bounded(m.svc)
  {
    hide EntryOk, ThreadOk;
  }

  /** A captured tweet whose id is above the captured counter had that id drawn between the snapshot's
      counter read and its end. */
  lemma SnapshotLateIds(base: Svc, m: State, k: nat, x: ServiceState, t: Tweet) returns (read: nat, taken: nat)
    requires Reachable(base, m) && Returns(m.hist, k, Captured(x))
    requires t in x.store.tweets && t.id > x.idCounterTweets
    ensures var e := m.hist[k].event;
            TookAt(m.hist, e.tid, TweetCtrRead(x.clockNow, x.idCounterUsers, x.idCounterTweets), e.since, read)
    ensures read < taken < k && m.hist[taken].event.Stepped? && m.hist[taken].event.pc == TweetIdTaken(t.id)
  {
    hide Inv, Accounted, Reachable, AtRest, CameTo;
    CapturedBounds(base, m, k, x);
    var now, users;
    now, users, read := ReadPlaces(base, m, k, x) by { ReachableRan(base, m); }
    ReachableInv(base, m);
    EntryDraws(base, m, read);
    taken := TweetIdTakenBetween(base, m, read + 1, k + 1, t.id);
  }

  /** A captured user whose id is above the captured counter had it drawn after that counter was read. */
  lemma SnapshotLateUserIds(base: Svc, m: State, k: nat, x: ServiceState, u: User) returns (read: nat, taken: nat)
    requires Reachable(base, m) && Returns(m.hist, k, Captured(x))
    requires u in x.store.users && u.id > x.idCounterUsers
    ensures var e := m.hist[k].event; TookAt(m.hist, e.tid, UserCtrRead(x.clockNow, x.idCounterUsers), e.since, read)
    ensures read < taken < k && m.hist[taken].event.Stepped? && m.hist[taken].event.pc == UserIdTaken(u.id)
  {
    hide Inv, Accounted, Reachable, AtRest, CameTo;
    CapturedBounds(base, m, k, x);
    var now, tweets;
    now, read, tweets := ReadPlaces(base, m, k, x) by { ReachableRan(base, m); }
    ReachableInv(base, m);
    EntryDraws(base, m, read);
    taken := UserIdTakenBetween(base, m, read + 1, k + 1, u.id);
  }

  /** A captured tweet dated after the captured clock was stamped after a tick the snapshot did not see: one
      between its clock read and its end took the clock to that date. */
  lemma SnapshotLateDates(base: Svc, m: State, k: nat, x: ServiceState, t: Tweet) returns (read: nat, ticked: nat)
    requires Reachable(base, m) && Returns(m.hist, k, Captured(x))
    requires t in x.store.tweets && t.createdAt > x.clockNow
    ensures var e := m.hist[k].event; TookAt(m.hist, e.tid, ClockRead(x.clockNow), e.since, read)
    ensures read < ticked < k && TicksTo(m.hist, ticked, t.createdAt)
  {
    hide Inv, Accounted, Reachable, AtRest, CameTo, IsSnapshot, TicksTo;
    CapturedBounds(base, m, k, x);
    CapturedAt(base, m, k, x);
    var users, tweets;
    read, users, tweets := ReadPlaces(base, m, k, x) by { ReachableRan(base, m); }
    ReachableInv(base, m);
    EntryDraws(base, m, read);
    ticked := TickedBetween(base, m, read + 1, k, t.createdAt);
  }
}
