/** The list of one author: insertion order in every run, and when ids and dates ascend along it (F8). */
module AuthorOrder {
  import opened Domain
  import opened Store
  import opened Views
  import opened Calls
  import opened Machine
  import opened Invariants
  import opened Interleavings
  import opened Trails

  // ----- insertion order is the order of the returns -----

  predicate PostBy(e: Event, a: string) {
    e.Returned? && e.reply.Posted? && e.reply.tweet.author == a
  }

  /** The posts of `a` in the order they returned, and the places where they did. */
  function Accepted(hist: seq<Entry>, a: string): seq<Tweet> {
    if hist == [] then []
    else
      var n := |hist| - 1;
      Accepted(hist[..n], a) + if PostBy(hist[n].event, a) then [hist[n].event.reply.tweet] else []
  }

  function Places(hist: seq<Entry>, a: string): seq<nat> {
    if hist == [] then []
    else
      var n := |hist| - 1;
      Places(hist[..n], a) + if PostBy(hist[n].event, a) then [n] else []
  }

  lemma StepAppends(s: Svc, call: Call, pc: Pc, reply: Reply, a: string)
    requires Fits(call, pc)
    ensures Step(s, call, pc).1.Continue? ==> Step(s, call, pc).0.store.byAuthor == s.store.byAuthor
    ensures Answers(s, Step(s, call, pc).1, reply) ==>
              ListOf(Step(s, call, pc).0.store.byAuthor, a) ==
              ListOf(s.store.byAuthor, a) + if reply.Posted? && reply.tweet.author == a then [reply.tweet] else []
  {
    hide IsTimeline, IsSnapshot;
  }

  /** What an action adds to the author's list. */
  function Adds(act: Action, a: string): seq<Tweet> {
    if act.Return? && act.reply.Posted? && act.reply.tweet.author == a then [act.reply.tweet] else []
  }

  lemma ActionAppends(m: State, act: Action, a: string)
    requires Enabled(m, act)
    ensures ListOf(Apply(m, act).svc.store.byAuthor, a) == ListOf(m.svc.store.byAuthor, a) + Adds(act, a)
    ensures Accepted(Apply(m, act).hist, a) == Accepted(m.hist, a) + Adds(act, a)
  {
    hide Step, Answers;
    assert Apply(m, act).hist[..|m.hist|] == m.hist;
    if act.Proceed? { StepAppends(m.svc, m.busy[act.tid].call, m.busy[act.tid].pc, Done, a); }
    if act.Return? { StepAppends(m.svc, m.busy[act.tid].call, m.busy[act.tid].pc, act.reply, a); }
  }

  lemma {:induction false} RunAppends(base: Svc, acts: seq<Action>, ms: seq<State>, i: nat, a: string)
    requires Run(base, acts, ms) && i <= |acts|
    ensures ListOf(ms[i].svc.store.byAuthor, a) == ListOf(base.store.byAuthor, a) + Accepted(ms[i].hist, a)
  {
    hide Enabled, Apply, ListOf, Accepted, PostBy;
    if i == 0 { NoneAccepted(ListOf(base.store.byAuthor, a), a); } else {
      RunAppends(base, acts, ms, i - 1, a);
      ActionAccepts(ListOf(base.store.byAuthor, a), ms[i - 1], acts[i - 1], a);
    }
  }

  lemma NoneAccepted(start: seq<Tweet>, a: string)
    ensures start + Accepted([], a) == start
  { }

  lemma ActionAccepts(start: seq<Tweet>, m: State, act: Action, a: string)
    requires Enabled(m, act) && ListOf(m.svc.store.byAuthor, a) == start + Accepted(m.hist, a)
    ensures ListOf(Apply(m, act).svc.store.byAuthor, a) == start + Accepted(Apply(m, act).hist, a)
  {
    hide Apply, Accepted, ListOf, Enabled, Adds;
    ActionAppends(m, act, a);
    Regroup(start, Accepted(m.hist, a), Adds(act, a));
  }

  lemma Regroup(p: seq<Tweet>, q: seq<Tweet>, r: seq<Tweet>)
    ensures p + q + r == p + (q + r)
  { }

  /** "Per-author append-only list, in insertion order": in any run from any state, an author's list is what
      it was at the start, followed by the author's posts in the order they returned. */
  lemma ListsInReturnOrder(base: Svc, m: State, a: string)
    requires Runs(base, m)
    ensures ListOf(m.svc.store.byAuthor, a) == ListOf(base.store.byAuthor, a) + Accepted(m.hist, a)
  {
    hide Enabled, Apply, ListOf, Accepted;
    var acts, ms :| Run(base, acts, ms) && m == ms[|acts|];
    RunAppends(base, acts, ms, |acts|, a);
  }

  lemma {:induction false} PlacesMatch(hist: seq<Entry>, a: string)
    ensures |Places(hist, a)| == |Accepted(hist, a)|
    ensures forall x | 0 <= x < |Places(hist, a)| ::
              var i := Places(hist, a)[x];
                  i < |hist| && PostBy(hist[i].event, a) && hist[i].event.reply.tweet == Accepted(hist, a)[x]
    ensures forall x, y | 0 <= x < y < |Places(hist, a)| :: Places(hist, a)[x] < Places(hist, a)[y]
    ensures forall i: nat | i < |hist| && PostBy(hist[i].event, a) :: i in Places(hist, a)
  {
    if hist != [] { PlacesMatch(hist[..|hist| - 1], a); }
  }

  // ----- ids -----

  ghost predicate IdsAscend(ts: seq<Tweet>) {
    forall x, y | 0 <= x < y < |ts| :: ts[x].id < ts[y].id
  }

  /** Two posts of `a` returned, at `i` and `k`, in the opposite order to that in which they drew their ids. */
  ghost predicate IdsCross(hist: seq<Entry>, a: string, i: nat, k: nat) {
    && i < k < |hist| && PostBy(hist[i].event, a) && PostBy(hist[k].event, a)
    && exists p: nat, q: nat :: DrewAt(hist, i, p) && DrewAt(hist, k, q) && q < p
  }

  lemma PairIds(base: Svc, m: State, a: string, i: nat, k: nat)
    requires Reachable(base, m) && i < k < |m.hist| && PostBy(m.hist[i].event, a) && PostBy(m.hist[k].event, a)
    ensures m.hist[i].event.reply.tweet.id < m.hist[k].event.reply.tweet.id <==> !IdsCross(m.hist, a, i, k)
  {
    hide Inv, Accounted, AtRest, Runs, Enabled;
    var t, u := m.hist[i].event.reply.tweet, m.hist[k].event.reply.tweet;
    ReachableInv(base, m);
    PostIdsDiffer(base, m, i, t, k, u) by { ReachableRan(base, m); }
    if IdsCross(m.hist, a, i, k) {
      var p: nat, q: nat :| DrewAt(m.hist, i, p) && DrewAt(m.hist, k, q) && q < p;
      DrawOrder(base, m, q, p);
    } else {
      var p := PostDrew(base, m, i);
      var q := PostDrew(base, m, k);
      if p < q { DrawOrder(base, m, p, q); }
    }
  }

  /** F8's "per-author monotonic", exactly: an author's list ascends in id if and only if it did at the start
      and no two of the author's posts returned in the opposite order to that in which they drew their ids. */
  lemma IdsAscendExactlyWhen(base: Svc, m: State, a: string)
    requires Reachable(base, m)
    ensures IdsAscend(ListOf(m.svc.store.byAuthor, a)) <==>
            IdsAscend(ListOf(base.store.byAuthor, a)) && forall i: nat, k: nat :: !IdsCross(m.hist, a, i, k)
  {
    hide Reachable, IdsCross, IdsAscend, PostBy;
    ListsInReturnOrder(base, m, a) by { assert Runs(base, m) by { ReachableRuns(base, m); } }
    AcceptedIds(base, m, a);
    LaterIds(base, m, a);
    IdsAscendConcat(ListOf(base.store.byAuthor, a), Accepted(m.hist, a));
  }

  lemma ReachableRuns(base: Svc, m: State)
    requires Reachable(base, m)
    ensures Runs(base, m)
  { }

  lemma IdsAscendConcat(p: seq<Tweet>, q: seq<Tweet>)
    requires forall t, u | t in p && u in q :: t.id < u.id
    ensures IdsAscend(p + q) <==> IdsAscend(p) && IdsAscend(q)
  {
    var r := p + q;
    if IdsAscend(r) {
      forall x, y | 0 <= x < y < |p| ensures p[x].id < p[y].id { assert r[x] == p[x] && r[y] == p[y]; }
      forall x, y | 0 <= x < y < |q| ensures q[x].id < q[y].id { assert r[|p| + x] == q[x] && r[|p| + y] == q[y]; }
    }
  }

  lemma AcceptedIds(base: Svc, m: State, a: string)
    requires Reachable(base, m)
    ensures IdsAscend(Accepted(m.hist, a)) <==> forall i: nat, k: nat :: !IdsCross(m.hist, a, i, k)
  {
    hide Reachable, PostBy;
    PlacesMatch(m.hist, a);
    var places, ts := Places(m.hist, a), Accepted(m.hist, a);
    if IdsAscend(ts) {
      forall i: nat, k: nat ensures !IdsCross(m.hist, a, i, k) {
        if IdsCross(m.hist, a, i, k) { CrossDescends(base, m, a, i, k); }
      }
    } else {
      var x, y :| 0 <= x < y < |ts| && ts[x].id >= ts[y].id;
      PairIds(base, m, a, places[x], places[y]);
      assert IdsCross(m.hist, a, places[x], places[y]);
    }
  }

  lemma CrossDescends(base: Svc, m: State, a: string, i: nat, k: nat)
    requires Reachable(base, m) && IdsCross(m.hist, a, i, k)
    ensures !IdsAscend(Accepted(m.hist, a))
  {
    hide Reachable;
    PlacesMatch(m.hist, a);
    PairIds(base, m, a, i, k);
    var places := Places(m.hist, a);
    var x :| 0 <= x < |places| && places[x] == i;
    var y :| 0 <= y < |places| && places[y] == k;
    assert !(y < x);
  }

  /** What a run accepts is numbered and dated after all that was there. */
  lemma LaterIds(base: Svc, m: State, a: string)
    requires Reachable(base, m)
    ensures forall t, u | t in ListOf(base.store.byAuthor, a) && u in Accepted(m.hist, a) ::
              t.id < u.id && t.createdAt <= u.createdAt
  {
    forall t, u | t in ListOf(base.store.byAuthor, a) && u in Accepted(m.hist, a)
      ensures t.id < u.id && t.createdAt <= u.createdAt
    {
      ListedAtRest(base, a, t);
      AcceptedSince(base, m, a, u);
    }
  }

  lemma ListedAtRest(base: Svc, a: string, t: Tweet)
    requires AtRest(base) && t in ListOf(base.store.byAuthor, a)
    ensures t in AllTweets(base.store) && t.id <= base.tweetCtr && t.createdAt <= base.clock
  {
    AllTweetsCount(base.store, t);
    assert t in multiset(ListOf(base.store.byAuthor, a)) && t.author == a;
  }

  lemma AcceptedSince(base: Svc, m: State, a: string, u: Tweet)
    requires Reachable(base, m) && u in Accepted(m.hist, a)
    ensures base.tweetCtr < u.id && base.clock <= u.createdAt
  {
    hide AtRest, Runs, Inv, Accounted, AllTweets;
    PlacesMatch(m.hist, a);
    var x :| 0 <= x < |Accepted(m.hist, a)| && Accepted(m.hist, a)[x] == u;
    var i := Places(m.hist, a)[x];
    ReachableInv(base, m);
    ReplyFacts(base, m, i, Posted(u), i + 1);
    InvForward(base, m, 0, m.hist[i].event.since + 1);
  }

  // ----- dates -----

  ghost predicate DatesAscend(ts: seq<Tweet>) {
    forall x, y | 0 <= x < y < |ts| :: ts[x].createdAt <= ts[y].createdAt
  }

  ghost predicate TickedWithin(hist: seq<Entry>, q: nat, p: nat) {
    exists j: nat, now :: q < j < p && TicksTo(hist, j, now)
  }

  /** Two posts of `a` returned in the opposite order to that in which they read the clock, and it had ticked
      in between. */
  ghost predicate DatesCross(hist: seq<Entry>, a: string, i: nat, k: nat) {
    && i < k < |hist| && PostBy(hist[i].event, a) && PostBy(hist[k].event, a)
    && exists p: nat, q: nat :: StampedAt(hist, i, p) && StampedAt(hist, k, q) && TickedWithin(hist, q, p)
  }

  lemma StampOrder(base: Svc, m: State, p: nat, q: nat)
    requires Inv(base, m) && p < |m.hist| && q < |m.hist| && m.hist[p].event.Stepped? && m.hist[q].event.Stepped?
    requires m.hist[p].event.pc.Stamped? && m.hist[q].event.pc.Stamped?
    ensures TickedWithin(m.hist, q, p) <==> m.hist[q].event.pc.at < m.hist[p].event.pc.at
  {
    hide Inv, Accounted, AllTweets, TicksTo;
    EntryDraws(base, m, p);
    EntryDraws(base, m, q);
    if TickedWithin(m.hist, q, p) {
      var j: nat, now :| q < j < p && TicksTo(m.hist, j, now);
      InvForward(base, m, q + 1, j);
      TickAdvances(base, m, j, now);
      InvForward(base, m, j + 1, p);
    } else if m.hist[q].event.pc.at < m.hist[p].event.pc.at {
      if p <= q { InvForward(base, m, p + 1, q + 1); } else {
        var j := TickedBetween(base, m, q + 1, p, m.hist[p].event.pc.at);
      }
    }
  }

  lemma TickAdvances(base: Svc, m: State, j: nat, now: int)
    requires Inv(base, m) && TicksTo(m.hist, j, now)
    ensures m.hist[j].after.clock == Before(base, m.hist, j).clock + 1
  {
    hide Inv, Accounted, Atomic, Earned, Before;
    ReturnAtOnce(base, m, j);
  }

  lemma PairDates(base: Svc, m: State, a: string, i: nat, k: nat)
    requires Reachable(base, m) && i < k < |m.hist| && PostBy(m.hist[i].event, a) && PostBy(m.hist[k].event, a)
    ensures m.hist[i].event.reply.tweet.createdAt <= m.hist[k].event.reply.tweet.createdAt <==>
            !DatesCross(m.hist, a, i, k)
  {
    hide Inv, Accounted, AtRest, Runs, Enabled, TickedWithin;
    ReachableInv(base, m);
    if DatesCross(m.hist, a, i, k) {
      var p: nat, q: nat :| StampedAt(m.hist, i, p) && StampedAt(m.hist, k, q) && TickedWithin(m.hist, q, p);
      StampOrder(base, m, p, q);
    } else {
      var p := PostStamped(base, m, i);
      var q := PostStamped(base, m, k);
      StampOrder(base, m, p, q);
    }
  }

  /** The timestamps along an author's list, exactly: they ascend if and only if they did at the start and no
      two of the author's posts read the clock in the opposite order to their returns with a tick in between. */
  lemma DatesAscendExactlyWhen(base: Svc, m: State, a: string)
    requires Reachable(base, m)
    ensures DatesAscend(ListOf(m.svc.store.byAuthor, a)) <==>
            DatesAscend(ListOf(base.store.byAuthor, a)) && forall i: nat, k: nat :: !DatesCross(m.hist, a, i, k)
  {
    hide Reachable, DatesCross, DatesAscend, PostBy;
    ListsInReturnOrder(base, m, a) by { assert Runs(base, m) by { ReachableRuns(base, m); } }
    AcceptedDates(base, m, a);
    LaterIds(base, m, a);
    DatesAscendConcat(ListOf(base.store.byAuthor, a), Accepted(m.hist, a));
  }

  lemma DatesAscendConcat(p: seq<Tweet>, q: seq<Tweet>)
    requires forall t, u | t in p && u in q :: t.createdAt <= u.createdAt
    ensures DatesAscend(p + q) <==> DatesAscend(p) && DatesAscend(q)
  {
    var r := p + q;
    if DatesAscend(r) {
      forall x, y | 0 <= x < y < |p| ensures p[x].createdAt <= p[y].createdAt { assert r[x] == p[x] && r[y] == p[y]; }
      forall x, y | 0 <= x < y < |q| ensures q[x].createdAt <= q[y].createdAt {
        assert r[|p| + x] == q[x] && r[|p| + y] == q[y];
      }
    }
  }

  lemma AcceptedDates(base: Svc, m: State, a: string)
    requires Reachable(base, m)
    ensures DatesAscend(Accepted(m.hist, a)) <==> forall i: nat, k: nat :: !DatesCross(m.hist, a, i, k)
  {
    hide Reachable, PostBy;
    PlacesMatch(m.hist, a);
    var places, ts := Places(m.hist, a), Accepted(m.hist, a);
    if DatesAscend(ts) {
      forall i: nat, k: nat ensures !DatesCross(m.hist, a, i, k) {
        if DatesCross(m.hist, a, i, k) { DateCrossDescends(base, m, a, i, k); }
      }
    } else {
      var x, y :| 0 <= x < y < |ts| && ts[x].createdAt > ts[y].createdAt;
      PairDates(base, m, a, places[x], places[y]);
      assert DatesCross(m.hist, a, places[x], places[y]);
    }
  }

  lemma DateCrossDescends(base: Svc, m: State, a: string, i: nat, k: nat)
    requires Reachable(base, m) && DatesCross(m.hist, a, i, k)
    ensures !DatesAscend(Accepted(m.hist, a))
  {
    hide Reachable;
    PlacesMatch(m.hist, a);
    PairDates(base, m, a, i, k);
    var places := Places(m.hist, a);
    var x :| 0 <= x < |places| && places[x] == i;
    var y :| 0 <= y < |places| && places[y] == k;
    assert !(y < x);
  }

  // ----- a condition on the schedule: the author's posts do not overlap past their ids -----

  ghost predicate Holds(b: Busy, a: string) {
    b.call.Post? && b.call.author == a && (b.pc.TweetIdTaken? || b.pc.Stamped?)
  }

  ghost predicate Apart(m: State, a: string) {
    forall p, q | p in m.busy && q in m.busy && Holds(m.busy[p], a) && Holds(m.busy[q], a) :: p == q
  }

  ghost predicate Below(ts: seq<Tweet>, pc: Pc) {
    && (pc.TweetIdTaken? || pc.Stamped? ==> forall t | t in ts :: t.id < pc.tweetId)
    && (pc.Stamped? ==> forall t | t in ts :: t.createdAt <= pc.at)
  }

  ghost predicate InOrderSoFar(m: State, a: string) {
    var ts := ListOf(m.svc.store.byAuthor, a);
    && IdsAscend(ts) && DatesAscend(ts)
    && forall p | p in m.busy && Holds(m.busy[p], a) :: Below(ts, m.busy[p].pc)
  }

  /** Anything drawn or stamped now comes after all that is listed. */
  lemma NextIsLater(base: Svc, m: State, a: string)
    requires Inv(base, m) && Accounted(base, m)
    ensures forall t | t in ListOf(m.svc.store.byAuthor, a) :: t.id <= m.svc.tweetCtr && t.createdAt <= m.svc.clock
  {
    hide EntryOk, ThreadOk;
    forall t | t in ListOf(m.svc.store.byAuthor, a) ensures t in AllTweets(m.svc.store) {
      AllTweetsCount(m.svc.store, t);
      assert t in multiset(ListOf(m.svc.store.byAuthor, a)) && t.author == a;
    }
  }

  lemma ProceedKeepsOrder(base: Svc, m: State, act: Action, a: string)
    requires Inv(base, m) && Accounted(base, m) && InOrderSoFar(m, a) && act.Proceed? && Enabled(m, act)
    ensures InOrderSoFar(Apply(m, act), a)
  {
    hide Inv, Accounted, IdsAscend, DatesAscend;
    NextIsLater(base, m, a);
    var n, b := Apply(m, act), m.busy[act.tid];
    StepDraws(m.svc, b.call, b.pc);
    StepFrom(m.svc, b.call, b.pc);
    hide Step;
    assert Holds(n.busy[act.tid], a) ==> Below(ListOf(m.svc.store.byAuthor, a), n.busy[act.tid].pc);
  }

  lemma ReturnKeepsOrder(m: State, act: Action, a: string)
    requires InOrderSoFar(m, a) && Apart(m, a) && act.Return? && Enabled(m, act)
    ensures InOrderSoFar(Apply(m, act), a)
  {
    var n, b := Apply(m, act), m.busy[act.tid];
    var ts := ListOf(m.svc.store.byAuthor, a);
    StepAppends(m.svc, b.call, b.pc, act.reply, a);
    StepFrom(m.svc, b.call, b.pc);
    hide Step, Answers, IdsAscend, DatesAscend;
    if act.reply.Posted? && act.reply.tweet.author == a {
      PostedBusy(m.svc, b.call, b.pc, act.reply);
      assert Holds(b, a) && Below(ts, b.pc);
      OneMoreInOrder(ts, act.reply.tweet);
    }
  }

  lemma PostedBusy(s: Svc, call: Call, pc: Pc, reply: Reply)
    requires Fits(call, pc) && Answers(s, Step(s, call, pc).1, reply) && reply.Posted?
    ensures call.Post? && call.author == reply.tweet.author && pc == Stamped(reply.tweet.id, reply.tweet.createdAt)
  { }

  lemma OneMoreInOrder(ts: seq<Tweet>, u: Tweet)
    requires IdsAscend(ts) && DatesAscend(ts) && forall t | t in ts :: t.id < u.id && t.createdAt <= u.createdAt
    ensures IdsAscend(ts + [u]) && DatesAscend(ts + [u])
  { }

  lemma ActionKeepsOrder(base: Svc, m: State, act: Action, a: string)
    requires Inv(base, m) && Accounted(base, m) && InOrderSoFar(m, a) && Apart(m, a) && Enabled(m, act)
    ensures InOrderSoFar(Apply(m, act), a)
  {
    hide Inv, Accounted, IdsAscend, DatesAscend, Step, Answers, Apart;
    match act
    case Invoke(_, _) =>
    case Proceed(_) => ProceedKeepsOrder(base, m, act, a);
    case Return(_, _) => ReturnKeepsOrder(m, act, a);
  }

  /** If in a run no two posts of `a` are ever in flight past their ids together, `a`'s list stays in order:
      ids ascend strictly and timestamps never go back. */
  lemma {:induction false} OrderedWhenApart(base: Svc, acts: seq<Action>, ms: seq<State>, i: nat, a: string)
    requires AtRest(base) && Run(base, acts, ms) && i <= |acts| && forall k | 0 <= k < i :: Apart(ms[k], a)
    requires IdsAscend(ListOf(base.store.byAuthor, a)) && DatesAscend(ListOf(base.store.byAuthor, a))
    ensures IdsAscend(ListOf(ms[i].svc.store.byAuthor, a)) && DatesAscend(ListOf(ms[i].svc.store.byAuthor, a))
    ensures InOrderSoFar(ms[i], a)
  {
    if i > 0 {
      hide AtRest, Inv, Accounted, Enabled, Apply, Apart;
      OrderedWhenApart(base, acts, ms, i - 1, a);
      RunAccounted(base, acts, ms, i - 1);
      ActionKeepsOrder(base, ms[i - 1], acts[i - 1], a);
    }
  }
}
