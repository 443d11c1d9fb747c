/** What the store shows: home timelines (F1, F2) and snapshots, and when they are determined. */
module Views {
  import opened Domain
  import opened Sorting
  import opened Store

  // ----- home timelines -----

  /** The answers `home_timeline(user, limit)` may give, over every hash iteration order. */
  ghost predicate IsTimeline(s: Inner, user: string, limit: nat, r: seq<Tweet>) {
    && Top(NewestFirst, Visible(s, user), r)
    && |r| == if limit > 0 && |Visible(s, user)| > limit then limit else |Visible(s, user)|
  }

  lemma CutIsTop(all: seq<Tweet>, limit: nat)
    requires SortedBy(NewestFirst, all)
    ensures var r := Cut(all, limit);
            && Top(NewestFirst, multiset(all), r)
            && |r| == if limit > 0 && |multiset(all)| > limit then limit else |multiset(all)|
  {
    assert |multiset(all)| == |all| && all[..|all|] == all;
    TopOfSorted(NewestFirst, all, |Cut(all, limit)|);
  }

  /** Stored tweets differ pairwise in their ids, and none is stored twice. */
  ghost predicate DistinctIds(bag: multiset<Tweet>) {
    && (forall t | t in bag :: bag[t] == 1)
    && (forall t, u | t in bag && u in bag && t.id == u.id :: t == u)
  }

  /** F2 as the documentation states it: the order on (created_at desc, id desc), strict. */
  predicate Newer(a: Tweet, b: Tweet) {
    a.createdAt > b.createdAt || (a.createdAt == b.createdAt && a.id > b.id)
  }

  ghost predicate StrictlyNewestFirst(r: seq<Tweet>) {
    forall i, j | 0 <= i < j < |r| :: Newer(r[i], r[j])
  }

  ghost predicate Sees(s: Inner, user: string, t: Tweet) {
    t.author == user || Follow(user, t.author) in Edges(s)
  }

  lemma VisibleWithin(s: Inner, user: string)
    requires OwnLists(s.byAuthor)
    ensures Visible(s, user) <= AllTweets(s)
    ensures DistinctIds(AllTweets(s)) ==> DistinctIds(Visible(s, user))
  {
    forall t: Tweet ensures Visible(s, user)[t] <= AllTweets(s)[t] { VisibleCount(s, user, t); }
  }

  /** Two stores with the same edges and tweets show everyone the same bag. */
  lemma VisibleSame(a: Inner, b: Inner, user: string)
    requires OwnLists(a.byAuthor) && OwnLists(b.byAuthor)
    requires Edges(a) == Edges(b) && AllTweets(a) == AllTweets(b)
    ensures Visible(a, user) == Visible(b, user)
  {
    forall t: Tweet ensures Visible(a, user)[t] == Visible(b, user)[t] {
      VisibleCount(a, user, t);
      VisibleCount(b, user, t);
    }
  }

  /** The timeline does not depend on hash order, nor on how edges and tweets are laid out. */
  lemma TimelineDetermined(a: Inner, b: Inner, user: string, limit: nat, p: seq<Tweet>, q: seq<Tweet>)
    requires OwnLists(a.byAuthor) && OwnLists(b.byAuthor)
    requires Edges(a) == Edges(b) && AllTweets(a) == AllTweets(b) && DistinctIds(AllTweets(a))
    requires IsTimeline(a, user, limit, p) && IsTimeline(b, user, limit, q)
    ensures p == q
  {
    VisibleSame(a, b, user);
    VisibleWithin(a, user);
    NewestFirstTotal();
    TopUnique(NewestFirst, Visible(a, user), p, q);
  }

  /** F1 and F2: every returned tweet is visible, none comes twice, newer strictly precedes older, and a
      limit only ever drops visible tweets that rank strictly below every tweet returned. */
  lemma TimelineMeaning(s: Inner, user: string, limit: nat, r: seq<Tweet>)
    requires OwnLists(s.byAuthor) && DistinctIds(AllTweets(s)) && IsTimeline(s, user, limit, r)
    ensures forall t | t in r :: t in AllTweets(s) && Sees(s, user, t)
    ensures StrictlyNewestFirst(r)
    ensures forall t, u | t in r && u !in r && u in AllTweets(s) && Sees(s, user, u) :: Newer(t, u)
    ensures limit == 0 || |r| < limit ==> forall u | u in AllTweets(s) && Sees(s, user, u) :: u in r
    ensures limit > 0 ==> |r| <= limit
  {
    var bag := Visible(s, user);
    VisibleWithin(s, user);
    forall t ensures t in bag <==> t in AllTweets(s) && Sees(s, user, t) { VisibleCount(s, user, t); }
    TopMeaning(bag, r);
    if limit == 0 || |r| < limit { WholeBag(bag, r); }
  }

  lemma TopMeaning(bag: multiset<Tweet>, r: seq<Tweet>)
    requires DistinctIds(bag) && Top(NewestFirst, bag, r)
    ensures StrictlyNewestFirst(r)
    ensures forall t | t in r :: t in bag
    ensures forall t, u | t in r && u !in r && u in bag :: Newer(t, u)
  {
    forall t | t in r ensures t in bag { assert t in multiset(r); }
    forall t, u | t in r && u !in r && u in bag ensures Newer(t, u) {
      assert u !in multiset(r);
      assert u in bag - multiset(r) && NewestFirst(t, u);
    }
    forall i, j | 0 <= i < j < |r| ensures Newer(r[i], r[j]) {
      assert NewestFirst(r[i], r[j]) && r[i] in bag && r[j] in bag;
      if r[i] == r[j] { TwiceCounts(r, i, j); }
    }
  }

  // ----- F2 on any store, for any limit -----

  predicate SameKeys(t: Tweet, u: Tweet) {
    t.createdAt == u.createdAt && t.id == u.id
  }

  /** Two tweets in the bag, or two copies of one, agree in both keys and rank high enough to be shown both. */
  ghost predicate TieWithin(bag: multiset<Tweet>, t: Tweet, u: Tweet, limit: nat) {
    && t in bag && u in bag && SameKeys(t, u) && (t == u ==> bag[t] >= 2)
    && (limit == 0 || |Ahead(NewestFirst, bag, t)| + 2 <= limit)
  }

  /** Newest first, the larger id first among equals: the order of any timeline, written out. */
  lemma NewestOnTop(s: Inner, user: string, limit: nat, r: seq<Tweet>)
    requires IsTimeline(s, user, limit, r)
    ensures limit > 0 ==> |r| <= limit
    ensures forall i, j | 0 <= i < j < |r| ::
              r[i].createdAt > r[j].createdAt || (r[i].createdAt == r[j].createdAt && r[i].id >= r[j].id)
  {
    forall i, j | 0 <= i < j < |r|
      ensures r[i].createdAt > r[j].createdAt || (r[i].createdAt == r[j].createdAt && r[i].id >= r[j].id)
    {
      assert NewestFirst(r[i], r[j]);
    }
  }

  /** F2's strict order is a fact about what is stored: a timeline has it exactly when no two visible tweets
      that agree in (created_at, id) rank within the limit. A loaded snapshot may break that. */
  lemma StrictExactlyWhenKeysDiffer(s: Inner, user: string, limit: nat, r: seq<Tweet>)
    requires IsTimeline(s, user, limit, r)
    ensures StrictlyNewestFirst(r) <==> forall t, u :: !TieWithin(Visible(s, user), t, u, limit)
  {
    var bag := Visible(s, user);
    hide Visible, TieWithin, StrictlyNewestFirst, Top;
    if !StrictlyNewestFirst(r) {
      var t, u := TieShown(bag, r);
      assert TieWithin(bag, t, u, limit) by { TieNearer(bag, t, u, |r|, limit); }
    }
    if t, u :| TieWithin(bag, t, u, limit) {
      TiesRoom(bag, t, u, limit);
      TieBreaksOrder(bag, r, t, u);
    }
  }

  lemma TieNearer(bag: multiset<Tweet>, t: Tweet, u: Tweet, k: nat, limit: nat)
    requires TieWithin(bag, t, u, k) && 0 < k && (limit == 0 || k <= limit)
    ensures TieWithin(bag, t, u, limit)
  { }

  /** There is room in the bag for both members of a tie behind all that rank ahead of them. */
  lemma TiesRoom(bag: multiset<Tweet>, t: Tweet, u: Tweet, limit: nat)
    requires TieWithin(bag, t, u, limit)
    ensures bag != multiset{} && TieWithin(bag, t, u, if limit > 0 && |bag| > limit then limit else |bag|)
  {
    var ahead := Ahead(NewestFirst, bag, t);
    forall v ensures (ahead + multiset{t, u})[v] <= bag[v] { AheadCount(NewestFirst, bag, t, v); }
    hide Ahead;
    SmallerBag(ahead + multiset{t, u}, bag);
  }

  /** Whatever ranks strictly before a listed tweet is listed, as often as it is there. */
  lemma AheadListed(bag: multiset<Tweet>, r: seq<Tweet>, x: Tweet, v: Tweet)
    requires Top(NewestFirst, bag, r) && x in r && Newer(v, x)
    ensures multiset(r)[v] == bag[v]
  {
    assert multiset(r)[v] <= bag[v];
    assert v !in bag - multiset(r);
  }

  lemma TieShown(bag: multiset<Tweet>, r: seq<Tweet>) returns (t: Tweet, u: Tweet)
    requires Top(NewestFirst, bag, r) && !StrictlyNewestFirst(r)
    ensures r != [] && TieWithin(bag, t, u, |r|)
  {
    var i, j :| 0 <= i < j < |r| && !Newer(r[i], r[j]);
    t, u := r[i], r[j];
    assert NewestFirst(t, u) && t in multiset(r) && u in multiset(r);
    if t == u { TwiceCounts(r, i, j); }
    AheadBefore(bag, r, i);
  }

  /** What ranks strictly before the i-th entry is among the first i. */
  lemma AheadBefore(bag: multiset<Tweet>, r: seq<Tweet>, i: nat)
    requires Top(NewestFirst, bag, r) && i < |r|
    ensures |Ahead(NewestFirst, bag, r[i])| <= i
  {
    assert r == r[..i] + r[i..];
    forall v ensures Ahead(NewestFirst, bag, r[i])[v] <= multiset(r[..i])[v] {
      AheadCount(NewestFirst, bag, r[i], v);
      if Newer(v, r[i]) {
        AheadListed(bag, r, r[i], v);
        NotLater(r, i, v);
      }
    }
    SmallerBag(Ahead(NewestFirst, bag, r[i]), multiset(r[..i]));
  }

  lemma NotLater(r: seq<Tweet>, i: nat, v: Tweet)
    requires SortedBy(NewestFirst, r) && i < |r| && Newer(v, r[i])
    ensures v !in multiset(r[i..])
  {
    forall k | 0 <= k < |r[i..]| ensures r[i..][k] != v { assert k > 0 ==> NewestFirst(r[i], r[i + k]); }
  }

  lemma TieBreaksOrder(bag: multiset<Tweet>, r: seq<Tweet>, t: Tweet, u: Tweet)
    requires Top(NewestFirst, bag, r) && r != [] && TieWithin(bag, t, u, |r|)
    ensures !StrictlyNewestFirst(r)
  {
    var n := |Ahead(NewestFirst, bag, t)|;
    NotAhead(bag, r, t, n);
    if StrictlyNewestFirst(r) {
      assert Newer(r[n], r[n + 1]) && Newer(t, r[n + 1]) && Newer(u, r[n + 1]);
      AheadListed(bag, r, r[n + 1], t);
      AheadListed(bag, r, r[n + 1], u);
      StrictMeansOnce(r, t);
      BothListed(r, t, u);
    }
  }

  lemma BothListed(r: seq<Tweet>, t: Tweet, u: Tweet)
    requires StrictlyNewestFirst(r) && t in multiset(r) && u in multiset(r) && SameKeys(t, u)
    ensures t == u
  {
    var i :| 0 <= i < |r| && r[i] == t;
    var j :| 0 <= j < |r| && r[j] == u;
  }

  /** The entry with as many before it as rank strictly before `t` does not itself rank strictly before `t`. */
  lemma NotAhead(bag: multiset<Tweet>, r: seq<Tweet>, t: Tweet, n: nat)
    requires Top(NewestFirst, bag, r) && n == |Ahead(NewestFirst, bag, t)| < |r|
    ensures !Newer(r[n], t)
  {
    if Newer(r[n], t) {
      hide Top, Ahead;
      forall v ensures multiset(r[..n + 1])[v] <= Ahead(NewestFirst, bag, t)[v] { FirstWithinAhead(bag, r, t, n, v); }
      SmallerBag(multiset(r[..n + 1]), Ahead(NewestFirst, bag, t));
    }
  }

  lemma FirstWithinAhead(bag: multiset<Tweet>, r: seq<Tweet>, t: Tweet, n: nat, v: Tweet)
    requires Top(NewestFirst, bag, r) && n < |r| && Newer(r[n], t)
    ensures multiset(r[..n + 1])[v] <= Ahead(NewestFirst, bag, t)[v]
  {
    hide SortedBy;
    PrefixBag(r, n + 1);
    AheadCount(NewestFirst, bag, t, v);
    if v in multiset(r[..n + 1]) { FirstOnesAhead(r, t, n, v); }
  }

  lemma FirstOnesAhead(r: seq<Tweet>, t: Tweet, n: nat, v: Tweet)
    requires SortedBy(NewestFirst, r) && n < |r| && Newer(r[n], t) && v in multiset(r[..n + 1])
    ensures Newer(v, t)
  {
    var k :| 0 <= k < n + 1 && r[..n + 1][k] == v;
    assert k < n ==> NewestFirst(r[k], r[n]);
  }

  lemma {:induction false} StrictMeansOnce(r: seq<Tweet>, t: Tweet)
    requires StrictlyNewestFirst(r)
    ensures multiset(r)[t] <= 1
  {
    if |r| > 0 {
      assert r == [r[0]] + r[1..];
      StrictMeansOnce(r[1..], t);
      assert t in r[1..] ==> Newer(r[0], t);
      assert t in multiset(r[1..]) <==> t in r[1..];
    }
  }

  // ----- snapshots -----

  ghost predicate IsSnapshot(s: Inner, x: StoreSnapshot) {
    && SortedListOf(ByUserId, multiset(s.users.Values), x.users)
    && SortedListOf(ByEnds, multiset(Edges(s)), x.follows)
    && SortedListOf(ById, AllTweets(s), x.tweets)
  }

  /** What a snapshot is, entry by entry: each registered user once, by id; each edge once, by the characters
      of its ends; each stored tweet as often as it is stored, by id. */
  lemma SnapshotMeaning(s: Inner, x: StoreSnapshot)
    requires WellKeyed(s) && IsSnapshot(s, x)
    ensures forall u :: u in x.users <==> u.handle in s.users && s.users[u.handle] == u
    ensures forall i, j | 0 <= i < j < |x.users| :: x.users[i].id <= x.users[j].id && x.users[i] != x.users[j]
    ensures forall f :: f in x.follows <==> f.from in s.follows && f.to in s.follows[f.from]
    ensures forall i, j | 0 <= i < j < |x.follows| :: EdgeBefore(x.follows[i], x.follows[j])
    ensures multiset(x.tweets) == AllTweets(s)
    ensures forall i, j | 0 <= i < j < |x.tweets| :: x.tweets[i].id <= x.tweets[j].id
  {
    UsersListed(s, x.users);
    EdgesListed(s, x.follows);
    forall i, j | 0 <= i < j < |x.tweets| ensures x.tweets[i].id <= x.tweets[j].id {
      assert ById(x.tweets[i], x.tweets[j]);
    }
  }

  ghost predicate EdgeBefore(e: Follow, f: Follow) {
    if e.from == f.from then Earlier(e.to, f.to) && e.to != f.to else Earlier(e.from, f.from)
  }

  lemma UsersListed(s: Inner, us: seq<User>)
    requires WellKeyed(s) && SortedListOf(ByUserId, multiset(s.users.Values), us)
    ensures forall u :: u in us <==> u.handle in s.users && s.users[u.handle] == u
    ensures forall i, j | 0 <= i < j < |us| :: us[i].id <= us[j].id && us[i] != us[j]
  {
    SortedSetStrict(ByUserId, s.users.Values, us);
    forall u ensures u in us <==> u.handle in s.users && s.users[u.handle] == u {
      if u in us { var h :| h in s.users && s.users[h] == u; }
    }
    forall i, j | 0 <= i < j < |us| ensures us[i].id <= us[j].id { assert ByUserId(us[i], us[j]); }
  }

  lemma EdgesListed(s: Inner, fs: seq<Follow>)
    requires SortedListOf(ByEnds, multiset(Edges(s)), fs)
    ensures forall f :: f in fs <==> f.from in s.follows && f.to in s.follows[f.from]
    ensures forall i, j | 0 <= i < j < |fs| :: EdgeBefore(fs[i], fs[j])
  {
    SortedSetStrict(ByEnds, Edges(s), fs);
    forall f ensures f in fs <==> f.from in s.follows && f.to in s.follows[f.from] {
      assert f in fs <==> f in Edges(s);
    }
    forall i, j | 0 <= i < j < |fs| ensures EdgeBefore(fs[i], fs[j]) {
      assert ByEnds(fs[i], fs[j]);
      LexExactly(fs[i].to, fs[j].to);
      LexExactly(fs[i].from, fs[j].from);
    }
  }

  ghost predicate DistinctUserIds(users: map<string, User>) {
    forall g, h | g in users && h in users && users[g].id == users[h].id :: g == h
  }

  /** The same logical state: equal users, edges and tweets, however the tables lay them out. */
  ghost predicate SameView(a: Inner, b: Inner) {
    a.users == b.users && Edges(a) == Edges(b) && AllTweets(a) == AllTweets(b)
  }

  /** `snapshot` is canonical when ids are distinct: same logical state, equal snapshots. */
  lemma SnapshotCanonical(a: Inner, b: Inner, x: StoreSnapshot, y: StoreSnapshot)
    requires SameView(a, b) && IsSnapshot(a, x) && IsSnapshot(b, y)
    requires DistinctUserIds(a.users) && DistinctIds(AllTweets(a))
    ensures x == y
  {
    ByUserIdTotal(); ByIdTotal(); ByEndsTotal();
    SortedListUnique(ByUserId, multiset(a.users.Values), x.users, y.users);
    SortedListUnique(ByEnds, multiset(Edges(a)), x.follows, y.follows);
    SortedListUnique(ById, AllTweets(a), x.tweets, y.tweets);
  }

  lemma SnapshotExists(s: Inner) returns (x: StoreSnapshot)
    ensures IsSnapshot(s, x)
  {
    ByUserIdTotal(); ByIdTotal(); ByEndsTotal();
    var us := ListingExists(ByUserId, multiset(s.users.Values));
    var fs := ListingExists(ByEnds, multiset(Edges(s)));
    var ts := ListingExists(ById, AllTweets(s));
    x := StoreSnapshot(us, fs, ts);
  }
}
