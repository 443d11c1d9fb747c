/** `replace` and the snapshot after it: what loading a snapshot keeps, drops and reorders. */
module Normalise {
  import opened Domain
  import opened Sorting
  import opened Store
  import opened Views

  /** `u` is the last entry of `us` for its handle. */
  ghost predicate LastFor(us: seq<User>, u: User) {
    exists i :: 0 <= i < |us| && us[i] == u && forall j | i < j < |us| :: us[j].handle != u.handle
  }

  lemma {:induction false} IndexUsersKeyed(us: seq<User>)
    ensures forall h | h in IndexUsers(us) :: IndexUsers(us)[h].handle == h
  {
    if us != [] { IndexUsersKeyed(us[..|us| - 1]); }
  }

  /** The users table keeps the last entry for each handle. */
  lemma {:induction false} IndexUsersLastWins(us: seq<User>, u: User)
    ensures (u.handle in IndexUsers(us) && IndexUsers(us)[u.handle] == u) <==> LastFor(us, u)
  {
    if us != [] {
      IndexUsersLastWins(us[..|us| - 1], u);
      LastForStep(us, u);
    }
  }

  lemma LastForStep(us: seq<User>, u: User)
    requires us != []
    ensures LastFor(us, u) <==> if us[|us| - 1].handle == u.handle then us[|us| - 1] == u
            else LastFor(us[..|us| - 1], u)
  {
    var n := |us| - 1;
    if us[n].handle == u.handle {
      assert us[n] == u ==> LastFor(us, u);
    } else {
      if LastFor(us[..n], u) {
        var i :| 0 <= i < n && us[..n][i] == u && forall j | i < j < n :: us[..n][j].handle != u.handle;
        assert us[i] == u && forall j | i < j < n :: us[j].handle == us[..n][j].handle;
      }
      if LastFor(us, u) {
        var i :| 0 <= i < |us| && us[i] == u && forall j | i < j < |us| :: us[j].handle != u.handle;
        assert us[..n][i] == u;
      }
    }
  }

  lemma {:induction false} IndexFollowsEdge(fs: seq<Follow>, f: Follow)
    ensures (f.from in IndexFollows(fs) && f.to in IndexFollows(fs)[f.from]) <==> f in fs
  {
    if fs != [] {
      var init := fs[..|fs| - 1];
      IndexFollowsEdge(init, f);
      assert fs == init + [fs[|fs| - 1]];
    }
  }

  lemma {:induction false} IndexTweetsCount(ts: seq<Tweet>, t: Tweet)
    ensures OwnLists(IndexTweets(ts))
    ensures multiset(ListOf(IndexTweets(ts), t.author))[t] == multiset(ts)[t]
  {
    if ts != [] {
      var last, init := ts[|ts| - 1], ts[..|ts| - 1];
      var m := IndexTweets(init);
      IndexTweetsCount(init, t);
      assert ts == init + [last];
      PushCount(init, last, t);
      PushCount(ListOf(m, last.author), last, t);
      forall a, x | a in IndexTweets(ts) && x in IndexTweets(ts)[a] ensures x.author == a {
        if a == last.author && x != last { assert x in ListOf(m, a); }
      }
    }
  }

  /** What a load stores, for any input: the last user per handle, the set of edges, every tweet. */
  lemma ReplaceView(x: StoreSnapshot)
    ensures WellKeyed(Replace(x))
    ensures forall u: User :: (u.handle in Replace(x).users && Replace(x).users[u.handle] == u) <==> LastFor(x.users, u)
    ensures Edges(Replace(x)) == set f | f in x.follows
    ensures AllTweets(Replace(x)) == multiset(x.tweets)
  {
    var s := Replace(x);
    IndexUsersKeyed(x.users);
    forall u: User ensures (u.handle in s.users && s.users[u.handle] == u) <==> LastFor(x.users, u) {
      IndexUsersLastWins(x.users, u);
    }
    forall f: Follow ensures f in Edges(s) <==> f in x.follows {
      assert f in Edges(s) <==> f.from in s.follows && f.to in s.follows[f.from];
      IndexFollowsEdge(x.follows, f);
    }
    ReplaceLists(x);
    forall t: Tweet ensures AllTweets(s)[t] == multiset(x.tweets)[t] { AllTweetsCount(s, t); }
  }

  /** And no entry is made for anyone who follows nobody or wrote nothing. */
  lemma ReplaceKeys(x: StoreSnapshot)
    ensures Replace(x).follows.Keys == set f | f in x.follows :: f.from
    ensures Replace(x).byAuthor.Keys == set t | t in x.tweets :: t.author
  {
    FollowKeys(x.follows);
    TweetKeys(x.tweets);
  }

  lemma {:induction false} FollowKeys(fs: seq<Follow>)
    ensures IndexFollows(fs).Keys == set f | f in fs :: f.from
  {
    if fs != [] {
      var n := |fs| - 1;
      FollowKeys(fs[..n]);
      assert fs == fs[..n] + [fs[n]];
    }
  }

  lemma {:induction false} TweetKeys(ts: seq<Tweet>)
    ensures IndexTweets(ts).Keys == set t | t in ts :: t.author
  {
    if ts != [] {
      var n := |ts| - 1;
      TweetKeys(ts[..n]);
      assert ts == ts[..n] + [ts[n]];
    }
  }

  lemma ReplaceKeyed(x: StoreSnapshot)
    ensures WellKeyed(Replace(x))
  {
    ReplaceView(x);
  }

  lemma ReplaceLists(x: StoreSnapshot)
    ensures OwnLists(Replace(x).byAuthor)
    ensures forall t: Tweet :: multiset(ListOf(Replace(x).byAuthor, t.author))[t] == multiset(x.tweets)[t]
  {
    var lists := IndexTweets(x.tweets);
    var s := Replace(x);
    ByIdTotal();
    assert forall a | a in lists ::
        s.byAuthor[a] == SortBy(ById, lists[a]) && multiset(s.byAuthor[a]) == multiset(lists[a]);
    forall t: Tweet ensures multiset(ListOf(s.byAuthor, t.author))[t] == multiset(x.tweets)[t] {
      IndexTweetsCount(x.tweets, t);
    }
    forall a, t | a in s.byAuthor && t in s.byAuthor[a] ensures t.author == a {
      IndexTweetsCount(x.tweets, t);
      assert t in multiset(s.byAuthor[a]) && t in multiset(lists[a]);
    }
  }

  lemma {:induction false} IndexTweetsInOrder(ts: seq<Tweet>, a: string)
    ensures ListOf(IndexTweets(ts), a) == ByAuthor(ts, a)
  {
    if ts != [] { IndexTweetsInOrder(ts[..|ts| - 1], a); }
  }

  /** A loaded author's list is that author's entries, sorted by id, entries with one id in the order given. */
  lemma LoadedListOrder(x: StoreSnapshot, a: string, t: Tweet)
    ensures SortedListOf(ById, multiset(ByAuthor(x.tweets, a)), ListOf(Replace(x).byAuthor, a))
    ensures TiedWith(ById, t, ListOf(Replace(x).byAuthor, a)) == TiedWith(ById, t, ByAuthor(x.tweets, a))
    ensures var list := ListOf(Replace(x).byAuthor, a); forall i, j | 0 <= i < j < |list| :: list[i].id <= list[j].id
  {
    var list := ListOf(Replace(x).byAuthor, a);
    ByIdTotal();
    IndexTweetsInOrder(x.tweets, a);
    SortByStable(ById, ByAuthor(x.tweets, a), t);
    forall i, j | 0 <= i < j < |list| ensures list[i].id <= list[j].id { assert ById(list[i], list[j]); }
  }

  // ----- restoring what a snapshot captured -----

  /** Loading a snapshot of a store gives the same users, edges and tweets back, whatever was there. */
  lemma RestoreSameView(s: Inner, x: StoreSnapshot)
    requires WellKeyed(s) && IsSnapshot(s, x)
    ensures WellKeyed(Replace(x)) && SameView(s, Replace(x))
  {
    forall f: Follow ensures f in x.follows <==> f in Edges(s) { assert f in x.follows <==> f in multiset(x.follows); }
    LoadListing(s, x);
  }

  /** Only what is listed matters for that, not the order it is listed in. */
  lemma LoadListing(s: Inner, x: StoreSnapshot)
    requires WellKeyed(s) && multiset(x.users) == multiset(s.users.Values)
    requires (forall f :: f in x.follows <==> f in Edges(s)) && multiset(x.tweets) == AllTweets(s)
    ensures WellKeyed(Replace(x)) && SameView(s, Replace(x))
  {
    ReplaceView(x);
    RestoreUsers(s, x);
  }

  lemma RestoreUsers(s: Inner, x: StoreSnapshot)
    requires WellKeyed(s) && multiset(x.users) == multiset(s.users.Values)
    ensures Replace(x).users == s.users
  {
    var users := IndexUsers(x.users);
    IndexUsersKeyed(x.users);
    forall h | h in users ensures h in s.users && s.users[h] == users[h] {
      var u := users[h];
      IndexUsersLastWins(x.users, u);
      assert u in x.users && u in multiset(x.users) && u in s.users.Values;
    }
    forall h | h in s.users ensures h in users {
      OnlyEntry(s, x.users, s.users[h]);
      IndexUsersLastWins(x.users, s.users[h]);
    }
  }

  lemma OnlyEntry(s: Inner, us: seq<User>, u: User)
    requires WellKeyed(s) && multiset(us) == multiset(s.users.Values)
    requires u.handle in s.users && s.users[u.handle] == u
    ensures LastFor(us, u)
  {
    assert u in s.users.Values && u in multiset(us);
    var i :| 0 <= i < |us| && us[i] == u;
    forall j | i < j < |us| ensures us[j].handle != u.handle {
      assert us[j] in multiset(us) && us[j] in s.users.Values;
      if us[j].handle == u.handle {
        assert us[j] == u;
        TwiceCounts(us, i, j);
      }
    }
  }

  // ----- the normaliser -----

  ghost predicate DistinctEntries(x: StoreSnapshot) {
    && (forall i, j | 0 <= i < j < |x.users| :: x.users[i].id != x.users[j].id)
    && (forall i, j | 0 <= i < j < |x.tweets| :: x.tweets[i].id != x.tweets[j].id)
  }

  ghost predicate Canonical(x: StoreSnapshot) {
    && StrictlySortedBy(ByUserId, x.users) && StrictlySortedBy(ByEnds, x.follows) && StrictlySortedBy(ById, x.tweets)
    && (forall i, j | 0 <= i < j < |x.users| :: x.users[i].handle != x.users[j].handle)
  }

  /** `y` is `x` with the last user per handle, each edge once, and everything in canonical order. */
  ghost predicate NormalFormOf(x: StoreSnapshot, y: StoreSnapshot) {
    && Canonical(y)
    && (forall u :: u in y.users <==> LastFor(x.users, u))
    && (forall f :: f in y.follows <==> f in x.follows)
    && (forall t :: t in y.tweets <==> t in x.tweets)
  }

  lemma DistinctTweetsBag(ts: seq<Tweet>)
    requires forall i, j | 0 <= i < j < |ts| :: ts[i].id != ts[j].id
    ensures NoTies(ById, multiset(ts))
    ensures forall r | SortedListOf(ById, multiset(ts), r) :: StrictlySortedBy(ById, r)
  {
    forall t, u | t in multiset(ts) && u in multiset(ts) && t.id == u.id ensures t == u {
      var i :| 0 <= i < |ts| && ts[i] == t;
      var j :| 0 <= j < |ts| && ts[j] == u;
      assert !(i < j) && !(j < i);
    }
    forall r: seq<Tweet> | SortedListOf(ById, multiset(ts), r) ensures StrictlySortedBy(ById, r) {
      forall i, j | 0 <= i < j < |r| ensures r[i].id < r[j].id {
        assert r[i] in multiset(r) && r[j] in multiset(r) && ById(r[i], r[j]);
        if r[i] == r[j] { TwiceCounts(r, i, j); AtMostOnce(ts, r[i]); }
      }
    }
  }

  lemma {:induction false} AtMostOnce(ts: seq<Tweet>, t: Tweet)
    requires forall i, j | 0 <= i < j < |ts| :: ts[i].id != ts[j].id
    ensures multiset(ts)[t] <= 1
  {
    if |ts| > 0 {
      assert ts == [ts[0]] + ts[1..];
      AtMostOnce(ts[1..], t);
      assert t in multiset(ts[1..]) <==> t in ts[1..];
    }
  }

  /** `snapshot` after `replace` gives the normal form of its input, when user ids and tweet ids differ. */
  lemma SnapshotAfterReplaceNormalises(x: StoreSnapshot, y: StoreSnapshot)
    requires DistinctEntries(x) && IsSnapshot(Replace(x), y)
    ensures NormalFormOf(x, y)
  {
    ReplaceView(x);
    hide LastFor, Replace, WellKeyed;
    NormalUsers(x, Replace(x), y.users);
    ByEndsTotal();
    SortedSetStrict(ByEnds, Edges(Replace(x)), y.follows);
    NormalTweets(x.tweets, y.tweets);
  }

  lemma NormalTweets(ts: seq<Tweet>, r: seq<Tweet>)
    requires (forall i, j | 0 <= i < j < |ts| :: ts[i].id != ts[j].id) && SortedListOf(ById, multiset(ts), r)
    ensures StrictlySortedBy(ById, r) && forall t :: t in r <==> t in ts
  {
    DistinctTweetsBag(ts);
    forall t ensures t in r <==> t in ts { assert t in multiset(r) <==> t in multiset(ts); }
  }

  lemma NormalUsers(x: StoreSnapshot, s: Inner, us: seq<User>)
    requires DistinctEntries(x) && WellKeyed(s) && SortedListOf(ByUserId, multiset(s.users.Values), us)
    requires forall u: User :: (u.handle in s.users && s.users[u.handle] == u) <==> LastFor(x.users, u)
    ensures StrictlySortedBy(ByUserId, us) && forall u :: u in us <==> LastFor(x.users, u)
    ensures forall i, j | 0 <= i < j < |us| :: us[i].handle != us[j].handle
  {
    SortedSetStrict(ByUserId, s.users.Values, us);
    forall u: User ensures u in s.users.Values <==> LastFor(x.users, u) {
      if u in s.users.Values { var h :| h in s.users && s.users[h] == u; }
    }
    forall i, j | 0 <= i < j < |us| ensures us[i].id < us[j].id && us[i].handle != us[j].handle {
      assert LastFor(x.users, us[i]) && LastFor(x.users, us[j]) && us[i] != us[j];
      EntriesDiffer(x, us[i], us[j]);
    }
  }

  lemma EntriesDiffer(x: StoreSnapshot, u: User, v: User)
    requires DistinctEntries(x) && LastFor(x.users, u) && LastFor(x.users, v) && u != v
    ensures u.id != v.id && u.handle != v.handle
  {
    var k :| 0 <= k < |x.users| && x.users[k] == u && forall j | k < j < |x.users| :: x.users[j].handle != u.handle;
    var l :| 0 <= l < |x.users| && x.users[l] == v && forall j | l < j < |x.users| :: x.users[j].handle != v.handle;
    assert k < l || l < k;
  }

  /** So it is the identity on exactly the canonical snapshots... */
  lemma NormaliseIdentityIff(x: StoreSnapshot, y: StoreSnapshot)
    requires DistinctEntries(x) && IsSnapshot(Replace(x), y)
    ensures y == x <==> Canonical(x)
  {
    SnapshotAfterReplaceNormalises(x, y);
    if Canonical(x) {
      forall u ensures LastFor(x.users, u) <==> u in x.users {
        if u in x.users { var i :| 0 <= i < |x.users| && x.users[i] == u; }
      }
      ByUserIdTotal(); ByIdTotal(); ByEndsTotal();
      StrictAgree(ByUserId, x.users, y.users);
      StrictAgree(ByEnds, x.follows, y.follows);
      StrictAgree(ById, x.tweets, y.tweets);
    }
  }

  /** ... and normalising twice changes nothing more. */
  lemma NormaliseIdempotent(x: StoreSnapshot, y: StoreSnapshot, z: StoreSnapshot)
    requires DistinctEntries(x) && IsSnapshot(Replace(x), y) && IsSnapshot(Replace(y), z)
    ensures z == y
  {
    SnapshotAfterReplaceNormalises(x, y);
    assert DistinctEntries(y);
    NormaliseIdentityIff(y, z);
  }
}
