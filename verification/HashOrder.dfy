/** The store's results themselves: what hash iteration orders may come in, and what sorting leaves of them. */
module HashOrder {
  import opened Domain
  import opened Sorting
  import opened Store
  import opened Views
  import opened Normalise

  /** An iteration order of a hash table or set: each key once. */
  ghost predicate Orders<T>(order: seq<T>, keys: set<T>) {
    multiset(order) == multiset(keys)
  }

  /** An iteration under way: the keys that came so far, and those still to come. */
  ghost predicate SoFar<T>(order: seq<T>, rest: set<T>, keys: set<T>) {
    multiset(order) + multiset(rest) == multiset(keys)
  }

  /** Whole lists one after another, in the order their keys come. */
  function Concat(lists: map<string, seq<Tweet>>, order: seq<string>): seq<Tweet> {
    if order == [] then [] else Concat(lists, order[..|order| - 1]) + ListOf(lists, order[|order| - 1])
  }

  /** What `home_timeline` returns for some iteration order of the authors. */
  ghost predicate MayShow(s: Inner, user: string, limit: nat, r: seq<Tweet>) {
    NewestFirstTotal();
    exists order :: && Orders(order, {user} + FollowSet(s, user))
                    && r == Cut(SortBy(NewestFirst, Concat(s.byAuthor, order)), limit)
  }

  /** What `snapshot` returns for some iteration orders of its three tables. (Edges never tie.) */
  ghost predicate MayCapture(s: Inner, x: StoreSnapshot) {
    ByUserIdTotal(); ByIdTotal();
    && (exists us :: Orders(us, s.users.Values) && x.users == SortBy(ByUserId, us))
    && SortedListOf(ByEnds, multiset(Edges(s)), x.follows)
    && (exists order :: Orders(order, s.byAuthor.Keys) && x.tweets == SortBy(ById, Concat(s.byAuthor, order)))
  }

  // ----- these are timelines and snapshots, and with distinct ids all of them -----

  lemma {:induction false} ConcatGathers(lists: map<string, seq<Tweet>>, order: seq<string>, keys: set<string>)
    requires Orders(order, keys)
    ensures multiset(Concat(lists, order)) == Gather(lists, keys)
  {
    if order == [] { assert forall k :: k in keys <==> k in multiset(keys); } else {
      var n := |order| - 1;
      LastKey(order, keys);
      ConcatGathers(lists, order[..n], keys - {order[n]});
      GatherRemove(lists, keys, order[n]);
    }
  }

  lemma LastKey<T>(order: seq<T>, keys: set<T>)
    requires Orders(order, keys) && order != []
    ensures var n := |order| - 1; order[n] in keys && Orders(order[..n], keys - {order[n]})
  {
    var n := |order| - 1;
    assert order == order[..n] + [order[n]];
    assert order[n] in multiset(order) && order[n] in multiset(keys);
    assert multiset(order[..n]) == multiset(keys) - multiset{order[n]};
    assert multiset(keys - {order[n]}) == multiset(keys) - multiset{order[n]};
  }

  lemma MayShowTimeline(s: Inner, user: string, limit: nat, r: seq<Tweet>)
    requires MayShow(s, user, limit, r)
    ensures IsTimeline(s, user, limit, r)
  {
    NewestFirstTotal();
    hide TotalPreorder;
    var order :| && Orders(order, {user} + FollowSet(s, user))
                 && r == Cut(SortBy(NewestFirst, Concat(s.byAuthor, order)), limit);
    ConcatGathers(s.byAuthor, order, {user} + FollowSet(s, user));
    CutIsTop(SortBy(NewestFirst, Concat(s.byAuthor, order)), limit);
    hide Orders, SortBy, Concat, Gather, Top;
  }

  lemma CutMayShow(s: Inner, user: string, limit: nat, order: seq<string>)
    requires TotalPreorder(NewestFirst) && Orders(order, {user} + FollowSet(s, user))
    ensures var r := Cut(SortBy(NewestFirst, Concat(s.byAuthor, order)), limit);
            MayShow(s, user, limit, r) && IsTimeline(s, user, limit, r)
  {
    MayShowTimeline(s, user, limit, Cut(SortBy(NewestFirst, Concat(s.byAuthor, order)), limit));
  }

  lemma MayCaptureSnapshot(s: Inner, x: StoreSnapshot)
    requires MayCapture(s, x)
    ensures IsSnapshot(s, x)
  {
    ByIdTotal();
    var order :| Orders(order, s.byAuthor.Keys) && x.tweets == SortBy(ById, Concat(s.byAuthor, order));
    ConcatGathers(s.byAuthor, order, s.byAuthor.Keys);
  }

  lemma NoneYet(lists: map<string, seq<Tweet>>, keys: set<string>)
    ensures SoFar([], keys, keys) && Concat(lists, []) == []
  { }

  lemma OneMoreList(lists: map<string, seq<Tweet>>, order: seq<string>, a: string)
    ensures Concat(lists, order + [a]) == if a in lists then Concat(lists, order) + lists[a] else Concat(lists, order)
  {
    assert (order + [a])[..|order|] == order;
  }

  lemma OneMoreKey<T>(order: seq<T>, rest: set<T>, keys: set<T>, k: T)
    requires SoFar(order, rest, keys) && k in rest
    ensures SoFar(order + [k], rest - {k}, keys)
  {
    assert multiset(rest) == multiset(rest - {k}) + multiset{k};
  }

  lemma AllCame<T>(order: seq<T>, keys: set<T>)
    requires SoFar(order, {}, keys)
    ensures Orders(order, keys)
  { }

  lemma SomeOrder<T>(keys: set<T>) returns (order: seq<T>)
    ensures Orders(order, keys)
  {
    var rest := keys;
    order := [];
    while rest != {}
      invariant SoFar(order, rest, keys)
    {
      var k :| k in rest;
      OneMoreKey(order, rest, keys, k);
      rest, order := rest - {k}, order + [k];
    }
  }

  lemma TimelineShown(s: Inner, user: string, limit: nat, r: seq<Tweet>)
    requires IsTimeline(s, user, limit, r) && NoTies(NewestFirst, Visible(s, user))
    ensures MayShow(s, user, limit, r)
  {
    NewestFirstTotal();
    var order := SomeOrder({user} + FollowSet(s, user));
    var q := Cut(SortBy(NewestFirst, Concat(s.byAuthor, order)), limit);
    assert MayShow(s, user, limit, q);
    MayShowTimeline(s, user, limit, q);
    TopUnique(NewestFirst, Visible(s, user), r, q);
  }

  lemma SnapshotCaptured(s: Inner, x: StoreSnapshot)
    requires IsSnapshot(s, x) && NoTies(ById, AllTweets(s))
    ensures MayCapture(s, x)
  {
    ByUserIdTotal(); ByIdTotal();
    SortedFixed(ByUserId, x.users);
    var order := SomeOrder(s.byAuthor.Keys);
    ConcatGathers(s.byAuthor, order, s.byAuthor.Keys);
    SortedListUnique(ById, AllTweets(s), x.tweets, SortBy(ById, Concat(s.byAuthor, order)));
  }

  /** With distinct tweet ids the relations say exactly what the code returns. */
  lemma ReadsExact(s: Inner, user: string, limit: nat, r: seq<Tweet>, x: StoreSnapshot)
    requires OwnLists(s.byAuthor) && DistinctIds(AllTweets(s))
    ensures IsTimeline(s, user, limit, r) <==> MayShow(s, user, limit, r)
    ensures IsSnapshot(s, x) <==> MayCapture(s, x)
  {
    VisibleWithin(s, user);
    if IsTimeline(s, user, limit, r) { TimelineShown(s, user, limit, r); }
    if MayShow(s, user, limit, r) { MayShowTimeline(s, user, limit, r); }
    if IsSnapshot(s, x) { SnapshotCaptured(s, x); }
    if MayCapture(s, x) { MayCaptureSnapshot(s, x); }
  }

  // ----- when the iteration order shows -----

  /** Members that tie under `le`, and rank within the limit, stand in one author's list. */
  ghost predicate TiesWithinLists(le: (Tweet, Tweet) -> bool, bag: multiset<Tweet>, limit: nat) {
    forall t, u | t in bag && u in bag && le(t, u) && le(u, t) && (limit == 0 || |Ahead(le, bag, t)| < limit) ::
        t.author == u.author
  }

  lemma {:induction false} TiedInOneList(le: (Tweet, Tweet) -> bool, lists: map<string, seq<Tweet>>,
                                         order: seq<string>, keys: set<string>, x: Tweet, w: string)
    requires Orders(order, keys) && forall a | a in keys && a != w :: TiedWith(le, x, ListOf(lists, a)) == []
    ensures TiedWith(le, x, Concat(lists, order)) == if w in keys then TiedWith(le, x, ListOf(lists, w)) else []
  {
    if order == [] { assert forall k :: k in keys <==> k in multiset(keys); } else {
      var n := |order| - 1;
      LastKey(order, keys);
      TiedInOneList(le, lists, order[..n], keys - {order[n]}, x, w);
      TiedConcat(le, x, Concat(lists, order[..n]), ListOf(lists, order[n]));
    }
  }

  lemma {:induction false} ConcatStartsWith(le: (Tweet, Tweet) -> bool, lists: map<string, seq<Tweet>>,
                                            order: seq<string>, x: Tweet)
    requires order != [] && TiedWith(le, x, ListOf(lists, order[0])) != []
    ensures var tied := TiedWith(le, x, Concat(lists, order));
            tied != [] && tied[0] == TiedWith(le, x, ListOf(lists, order[0]))[0]
  {
    var n := |order| - 1;
    TiedConcat(le, x, Concat(lists, order[..n]), ListOf(lists, order[n]));
    if n == 0 { assert Concat(lists, order[..n]) == []; } else { ConcatStartsWith(le, lists, order[..n], x); }
  }

  /** Sorting the concatenation of whole lists, and cutting it, gives one result for every order of the lists
      exactly when only members of one list tie within the limit. */
  ghost predicate OneResult(le: (Tweet, Tweet) -> bool, lists: map<string, seq<Tweet>>, keys: set<string>, limit: nat)
    requires TotalPreorder(le)
  {
    forall p, q | Orders(p, keys) && Orders(q, keys) ::
      Cut(SortBy(le, Concat(lists, p)), limit) == Cut(SortBy(le, Concat(lists, q)), limit)
  }

  lemma OneResultExactlyWhen(le: (Tweet, Tweet) -> bool, lists: map<string, seq<Tweet>>, keys: set<string>, limit: nat)
    requires TotalPreorder(le) && OwnLists(lists)
    ensures OneResult(le, lists, keys, limit) <==> TiesWithinLists(le, Gather(lists, keys), limit)
  {
    hide TotalPreorder, Cut, Ahead;
    var bag := Gather(lists, keys);
    if TiesWithinLists(le, bag, limit) {
      forall p, q | Orders(p, keys) && Orders(q, keys)
        ensures Cut(SortBy(le, Concat(lists, p)), limit) == Cut(SortBy(le, Concat(lists, q)), limit)
      {
        SameResult(le, lists, keys, limit, p, q);
      }
    } else {
      var t, u :| && t in bag && u in bag && le(t, u) && le(u, t)
                  && (limit == 0 || |Ahead(le, bag, t)| < limit) && t.author != u.author;
      var p, q := TwoResults(le, lists, keys, limit, t, u);
    }
  }

  lemma SameResult(le: (Tweet, Tweet) -> bool, lists: map<string, seq<Tweet>>, keys: set<string>, limit: nat,
                   p: seq<string>, q: seq<string>)
    requires TotalPreorder(le) && OwnLists(lists) && TiesWithinLists(le, Gather(lists, keys), limit)
    requires Orders(p, keys) && Orders(q, keys)
    ensures Cut(SortBy(le, Concat(lists, p)), limit) == Cut(SortBy(le, Concat(lists, q)), limit)
  {
    var a, b := SortBy(le, Concat(lists, p)), SortBy(le, Concat(lists, q));
    hide TotalPreorder, SortedBy, SortBy, Ahead, TiedWith, TiesWithinLists, Gather, Concat, TiesAgree, Cut, OwnLists;
    ConcatGathers(lists, p, keys);
    ConcatGathers(lists, q, keys);
    SameTies(le, lists, keys, limit, p, q);
    CutIsPrefix(a, limit);
    PrefixByTies(le, a, b, |Cut(a, limit)|);
    CutByPrefix(a, b, limit);
  }

  lemma CutIsPrefix(a: seq<Tweet>, limit: nat)
    ensures |Cut(a, limit)| <= |a|
  { }

  lemma CutByPrefix(a: seq<Tweet>, b: seq<Tweet>, limit: nat)
    requires multiset(a) == multiset(b) && |Cut(a, limit)| <= |a| && |Cut(a, limit)| <= |b|
    requires a[..|Cut(a, limit)|] == b[..|Cut(a, limit)|]
    ensures Cut(a, limit) == Cut(b, limit)
  {
    assert |a| == |multiset(a)| == |multiset(b)| == |b| && a[..|a|] == a && b[..|b|] == b;
  }

  lemma SameTies(le: (Tweet, Tweet) -> bool, lists: map<string, seq<Tweet>>, keys: set<string>, limit: nat,
                 p: seq<string>, q: seq<string>)
    requires TotalPreorder(le) && OwnLists(lists) && TiesWithinLists(le, Gather(lists, keys), limit)
    requires Orders(p, keys) && Orders(q, keys)
    ensures var a, b := SortBy(le, Concat(lists, p)), SortBy(le, Concat(lists, q)); TiesAgree(le, a, b, |Cut(a, limit)|)
  {
    var a, b := SortBy(le, Concat(lists, p)), SortBy(le, Concat(lists, q));
    hide TotalPreorder, SortedBy, SortBy, Ahead, TiedWith, TiesWithinLists, Concat, Gather;
    ConcatGathers(lists, p, keys);
    forall x | x in multiset(a) && |Ahead(le, multiset(a), x)| < |Cut(a, limit)|
      ensures TiedWith(le, x, a) == TiedWith(le, x, b)
    {
      TiesFromOneList(le, lists, keys, limit, x, p);
      TiesFromOneList(le, lists, keys, limit, x, q);
    }
  }

  /** What ties with a member within the limit comes from its author's list, in the order it has there. */
  lemma TiesFromOneList(le: (Tweet, Tweet) -> bool, lists: map<string, seq<Tweet>>, keys: set<string>, limit: nat,
                        x: Tweet, p: seq<string>)
    requires TotalPreorder(le) && OwnLists(lists) && TiesWithinLists(le, Gather(lists, keys), limit) && Orders(p, keys)
    requires x in Gather(lists, keys) && (limit == 0 || |Ahead(le, Gather(lists, keys), x)| < limit)
    ensures TiedWith(le, x, SortBy(le, Concat(lists, p))) ==
            if x.author in keys then TiedWith(le, x, ListOf(lists, x.author)) else []
  {
    forall a | a in keys && a != x.author ensures TiedWith(le, x, ListOf(lists, a)) == [] {
      if TiedWith(le, x, ListOf(lists, a)) != [] { var u := TiedStored(le, lists, keys, x, a); }
    }
    hide TotalPreorder, TiesWithinLists;
    SortByStable(le, Concat(lists, p), x);
    TiedInOneList(le, lists, p, keys, x, x.author);
  }

  lemma TiedStored(le: (Tweet, Tweet) -> bool, lists: map<string, seq<Tweet>>, keys: set<string>, x: Tweet, a: string)
    returns (t: Tweet)
    requires OwnLists(lists) && a in keys && TiedWith(le, x, ListOf(lists, a)) != []
    ensures t == TiedWith(le, x, ListOf(lists, a))[0] && t.author == a && t in Gather(lists, keys)
    ensures le(x, t) && le(t, x)
  {
    t := TiedWith(le, x, ListOf(lists, a))[0];
    TiedMembers(le, x, ListOf(lists, a));
    assert t in TiedWith(le, x, ListOf(lists, a));
    GatherCount(lists, keys, t);
    assert t in multiset(ListOf(lists, a));
  }

  lemma OrderFrom<T>(keys: set<T>, first: T) returns (order: seq<T>)
    requires first in keys
    ensures Orders(order, keys) && order != [] && order[0] == first
  {
    var rest := SomeOrder(keys - {first});
    order := [first] + rest;
    assert multiset(keys) == multiset(keys - {first}) + multiset{first};
  }

  lemma TwoResults(le: (Tweet, Tweet) -> bool, lists: map<string, seq<Tweet>>, keys: set<string>, limit: nat,
                   t: Tweet, u: Tweet)
    returns (p: seq<string>, q: seq<string>)
    requires TotalPreorder(le) && OwnLists(lists) && t in Gather(lists, keys) && u in Gather(lists, keys)
    requires le(t, u) && le(u, t) && t.author != u.author
    requires limit == 0 || |Ahead(le, Gather(lists, keys), t)| < limit
    ensures Orders(p, keys) && Orders(q, keys)
    ensures Cut(SortBy(le, Concat(lists, p)), limit) != Cut(SortBy(le, Concat(lists, q)), limit)
  {
    assert le(t, t);
    hide TotalPreorder, SortedBy, TiedWith, Ahead;
    p := StartsWithTied(le, lists, keys, t, t);
    q := StartsWithTied(le, lists, keys, t, u);
    var a, b := SortBy(le, Concat(lists, p)), SortBy(le, Concat(lists, q));
    ConcatGathers(lists, p, keys);
    ConcatGathers(lists, q, keys);
    FirstTiedAt(le, a, t);
    FirstTiedAt(le, b, t);
    var n := |Ahead(le, Gather(lists, keys), t)|;
    assert a[n].author != b[n].author;
    CutAt(a, limit, n);
    CutAt(b, limit, n);
  }

  lemma CutAt(s: seq<Tweet>, limit: nat, n: nat)
    requires n < |s| && (limit == 0 || n < limit)
    ensures n < |Cut(s, limit)| && Cut(s, limit)[n] == s[n]
  { }

  /** An order that puts the list of `u` first puts one of its entries before all that tie with it. */
  lemma StartsWithTied(le: (Tweet, Tweet) -> bool, lists: map<string, seq<Tweet>>, keys: set<string>,
                       t: Tweet, u: Tweet)
    returns (p: seq<string>)
    requires TotalPreorder(le) && OwnLists(lists) && u in Gather(lists, keys) && le(t, u) && le(u, t)
    ensures Orders(p, keys)
    ensures var tied := TiedWith(le, t, SortBy(le, Concat(lists, p))); tied != [] && tied[0].author == u.author
    ensures TiedWith(le, t, ListOf(lists, u.author)) != []
    ensures TiedWith(le, t, SortBy(le, Concat(lists, p)))[0] == TiedWith(le, t, ListOf(lists, u.author))[0]
  {
    hide TotalPreorder, SortedBy;
    GatherCount(lists, keys, u);
    assert u in multiset(ListOf(lists, u.author)) && u in ListOf(lists, u.author);
    TiedMembers(le, t, ListOf(lists, u.author));
    p := OrderFrom(keys, u.author);
    var first := TiedStored(le, lists, keys, t, u.author);
    ConcatStartsWith(le, lists, p, t);
    SortByStable(le, Concat(lists, p), t);
  }

  // ----- repeated reads of one store -----

  /** Reading a timeline twice from unchanged tables gives the same list, whatever the hash order, exactly
      when tweets that tie in both keys and rank within the limit share an author. */
  lemma TimelineRepeatableExactlyWhen(s: Inner, user: string, limit: nat)
    requires OwnLists(s.byAuthor)
    ensures (forall p, q | MayShow(s, user, limit, p) && MayShow(s, user, limit, q) :: p == q) <==>
            TiesWithinLists(NewestFirst, Visible(s, user), limit)
  {
    NewestFirstTotal();
    hide MayShow, Gather, Ahead, TotalPreorder, TiesWithinLists;
    OneResultExactlyWhen(NewestFirst, s.byAuthor, {user} + FollowSet(s, user), limit);
    OneResultShown(s, user, limit);
  }

  lemma OneResultShown(s: Inner, user: string, limit: nat)
    requires TotalPreorder(NewestFirst)
    ensures OneResult(NewestFirst, s.byAuthor, {user} + FollowSet(s, user), limit) <==>
            forall p, q | MayShow(s, user, limit, p) && MayShow(s, user, limit, q) :: p == q
  {
    hide TotalPreorder, SortBy, Concat, Cut, Orders;
    var keys := {user} + FollowSet(s, user);
    if !OneResult(NewestFirst, s.byAuthor, keys, limit) {
      var p, q :| && Orders(p, keys) && Orders(q, keys)
                  && Cut(SortBy(NewestFirst, Concat(s.byAuthor, p)), limit) !=
                     Cut(SortBy(NewestFirst, Concat(s.byAuthor, q)), limit);
      assert MayShow(s, user, limit, Cut(SortBy(NewestFirst, Concat(s.byAuthor, p)), limit));
      assert MayShow(s, user, limit, Cut(SortBy(NewestFirst, Concat(s.byAuthor, q)), limit));
    }
  }

  /** Two snapshots of unchanged tables are equal, whatever the hash order, exactly when no two users share
      an id and no two tweets of different authors do. */
  lemma SnapshotRepeatableExactlyWhen(s: Inner)
    requires WellKeyed(s)
    ensures (forall x, y | MayCapture(s, x) && MayCapture(s, y) :: x == y) <==>
            DistinctUserIds(s.users) && TiesWithinLists(ById, AllTweets(s), 0)
  {
    ByIdTotal();
    OneResultExactlyWhen(ById, s.byAuthor, s.byAuthor.Keys, 0);
    if DistinctUserIds(s.users) && TiesWithinLists(ById, AllTweets(s), 0) {
      forall x, y | MayCapture(s, x) && MayCapture(s, y) ensures x == y { SameUsersAndEdges(s, s, x, y); }
    } else {
      var x, y := TwoCaptures(s);
    }
  }

  lemma SameUsersAndEdges(a: Inner, b: Inner, x: StoreSnapshot, y: StoreSnapshot)
    requires a.users == b.users && Edges(a) == Edges(b) && DistinctUserIds(a.users)
    requires MayCapture(a, x) && MayCapture(b, y)
    ensures x.users == y.users && x.follows == y.follows
  {
    ByUserIdTotal(); ByEndsTotal();
    SortedListUnique(ByUserId, multiset(a.users.Values), x.users, y.users);
    SortedListUnique(ByEnds, multiset(Edges(a)), x.follows, y.follows);
  }

  lemma TwoCaptures(s: Inner) returns (x: StoreSnapshot, y: StoreSnapshot)
    requires WellKeyed(s) && !(DistinctUserIds(s.users) && OneResult(ById, s.byAuthor, s.byAuthor.Keys, 0))
    ensures MayCapture(s, x) && MayCapture(s, y) && x != y
  {
    ByUserIdTotal(); ByIdTotal(); ByEndsTotal();
    x := SomeCapture(s);
    if !DistinctUserIds(s.users) {
      var g, h :| g in s.users && h in s.users && s.users[g].id == s.users[h].id && g != h;
      var swapped := SwapTied(ByUserId, multiset(s.users.Values), x.users, s.users[g], s.users[h]);
      SortedFixed(ByUserId, swapped);
      y := x.(users := swapped);
    } else {
      var p, q :| && Orders(p, s.byAuthor.Keys) && Orders(q, s.byAuthor.Keys)
                  && SortBy(ById, Concat(s.byAuthor, p)) != SortBy(ById, Concat(s.byAuthor, q));
      x, y := x.(tweets := SortBy(ById, Concat(s.byAuthor, p))), x.(tweets := SortBy(ById, Concat(s.byAuthor, q)));
    }
  }

  lemma SomeCapture(s: Inner) returns (x: StoreSnapshot)
    ensures MayCapture(s, x)
  {
    ByUserIdTotal(); ByIdTotal(); ByEndsTotal();
    var us := SomeOrder(s.users.Values);
    var order := SomeOrder(s.byAuthor.Keys);
    var fs := ListingExists(ByEnds, multiset(Edges(s)));
    x := StoreSnapshot(SortBy(ByUserId, us), fs, SortBy(ById, Concat(s.byAuthor, order)));
  }

  // ----- snapshots of one logical state -----

  ghost predicate Layout(s: Inner, a: Inner) {
    SameView(s, a) && WellKeyed(a)
  }

  /** "Two snapshots of the same logical state are byte-equal" holds, over all layouts and hash orders,
      exactly when no two registered users share an id and no two different stored tweets do. Where it
      fails, two loads of that very state give different snapshots. */
  lemma SnapshotCanonicalExactlyWhen(s: Inner)
    requires WellKeyed(s)
    ensures (forall a, b, x, y | Layout(s, a) && Layout(s, b) && MayCapture(a, x) && MayCapture(b, y) :: x == y) <==>
            DistinctUserIds(s.users) && NoTies(ById, AllTweets(s))
    ensures !(DistinctUserIds(s.users) && NoTies(ById, AllTweets(s))) ==>
              exists p, q, x, y ::
                && Layout(s, Replace(p)) && Layout(s, Replace(q))
                && MayCapture(Replace(p), x) && MayCapture(Replace(q), y) && x != y
  {
    if DistinctUserIds(s.users) && NoTies(ById, AllTweets(s)) {
      forall a, b, x, y | Layout(s, a) && Layout(s, b) && MayCapture(a, x) && MayCapture(b, y) ensures x == y {
        SameCapture(a, b, x, y);
      }
    } else {
      hide MayCapture;
      var p, q, x, y := TwoLoads(s);
    }
  }

  lemma SameCapture(a: Inner, b: Inner, x: StoreSnapshot, y: StoreSnapshot)
    requires SameView(a, b) && MayCapture(a, x) && MayCapture(b, y)
    requires DistinctUserIds(a.users) && NoTies(ById, AllTweets(a))
    ensures x == y
  {
    SameUsersAndEdges(a, b, x, y);
    MayCaptureSnapshot(a, x);
    MayCaptureSnapshot(b, y);
    ByIdTotal();
    SortedListUnique(ById, AllTweets(a), x.tweets, y.tweets);
  }

  lemma TwoLoads(s: Inner) returns (p: StoreSnapshot, q: StoreSnapshot, x: StoreSnapshot, y: StoreSnapshot)
    requires WellKeyed(s) && !(DistinctUserIds(s.users) && NoTies(ById, AllTweets(s)))
    ensures Layout(s, Replace(p)) && Layout(s, Replace(q))
    ensures MayCapture(Replace(p), x) && MayCapture(Replace(q), y) && x != y
  {
    hide MayCapture, Replace;
    if !DistinctUserIds(s.users) {
      p := SnapshotExists(s);
      RestoreSameView(s, p);
      q := p;
      x, y := TwoCaptures(Replace(p));
    } else {
      var t, u :| t in AllTweets(s) && u in AllTweets(s) && ById(t, u) && ById(u, t) && t != u;
      p := ListedFrom(s, t, u);
      q := ListedFrom(s, u, t);
      x := CaptureStartingWith(p, t, t);
      y := CaptureStartingWith(q, t, u);
    }
  }

  /** A listing of the store whose tweets begin with `t` and `u`. */
  lemma ListedFrom(s: Inner, t: Tweet, u: Tweet) returns (p: StoreSnapshot)
    requires WellKeyed(s) && t in AllTweets(s) && u in AllTweets(s) && t != u
    ensures Layout(s, Replace(p)) && p.tweets != [] && p.tweets[0] == t
  {
    hide Replace, AllTweets, WellKeyed, SameView;
    var x := SnapshotExists(s);
    ByIdTotal();
    var rest := ListingExists(ById, AllTweets(s) - multiset{t} - multiset{u});
    p := x.(tweets := [t, u] + rest);
    forall f: Follow ensures f in x.follows <==> f in Edges(s) { assert f in x.follows <==> f in multiset(x.follows); }
    assert multiset(p.tweets) == AllTweets(s);
    LoadListing(s, p);
  }

  /** What is loaded first among the tweets with one id can be captured first. */
  lemma CaptureStartingWith(p: StoreSnapshot, t: Tweet, u: Tweet) returns (x: StoreSnapshot)
    requires p.tweets != [] && p.tweets[0] == u && t.id == u.id
    ensures MayCapture(Replace(p), x) && var tied := TiedWith(ById, t, x.tweets); tied != [] && tied[0] == u
  {
    ReplaceView(p);
    ByIdTotal();
    var s := Replace(p);
    assert u in multiset(p.tweets);
    x := SomeCapture(s);
    var order := StartsWithTied(ById, s.byAuthor, s.byAuthor.Keys, t, u);
    LoadedListOrder(p, u.author, t);
    FirstByAuthor(p.tweets);
    FirstTied(ById, t, ByAuthor(p.tweets, u.author));
    hide Replace;
    x := x.(tweets := SortBy(ById, Concat(s.byAuthor, order)));
  }

  lemma {:induction false} FirstByAuthor(ts: seq<Tweet>)
    requires ts != []
    ensures var mine := ByAuthor(ts, ts[0].author); mine != [] && mine[0] == ts[0]
  {
    if |ts| > 1 { FirstByAuthor(ts[..|ts| - 1]); }
  }

  // ----- F2 after a load -----

  /** A load of two tweets with one id and one timestamp: every timeline that shows both breaks F2's strict order. */
  lemma LoadedTieBreaksOrder(limit: nat, x: StoreSnapshot, r: seq<Tweet>)
    requires x == StoreSnapshot([User(1, "a")], [], [Tweet(1, "a", "x", 0), Tweet(1, "a", "y", 0)])
    requires limit != 1 && IsTimeline(Replace(x), "a", limit, r)
    ensures !StrictlyNewestFirst(r)
  {
    var t, u, s := Tweet(1, "a", "x", 0), Tweet(1, "a", "y", 0), Replace(x);
    ReplaceView(x);
    hide Replace;
    var bag := Visible(s, "a");
    forall v: Tweet ensures bag[v] == multiset{t, u}[v] { VisibleCount(s, "a", v); }
    assert bag == multiset{t, u};
    forall v: Tweet ensures Ahead(NewestFirst, bag, t)[v] == 0 { AheadCount(NewestFirst, bag, t, v); }
    assert Ahead(NewestFirst, bag, t) == multiset{};
    assert TieWithin(bag, t, u, limit);
    StrictExactlyWhenKeysDiffer(s, "a", limit, r);
  }
}
