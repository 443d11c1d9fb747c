/** `MemStore`: the tables, updated in place. One method call is one lock acquisition. */
module MemStores {
  import opened Domain
  import opened Sorting
  import opened Store
  import opened Views
  import opened Normalise
  import opened HashOrder

  class MemStore {
    var users: map<string, User>
    var follows: map<string, set<string>>
    var byAuthor: map<string, seq<Tweet>>

    ghost function Contents(): Inner
      reads this
    {
      Inner(users, follows, byAuthor)
    }

    ghost predicate Valid()
      reads this
    {
      WellKeyed(Contents())
    }

    constructor ()
      ensures Valid() && Contents() == EMPTY
    {
      users, follows, byAuthor := map[], map[], map[];
    }

    method PutUser(u: User) returns (r: Result<()>)
      requires Valid()
      modifies this
      ensures Valid()
      ensures match Store.PutUser(old(Contents()), u)
              case Ok(s) => r == Ok(()) && Contents() == s
              case Err(e) => r == Err(e) && Contents() == old(Contents())
    {
      if u.handle in users { return Err(DuplicateUser); }
      users := users[u.handle := u];
      r := Ok(());
    }

    method HasUser(handle: string) returns (known: bool)
      ensures known <==> handle in Contents().users
    {
      known := handle in users;
    }

    method PutFollow(f: Follow) returns (r: Result<()>)
      requires Valid()
      modifies this
      ensures Valid()
      ensures match Store.PutFollow(old(Contents()), f)
              case Ok(s) => r == Ok(()) && Contents() == s && Edges(Contents()) == old(Edges(Contents())) + {f}
              case Err(e) => r == Err(e) && Contents() == old(Contents())
    {
      if f.from !in users { return Err(UnknownUser); }
      if f.to !in users { return Err(UnknownUser); }
      PutFollowEdges(Contents(), f);
      var tos := if f.from in follows then follows[f.from] else {};
      follows := follows[f.from := tos + {f.to}];
      r := Ok(());
    }

    method DeleteFollow(from: string, to: string)
      requires Valid()
      modifies this
      ensures Valid() && Contents() == Store.DeleteFollow(old(Contents()), from, to)
      ensures Edges(Contents()) == old(Edges(Contents())) - {Follow(from, to)}
    {
      DeleteFollowEdges(Contents(), from, to);
      if from in follows {
        follows := follows[from := follows[from] - {to}];
      }
    }

    method PutTweet(t: Tweet) returns (r: Result<()>)
      requires Valid()
      modifies this
      ensures Valid()
      ensures match Store.PutTweet(old(Contents()), t)
              case Ok(s) => r == Ok(()) && Contents() == s
                  && AllTweets(Contents()) == old(AllTweets(Contents())) + multiset{t}
              case Err(e) => r == Err(e) && Contents() == old(Contents())
    {
      if t.author !in users { return Err(UnknownUser); }
      PutTweetOwnLists(Contents(), t);
      PutTweetBag(Contents(), t);
      var list := if t.author in byAuthor then byAuthor[t.author] else [];
      byAuthor := byAuthor[t.author := list + [t]];
      r := Ok(());
    }

    method FollowSet(from: string) returns (handles: set<string>)
      ensures forall to :: to in handles <==> Follow(from, to) in Edges(Contents())
    {
      handles := if from in follows then follows[from] else {};
    }

    /** Authors come out of the hash set in any order; the answer is a timeline all the same. */
    method HomeTimeline(user: string, limit: nat) returns (collected: seq<Tweet>)
      ensures MayShow(Contents(), user, limit, collected)
      ensures limit > 0 ==> |collected| <= limit
      ensures forall i, j | 0 <= i < j < |collected| ::
                var t, u := collected[i], collected[j];
                t.createdAt > u.createdAt || (t.createdAt == u.createdAt && t.id >= u.id)
      ensures IsTimeline(Contents(), user, limit, collected)
    {
      hide IsTimeline, MayShow, Orders, SoFar, Concat, SortBy, TotalPreorder, SortedListOf;
      var authors := {user};
      if user in follows {
        var tos := follows[user];
        while tos != {}
          invariant tos <= follows[user] && authors == {user} + (follows[user] - tos)
          decreases tos
        {
          var to :| to in tos;
          authors, tos := authors + {to}, tos - {to};
        }
      }
      assert authors == {user} + Store.FollowSet(Contents(), user);

      collected := [];
      var rest := authors;
      ghost var order := [];
      NoneYet(byAuthor, authors);
      while rest != {}
        invariant SoFar(order, rest, authors)
        invariant collected == Concat(byAuthor, order)
        decreases rest
      {
        var a :| a in rest;
        OneMoreKey(order, rest, authors, a);
        OneMoreList(byAuthor, order, a);
        if a in byAuthor { collected := collected + byAuthor[a]; }
        rest, order := rest - {a}, order + [a];
      }
      AllCame(order, authors);

      NewestFirstTotal();
      collected := SortBy(NewestFirst, collected);
      if limit > 0 && |collected| > limit {
        collected := collected[..limit];
      }
      CutMayShow(Contents(), user, limit, order);
      NewestOnTop(Contents(), user, limit, collected);
    }

    /** Users, sets and lists come out of the hash tables in any order; sorting undoes that. */
    method Snapshot() returns (x: StoreSnapshot)
      requires Valid()
      ensures MayCapture(Contents(), x)
      ensures IsSnapshot(Contents(), x)
      ensures forall u :: u in x.users <==> u.handle in users && users[u.handle] == u
      ensures forall f :: f in x.follows <==> f.from in follows && f.to in follows[f.from]
      ensures forall i, j | 0 <= i < j < |x.users| :: x.users[i].id <= x.users[j].id
      ensures forall i, j | 0 <= i < j < |x.follows| ::
                if x.follows[i].from == x.follows[j].from then Earlier(x.follows[i].to, x.follows[j].to)
                else Earlier(x.follows[i].from, x.follows[j].from)
      ensures forall i, j | 0 <= i < j < |x.tweets| :: x.tweets[i].id <= x.tweets[j].id
    {
      var us := CollectUsers();
      var fs := CollectFollows();
      var ts, order := CollectTweets();
      ByUserIdTotal(); ByEndsTotal(); ByIdTotal();
      x := StoreSnapshot(SortBy(ByUserId, us), SortBy(ByEnds, fs), SortBy(ById, ts));
      assert MayCapture(Contents(), x);
      MayCaptureSnapshot(Contents(), x);
      SnapshotMeaning(Contents(), x);
    }

    method CollectUsers() returns (us: seq<User>)
      requires Valid()
      ensures multiset(us) == multiset(users.Values)
    {
      us := [];
      var rest := users.Keys;
      ghost var done := {};
      while rest != {}
        invariant rest + done == users.Keys && rest !! done
        invariant multiset(us) == multiset(set h | h in done :: users[h])
        decreases rest
      {
        var h :| h in rest;
        OneMoreValue(users, done, h);
        us := us + [users[h]];
        rest, done := rest - {h}, done + {h};
      }
      assert (set h | h in done :: users[h]) == users.Values;
    }

    method CollectFollows() returns (fs: seq<Follow>)
      ensures multiset(fs) == multiset(Edges(Contents()))
    {
      fs := [];
      var rest := follows.Keys;
      ghost var done: set<Follow> := {};
      while rest != {}
        invariant rest <= follows.Keys
        invariant forall f: Follow :: f in done <==> f in Edges(Contents()) && f.from !in rest
        invariant multiset(fs) == multiset(done)
        decreases rest
      {
        var from :| from in rest;
        var tos := follows[from];
        while tos != {}
          invariant tos <= follows[from]
          invariant forall f: Follow :: f in done <==>
                    f in Edges(Contents()) && (f.from !in rest || (f.from == from && f.to !in tos))
          invariant multiset(fs) == multiset(done)
          decreases tos
        {
          var to :| to in tos;
          fs := fs + [Follow(from, to)];
          assert Follow(from, to) !in done;
          done := done + {Follow(from, to)};
          tos := tos - {to};
        }
        rest := rest - {from};
      }
      assert done == Edges(Contents());
    }

    /** `order` is the order the keys came in. */
    method CollectTweets() returns (ts: seq<Tweet>, ghost order: seq<string>)
      ensures Orders(order, byAuthor.Keys) && ts == Concat(byAuthor, order)
    {
      ts, order := [], [];
      var rest := byAuthor.Keys;
      while rest != {}
        invariant rest <= byAuthor.Keys && SoFar(order, rest, byAuthor.Keys)
        invariant ts == Concat(byAuthor, order)
        decreases rest
      {
        var a :| a in rest;
        OneMoreKey(order, rest, byAuthor.Keys, a);
        ts := ts + byAuthor[a];
        rest, order := rest - {a}, order + [a];
      }
      AllCame(order, byAuthor.Keys);
    }

    /** Admission checks are bypassed, so nothing is asked of `x`. */
    method Replace(x: StoreSnapshot)
      modifies this
      ensures Valid() && Contents() == Store.Replace(x)
    {
      users, follows, byAuthor := map[], map[], map[];
      LoadUsers(x.users);
      LoadFollows(x.follows);
      LoadTweets(x.tweets);
      SortLists();
      assert byAuthor == Store.Replace(x).byAuthor;
      ReplaceKeyed(x);
    }

    method LoadUsers(us: seq<User>)
      requires users == map[]
      modifies this`users
      ensures users == IndexUsers(us)
    {
      for i := 0 to |us|
        invariant users == IndexUsers(us[..i])
      {
        assert us[..i + 1][..i] == us[..i];
        users := users[us[i].handle := us[i]];
      }
      assert us[..|us|] == us;
    }

    method LoadFollows(fs: seq<Follow>)
      requires follows == map[]
      modifies this`follows
      ensures follows == IndexFollows(fs)
    {
      for i := 0 to |fs|
        invariant follows == IndexFollows(fs[..i])
      {
        assert fs[..i + 1][..i] == fs[..i];
        var f := fs[i];
        var tos := if f.from in follows then follows[f.from] else {};
        follows := follows[f.from := tos + {f.to}];
      }
      assert fs[..|fs|] == fs;
    }

    method LoadTweets(ts: seq<Tweet>)
      requires byAuthor == map[]
      modifies this`byAuthor
      ensures byAuthor == IndexTweets(ts)
    {
      for i := 0 to |ts|
        invariant byAuthor == IndexTweets(ts[..i])
      {
        assert ts[..i + 1][..i] == ts[..i];
        var t := ts[i];
        var list := if t.author in byAuthor then byAuthor[t.author] else [];
        byAuthor := byAuthor[t.author := list + [t]];
      }
      assert ts[..|ts|] == ts;
    }

    /** Sorts every author's list by id, in whatever order the authors come. */
    method SortLists()
      modifies this`byAuthor
      ensures byAuthor.Keys == old(byAuthor.Keys)
      ensures TotalPreorder(ById) && forall a | a in byAuthor :: byAuthor[a] == SortBy(ById, old(byAuthor)[a])
    {
      ByIdTotal();
      var rest := byAuthor.Keys;
      while rest != {}
        invariant byAuthor.Keys == old(byAuthor.Keys) && rest <= byAuthor.Keys
        invariant forall a | a in byAuthor :: byAuthor[a] == if a in rest then old(byAuthor)[a]
                  else SortBy(ById, old(byAuthor)[a])
        decreases rest
      {
        var a :| a in rest;
        byAuthor := byAuthor[a := SortBy(ById, byAuthor[a])];
        rest := rest - {a};
      }
    }
  }

  lemma OneMoreValue(users: map<string, User>, done: set<string>, h: string)
    requires done <= users.Keys && h in users && h !in done && forall g | g in users :: users[g].handle == g
    ensures multiset(set g | g in done + {h} :: users[g]) ==
            multiset(set g | g in done :: users[g]) + multiset{users[h]}
  {
    var before := set g | g in done :: users[g];
    assert users[h] !in before;
    assert (set g | g in done + {h} :: users[g]) == before + {users[h]};
  }
}
