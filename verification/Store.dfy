/** The tables behind MemStore's lock (crates/store) and what one lock acquisition does to them. */
module Store {
  import opened Domain
  import opened Sorting

  datatype StoreSnapshot = StoreSnapshot(users: seq<User>, follows: seq<Follow>, tweets: seq<Tweet>)

  datatype Inner = Inner(
    users: map<string, User>,
    follows: map<string, set<string>>,
    byAuthor: map<string, seq<Tweet>>)

  const EMPTY := Inner(map[], map[], map[])

  // ----- the five writes -----

  function PutUser(s: Inner, u: User): Result<Inner> {
    if u.handle in s.users then Err(DuplicateUser) else Ok(s.(users := s.users[u.handle := u]))
  }

  function PutFollow(s: Inner, f: Follow): Result<Inner> {
    if f.from !in s.users then Err(UnknownUser)
    else if f.to !in s.users then Err(UnknownUser)
    else Ok(s.(follows := s.follows[f.from := FollowSet(s, f.from) + {f.to}]))
  }

  function DeleteFollow(s: Inner, from: string, to: string): Inner {
    if from in s.follows then s.(follows := s.follows[from := s.follows[from] - {to}]) else s
  }

  function PutTweet(s: Inner, t: Tweet): Result<Inner> {
    if t.author !in s.users then Err(UnknownUser)
    else Ok(s.(byAuthor := s.byAuthor[t.author := ListOf(s.byAuthor, t.author) + [t]]))
  }

  function Replace(x: StoreSnapshot): Inner {
    ByIdTotal();
    var lists := IndexTweets(x.tweets);
    Inner(IndexUsers(x.users), IndexFollows(x.follows), map a | a in lists :: SortBy(ById, lists[a]))
  }

  function IndexUsers(us: seq<User>): map<string, User> {
    if us == [] then map[] else var u := us[|us| - 1]; IndexUsers(us[..|us| - 1])[u.handle := u]
  }

  function IndexFollows(fs: seq<Follow>): map<string, set<string>> {
    if fs == [] then map[]
    else
      var f, m := fs[|fs| - 1], IndexFollows(fs[..|fs| - 1]);
      m[f.from := (if f.from in m then m[f.from] else {}) + {f.to}]
  }

  function IndexTweets(ts: seq<Tweet>): map<string, seq<Tweet>> {
    if ts == [] then map[]
    else
      var t, m := ts[|ts| - 1], IndexTweets(ts[..|ts| - 1]);
      m[t.author := ListOf(m, t.author) + [t]]
  }

  // ----- what the tables say: users, edges, and a bag of tweets -----

  function FollowSet(s: Inner, from: string): set<string> {
    if from in s.follows then s.follows[from] else {}
  }

  function ListOf(byAuthor: map<string, seq<Tweet>>, a: string): seq<Tweet> {
    if a in byAuthor then byAuthor[a] else []
  }

  /** The tweets of one author, in the order they stand in. */
  function ByAuthor(ts: seq<Tweet>, a: string): seq<Tweet> {
    if ts == [] then []
    else var n := |ts| - 1; ByAuthor(ts[..n], a) + if ts[n].author == a then [ts[n]] else []
  }

  ghost function Edges(s: Inner): set<Follow> {
    set a, b | a in s.follows && b in s.follows[a] :: Follow(a, b)
  }

  /** The tweets in the lists of `authors`, whatever order those lists are read in. */
  ghost function Gather(byAuthor: map<string, seq<Tweet>>, authors: set<string>): multiset<Tweet> {
    if authors == {} then multiset{}
    else var a :| a in authors; multiset(ListOf(byAuthor, a)) + Gather(byAuthor, authors - {a})
  }

  ghost function AllTweets(s: Inner): multiset<Tweet> {
    Gather(s.byAuthor, s.byAuthor.Keys)
  }

  ghost function Visible(s: Inner, user: string): multiset<Tweet> {
    Gather(s.byAuthor, {user} + FollowSet(s, user))
  }

  /** Every table is filed under the key its entries carry. Every write keeps this, `Replace` included. */
  ghost predicate WellKeyed(s: Inner) {
    && (forall h | h in s.users :: s.users[h].handle == h)
    && OwnLists(s.byAuthor)
  }

  ghost predicate OwnLists(byAuthor: map<string, seq<Tweet>>) {
    forall a, t | a in byAuthor && t in byAuthor[a] :: t.author == a
  }

  // ----- the orders the store sorts by -----

  predicate NewestFirst(a: Tweet, b: Tweet) {
    a.createdAt > b.createdAt || (a.createdAt == b.createdAt && a.id >= b.id)
  }

  predicate ById(a: Tweet, b: Tweet) { a.id <= b.id }

  predicate ByUserId(a: User, b: User) { a.id <= b.id }

  predicate ByEnds(a: Follow, b: Follow) {
    if a.from == b.from then Lex(a.to, b.to) else Lex(a.from, b.from)
  }

  /** `str::cmp`: byte order of UTF-8, which is code point order. */
  predicate Lex(a: string, b: string) {
    |a| == 0 || (|b| > 0 && (a[0] < b[0] || (a[0] == b[0] && Lex(a[1..], b[1..]))))
  }

  /** A prefix comes first, and otherwise the smaller character where the two first differ. */
  ghost predicate Earlier(a: string, b: string) {
    a <= b || exists k :: 0 <= k < |a| && k < |b| && a[..k] == b[..k] && a[k] < b[k]
  }

  lemma {:induction false} LexExactly(a: string, b: string)
    ensures Lex(a, b) <==> Earlier(a, b)
    ensures Lex(a, b) <==> a <= b || exists k :: 0 <= k < |a| && k < |b| && a[..k] == b[..k] && a[k] < b[k]
  {
    if |a| > 0 && |b| > 0 && a[0] == b[0] {
      LexExactly(a[1..], b[1..]);
      PrefixTails(a, b);
      if k :| 0 <= k < |a| && k < |b| && a[..k] == b[..k] && a[k] < b[k] {
        assert a[1..][..k - 1] == a[..k][1..] && b[1..][..k - 1] == b[..k][1..];
        assert a[1..][k - 1] < b[1..][k - 1];
      }
      if k :| 0 <= k < |a| - 1 && k < |b| - 1 && a[1..][..k] == b[1..][..k] && a[1..][k] < b[1..][k] {
        assert a[..k + 1] == [a[0]] + a[1..][..k] && b[..k + 1] == [b[0]] + b[1..][..k];
        assert a[k + 1] < b[k + 1];
      }
    } else if |a| > 0 && |b| > 0 && a[0] < b[0] {
      assert a[..0] == b[..0];
    }
  }

  lemma PrefixTails(a: string, b: string)
    requires |a| > 0 && |b| > 0 && a[0] == b[0]
    ensures a <= b <==> a[1..] <= b[1..]
  {
    assert a == [a[0]] + a[1..] && b == [b[0]] + b[1..];
    if a <= b { assert a[1..] == b[1..|a|]; }
    if a[1..] <= b[1..] { assert b[..|a|] == [b[0]] + b[1..][..|a| - 1]; }
  }

  lemma {:induction false} LexTotal(a: string, b: string)
    ensures Lex(a, b) || Lex(b, a)
  {
    if |a| > 0 && |b| > 0 { LexTotal(a[1..], b[1..]); }
  }

  lemma {:induction false} LexTransitive(a: string, b: string, c: string)
    requires Lex(a, b) && Lex(b, c)
    ensures Lex(a, c)
  {
    if |a| > 0 && a[0] == b[0] == c[0] { LexTransitive(a[1..], b[1..], c[1..]); }
  }

  lemma {:induction false} LexAntisymmetric(a: string, b: string)
    requires Lex(a, b) && Lex(b, a)
    ensures a == b
  {
    if |a| > 0 {
      LexAntisymmetric(a[1..], b[1..]);
      assert a == [a[0]] + a[1..] && b == [b[0]] + b[1..];
    }
  }

  lemma ByEndsTotal()
    ensures TotalPreorder(ByEnds)
    ensures forall x, y | ByEnds(x, y) && ByEnds(y, x) :: x == y
  {
    forall x: Follow, y: Follow ensures ByEnds(x, y) || ByEnds(y, x) {
      LexTotal(x.to, y.to); LexTotal(x.from, y.from);
    }
    forall x: Follow, y: Follow | ByEnds(x, y) && ByEnds(y, x) ensures x == y {
      if x.from == y.from { LexAntisymmetric(x.to, y.to); } else { LexAntisymmetric(x.from, y.from); }
    }
    forall x: Follow, y: Follow, z: Follow | ByEnds(x, y) && ByEnds(y, z) ensures ByEnds(x, z) {
      if x.from == y.from == z.from { LexTransitive(x.to, y.to, z.to); }
      else {
        if x.from == y.from || y.from == z.from { } else { LexTransitive(x.from, y.from, z.from); }
        if x.from == z.from { LexAntisymmetric(x.from, y.from); }
      }
    }
  }

  lemma NewestFirstTotal() ensures TotalPreorder(NewestFirst) { }

  lemma ByIdTotal() ensures TotalPreorder(ById) { }

  lemma ByUserIdTotal() ensures TotalPreorder(ByUserId) { }

  // ----- the bag of tweets, counted -----

  lemma {:induction false} GatherRemove(lists: map<string, seq<Tweet>>, authors: set<string>, a: string)
    requires a in authors
    ensures Gather(lists, authors) == multiset(ListOf(lists, a)) + Gather(lists, authors - {a})
    decreases authors
  {
    var b :| b in authors && Gather(lists, authors) == multiset(ListOf(lists, b)) + Gather(lists, authors - {b});
    if a != b {
      GatherRemove(lists, authors - {b}, a);
      GatherRemove(lists, authors - {a}, b);
      assert authors - {b} - {a} == authors - {a} - {b};
    }
  }

  /** The gathered bag holds a tweet as often as its author's list does, if its author was asked for. */
  lemma {:induction false} GatherCount(lists: map<string, seq<Tweet>>, authors: set<string>, t: Tweet)
    requires OwnLists(lists)
    ensures Gather(lists, authors)[t] == if t.author in authors then multiset(ListOf(lists, t.author))[t] else 0
    decreases authors
  {
    if authors != {} {
      var a :| a in authors;
      GatherRemove(lists, authors, a);
      GatherCount(lists, authors - {a}, t);
      if a != t.author { assert t !in multiset(ListOf(lists, a)); }
    }
  }

  lemma AllTweetsCount(s: Inner, t: Tweet)
    requires OwnLists(s.byAuthor)
    ensures AllTweets(s)[t] == multiset(ListOf(s.byAuthor, t.author))[t]
  {
    GatherCount(s.byAuthor, s.byAuthor.Keys, t);
  }

  /** F1: what `user` sees is exactly the stored tweets of `user` and of whom `user` follows, each as
      often as it is stored; an edge from `user` to `user` adds nothing. */
  lemma VisibleCount(s: Inner, user: string, t: Tweet)
    requires OwnLists(s.byAuthor)
    ensures Visible(s, user)[t] ==
            if t.author == user || Follow(user, t.author) in Edges(s) then AllTweets(s)[t] else 0
  {
    GatherCount(s.byAuthor, {user} + FollowSet(s, user), t);
    AllTweetsCount(s, t);
  }

  // ----- what the writes do to users, edges and tweets -----

  lemma PutFollowEdges(s: Inner, f: Follow)
    requires f.from in s.users && f.to in s.users
    ensures Edges(PutFollow(s, f).value) == Edges(s) + {f}
  {
    var n := PutFollow(s, f).value;
    forall e: Follow ensures e in Edges(n) <==> e in Edges(s) + {f} {
      assert e in Edges(n) <==> e.from in n.follows && e.to in n.follows[e.from];
    }
  }

  lemma DeleteFollowEdges(s: Inner, from: string, to: string)
    ensures Edges(DeleteFollow(s, from, to)) == Edges(s) - {Follow(from, to)}
  {
    var n := DeleteFollow(s, from, to);
    forall e: Follow ensures e in Edges(n) <==> e in Edges(s) - {Follow(from, to)} {
      assert e in Edges(n) <==> e.from in n.follows && e.to in n.follows[e.from];
    }
  }

  lemma PutTweetOwnLists(s: Inner, t: Tweet)
    requires OwnLists(s.byAuthor) && t.author in s.users
    ensures OwnLists(PutTweet(s, t).value.byAuthor)
  {
    var n := PutTweet(s, t).value;
    forall a, x | a in n.byAuthor && x in n.byAuthor[a] ensures x.author == a {
      if a == t.author && x != t { assert x in ListOf(s.byAuthor, a); }
    }
  }

  lemma PutTweetBag(s: Inner, t: Tweet)
    requires OwnLists(s.byAuthor) && t.author in s.users
    ensures AllTweets(PutTweet(s, t).value) == AllTweets(s) + multiset{t}
  {
    var n := PutTweet(s, t).value;
    PutTweetOwnLists(s, t);
    forall x: Tweet ensures AllTweets(n)[x] == AllTweets(s)[x] + multiset{t}[x] {
      AllTweetsCount(n, x);
      AllTweetsCount(s, x);
      PushCount(ListOf(s.byAuthor, t.author), t, x);
    }
  }

  lemma PutTweetLists(s: Inner, t: Tweet)
    requires t.author in s.users
    ensures forall a :: ListOf(PutTweet(s, t).value.byAuthor, a) ==
                        ListOf(s.byAuthor, a) + if a == t.author then [t] else []
  { }

  lemma PushCount(list: seq<Tweet>, t: Tweet, x: Tweet)
    ensures multiset(list + [t])[x] == multiset(list)[x] + multiset{t}[x]
  { }
}
