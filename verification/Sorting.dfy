/** The stable sort the store calls, and the "top of a bag" relation its results satisfy. */
module Sorting {

  ghost predicate TotalPreorder<T(!new)>(le: (T, T) -> bool) {
    && (forall x, y :: le(x, y) || le(y, x))
    && (forall x, y, z :: le(x, y) && le(y, z) ==> le(x, z))
  }

  ghost predicate SortedBy<T>(le: (T, T) -> bool, s: seq<T>) {
    forall i, j | 0 <= i < j < |s| :: le(s[i], s[j])
  }

  /** No two different members of the bag tie. */
  ghost predicate NoTies<T>(le: (T, T) -> bool, bag: multiset<T>) {
    forall x, y | x in bag && y in bag && le(x, y) && le(y, x) :: x == y
  }

  /** `r` lists, in order, the |r| members of `bag` that come first under `le`. */
  ghost predicate Top<T>(le: (T, T) -> bool, bag: multiset<T>, r: seq<T>) {
    && SortedBy(le, r)
    && multiset(r) <= bag
    && forall x, y | x in r && y in bag - multiset(r) :: le(x, y)
  }

  ghost predicate SortedListOf<T>(le: (T, T) -> bool, bag: multiset<T>, r: seq<T>) {
    SortedBy(le, r) && multiset(r) == bag
  }

  function Insert<T(!new)>(le: (T, T) -> bool, x: T, s: seq<T>): (r: seq<T>)
    requires TotalPreorder(le) && SortedBy(le, s)
    ensures SortedBy(le, r) && multiset(r) == multiset(s) + multiset{x}
  {
    if s == [] || le(x, s[0]) then
      PrependSorted(le, x, s);
      [x] + s
    else
      assert s == [s[0]] + s[1..];
      var t := Insert(le, x, s[1..]);
      BelowInserted(le, s, x, t);
      PrependSorted(le, s[0], t);
      [s[0]] + t
  }

  lemma PrependSorted<T(!new)>(le: (T, T) -> bool, x: T, s: seq<T>)
    requires TotalPreorder(le) && SortedBy(le, s) && (s == [] || le(x, s[0]))
    ensures SortedBy(le, [x] + s)
  {
    var r := [x] + s;
    forall i, j | 0 <= i < j < |r| ensures le(r[i], r[j]) {
      if i == 0 && j > 1 { assert le(s[0], s[j - 1]); }
    }
  }

  lemma BelowInserted<T(!new)>(le: (T, T) -> bool, s: seq<T>, x: T, t: seq<T>)
    requires TotalPreorder(le) && SortedBy(le, s) && s != [] && !le(x, s[0])
    requires multiset(t) == multiset(s[1..]) + multiset{x} && t != []
    ensures le(s[0], t[0])
  {
    assert t[0] in multiset(t);
    if t[0] in multiset(s[1..]) { assert t[0] in s[1..]; }
  }

  /** Rust's `truncate`, where a limit of zero is no limit. */
  function Cut<T>(ts: seq<T>, limit: nat): seq<T> {
    if limit > 0 && |ts| > limit then ts[..limit] else ts
  }

  /** Rust's `sort_by`: an insertion sort that puts an element before the later ones it ties with. */
  function SortBy<T(!new)>(le: (T, T) -> bool, s: seq<T>): (r: seq<T>)
    requires TotalPreorder(le)
    ensures SortedListOf(le, multiset(s), r)
  {
    if s == [] then []
    else
      assert s == [s[0]] + s[1..];
      Insert(le, s[0], SortBy(le, s[1..]))
  }

  /** The members of `s` that tie with `x`, in the order they stand in. */
  ghost function TiedWith<T>(le: (T, T) -> bool, x: T, s: seq<T>): seq<T> {
    if s == [] then [] else (if le(x, s[0]) && le(s[0], x) then [s[0]] else []) + TiedWith(le, x, s[1..])
  }

  lemma {:induction false} InsertStable<T(!new)>(le: (T, T) -> bool, e: T, s: seq<T>, x: T)
    requires TotalPreorder(le) && SortedBy(le, s)
    ensures TiedWith(le, x, Insert(le, e, s)) == TiedWith(le, x, [e] + s)
  {
    hide SortedBy, TotalPreorder, TiedWith;
    if s != [] && !le(e, s[0]) {
      RestSorted(le, s);
      InsertStable(le, e, s[1..], x);
      InsertedLater(le, e, s, x);
    }
  }

  /** The case in which `e` goes somewhere behind the first member, which it does not tie with. */
  lemma InsertedLater<T(!new)>(le: (T, T) -> bool, e: T, s: seq<T>, x: T)
    requires TotalPreorder(le) && SortedBy(le, s) && s != [] && !le(e, s[0]) && SortedBy(le, s[1..])
    requires TiedWith(le, x, Insert(le, e, s[1..])) == TiedWith(le, x, [e] + s[1..])
    ensures TiedWith(le, x, Insert(le, e, s)) == TiedWith(le, x, [e] + s)
  {
    hide SortedBy, TotalPreorder, TiedWith;
    var rest := s[1..];
    assert s == [s[0]] + rest;
    TiedHead(le, x, s[0], Insert(le, e, rest));
    TiedHead(le, x, e, rest);
    TiedHead(le, x, e, s);
    TiedHead(le, x, s[0], rest);
    NotBothTied(le, x, e, s[0]);
  }

  lemma NotBothTied<T(!new)>(le: (T, T) -> bool, x: T, e: T, f: T)
    requires TotalPreorder(le) && !le(e, f)
    ensures !(le(x, e) && le(e, x) && le(x, f) && le(f, x))
  { }

  lemma RestSorted<T>(le: (T, T) -> bool, s: seq<T>)
    requires SortedBy(le, s) && s != []
    ensures SortedBy(le, s[1..])
  { }

  lemma TiedHead<T>(le: (T, T) -> bool, x: T, e: T, s: seq<T>)
    ensures TiedWith(le, x, [e] + s) == (if le(x, e) && le(e, x) then [e] else []) + TiedWith(le, x, s)
  {
    assert ([e] + s)[1..] == s;
  }

  /** The sort is stable: members that tie keep the order they came in. */
  lemma {:induction false} SortByStable<T(!new)>(le: (T, T) -> bool, s: seq<T>, x: T)
    requires TotalPreorder(le)
    ensures TiedWith(le, x, SortBy(le, s)) == TiedWith(le, x, s)
  {
    if s != [] {
      var t := SortBy(le, s[1..]);
      SortByStable(le, s[1..], x);
      InsertStable(le, s[0], t, x);
      TiedHead(le, x, s[0], t);
    }
  }

  lemma {:induction false} TiedConcat<T>(le: (T, T) -> bool, x: T, a: seq<T>, b: seq<T>)
    ensures TiedWith(le, x, a + b) == TiedWith(le, x, a) + TiedWith(le, x, b)
  {
    if a == [] { assert a + b == b; } else {
      assert (a + b)[1..] == a[1..] + b;
      TiedConcat(le, x, a[1..], b);
    }
  }

  lemma {:induction false} TiedMembers<T>(le: (T, T) -> bool, x: T, s: seq<T>)
    ensures forall y :: y in TiedWith(le, x, s) <==> y in s && le(x, y) && le(y, x)
  {
    if s != [] {
      TiedMembers(le, x, s[1..]);
      assert s == [s[0]] + s[1..];
    }
  }

  /** The members of the bag that come strictly before `x`. */
  ghost function Ahead<T>(le: (T, T) -> bool, bag: multiset<T>, x: T): multiset<T>
    decreases |bag|
  {
    if bag == multiset{} then multiset{}
    else
      var u :| u in bag;
      Ahead(le, bag - multiset{u}, x) + if le(u, x) && !le(x, u) then multiset{u} else multiset{}
  }

  lemma {:induction false} AheadCount<T>(le: (T, T) -> bool, bag: multiset<T>, x: T, v: T)
    ensures Ahead(le, bag, x)[v] == if le(v, x) && !le(x, v) then bag[v] else 0
    decreases |bag|
  {
    if bag != multiset{} {
      var u :| u in bag && Ahead(le, bag, x) ==
                           Ahead(le, bag - multiset{u}, x) + if le(u, x) && !le(x, u) then multiset{u} else multiset{};
      AheadCount(le, bag - multiset{u}, x, v);
    }
  }

  lemma AheadHead<T(!new)>(le: (T, T) -> bool, s: seq<T>, x: T)
    requires s != []
    ensures |Ahead(le, multiset(s), x)| ==
            |Ahead(le, multiset(s[1..]), x)| + if le(s[0], x) && !le(x, s[0]) then 1 else 0
  {
    assert s == [s[0]] + s[1..];
    var first := if le(s[0], x) && !le(x, s[0]) then multiset{s[0]} else multiset{};
    forall v ensures Ahead(le, multiset(s), x)[v] == (Ahead(le, multiset(s[1..]), x) + first)[v] {
      AheadCount(le, multiset(s), x, v);
      AheadCount(le, multiset(s[1..]), x, v);
    }
    assert Ahead(le, multiset(s), x) == Ahead(le, multiset(s[1..]), x) + first;
  }

  /** Nothing is ahead of the head of a sorted list, or of what ties with it. */
  lemma NoneAhead<T(!new)>(le: (T, T) -> bool, s: seq<T>, x: T)
    requires TotalPreorder(le) && SortedBy(le, s) && s != [] && le(x, s[0])
    ensures |Ahead(le, multiset(s), x)| == 0
  {
    forall v ensures Ahead(le, multiset(s), x)[v] == 0 {
      AheadCount(le, multiset(s), x, v);
      if v in multiset(s) { HeadIsLeast(le, s, v); }
    }
    assert Ahead(le, multiset(s), x) == multiset{};
  }

  /** In a sorted list the first that ties with `x` stands right behind all that come strictly before `x`. */
  lemma {:induction false} FirstTiedAt<T(!new)>(le: (T, T) -> bool, s: seq<T>, x: T)
    requires TotalPreorder(le) && SortedBy(le, s) && TiedWith(le, x, s) != []
    ensures var n := |Ahead(le, multiset(s), x)|; n < |s| && s[n] == TiedWith(le, x, s)[0]
  {
    if le(x, s[0]) {
      FirstTiedHere(le, s, x);
    } else {
      assert SortedBy(le, s[1..]) by { RestSorted(le, s); }
      assert le(s[0], x);
      hide TotalPreorder, SortedBy;
      FirstTiedAt(le, s[1..], x);
      AheadHead(le, s, x);
    }
  }

  lemma FirstTiedHere<T(!new)>(le: (T, T) -> bool, s: seq<T>, x: T)
    requires TotalPreorder(le) && SortedBy(le, s) && TiedWith(le, x, s) != [] && le(x, s[0])
    ensures |Ahead(le, multiset(s), x)| == 0 && s[0] == TiedWith(le, x, s)[0]
  {
    NoneAhead(le, s, x);
    TiedMembers(le, x, s);
    var y := TiedWith(le, x, s)[0];
    assert y in TiedWith(le, x, s);
    HeadIsLeast(le, s, y);
    assert le(s[0], y) && le(y, x);
    FirstTied(le, x, s);
  }

  /** The ties that reach into the first `k` places stand in one order in both lists. */
  ghost predicate TiesAgree<T(!new)>(le: (T, T) -> bool, a: seq<T>, b: seq<T>, k: int) {
    forall x | x in multiset(a) && |Ahead(le, multiset(a), x)| < k :: TiedWith(le, x, a) == TiedWith(le, x, b)
  }

  /** That order fixes the first `k` places of a sorted list. */
  lemma {:induction false} PrefixByTies<T(!new)>(le: (T, T) -> bool, a: seq<T>, b: seq<T>, k: nat)
    requires TotalPreorder(le) && SortedBy(le, a) && SortedBy(le, b) && multiset(a) == multiset(b) && k <= |a|
    requires TiesAgree(le, a, b, k)
    ensures k <= |b| && a[..k] == b[..k]
    decreases k
  {
    assert |a| == |multiset(a)| == |multiset(b)| == |b|;
    if k > 0 {
      HeadTiesAgree(le, a, b, k);
      hide TotalPreorder, SortedBy, TiedWith, Ahead, TiesAgree;
      SameHead(le, a, b);
      SameRest(a, b);
      RestSorted(le, a);
      RestSorted(le, b);
      RestTiesAgree(le, a, b, k);
      PrefixByTies(le, a[1..], b[1..], k - 1);
      SamePrefix(a, b, k);
    }
  }

  lemma HeadTiesAgree<T(!new)>(le: (T, T) -> bool, a: seq<T>, b: seq<T>, k: nat)
    requires TotalPreorder(le) && SortedBy(le, a) && a != [] && k > 0 && TiesAgree(le, a, b, k)
    ensures TiedWith(le, a[0], a) == TiedWith(le, a[0], b)
  {
    assert a[0] in multiset(a);
    NoneAhead(le, a, a[0]);
  }

  lemma RestTiesAgree<T(!new)>(le: (T, T) -> bool, a: seq<T>, b: seq<T>, k: nat)
    requires a != [] && b != [] && a[0] == b[0] && TiesAgree(le, a, b, k)
    ensures TiesAgree(le, a[1..], b[1..], k - 1)
  {
    hide TiedWith, Ahead;
    forall x | x in multiset(a[1..]) && |Ahead(le, multiset(a[1..]), x)| < k - 1
      ensures TiedWith(le, x, a[1..]) == TiedWith(le, x, b[1..])
    {
      assert a == [a[0]] + a[1..] && b == [a[0]] + b[1..];
      AheadHead(le, a, x);
      assert x in multiset(a);
      TiedHead(le, x, a[0], a[1..]);
      TiedHead(le, x, a[0], b[1..]);
      SameTail(if le(x, a[0]) && le(a[0], x) then [a[0]] else [], TiedWith(le, x, a[1..]), TiedWith(le, x, b[1..]));
    }
  }

  lemma SamePrefix<T>(a: seq<T>, b: seq<T>, k: nat)
    requires 0 < k <= |a| && k <= |b| && a[0] == b[0] && a[1..][..k - 1] == b[1..][..k - 1]
    ensures a[..k] == b[..k]
  {
    assert a[..k] == [a[0]] + a[1..][..k - 1] && b[..k] == [b[0]] + b[1..][..k - 1];
  }

  lemma SameRest<T>(a: seq<T>, b: seq<T>)
    requires a != [] && b != [] && a[0] == b[0] && multiset(a) == multiset(b)
    ensures multiset(a[1..]) == multiset(b[1..])
  {
    assert a == [a[0]] + a[1..] && b == [b[0]] + b[1..];
    assert multiset(a[1..]) == multiset(a) - multiset{a[0]};
  }

  lemma SameTail<T>(s: seq<T>, p: seq<T>, q: seq<T>)
    requires s + p == s + q
    ensures p == q
  {
    assert (s + p)[|s|..] == p && (s + q)[|s|..] == q;
  }

  lemma SameHead<T(!new)>(le: (T, T) -> bool, a: seq<T>, b: seq<T>)
    requires TotalPreorder(le) && SortedBy(le, a) && SortedBy(le, b) && multiset(a) == multiset(b) && a != [] && b != []
    requires TiedWith(le, a[0], a) == TiedWith(le, a[0], b)
    ensures a[0] == b[0]
  {
    hide TotalPreorder, TiedWith, SortedBy;
    assert a[0] in multiset(a) && b[0] in multiset(b);
    HeadIsLeast(le, a, a[0]);
    HeadIsLeast(le, a, b[0]);
    HeadIsLeast(le, b, a[0]);
    FirstTied(le, a[0], a);
    FirstTied(le, a[0], b);
  }

  lemma FirstTied<T>(le: (T, T) -> bool, x: T, s: seq<T>)
    requires s != [] && le(x, s[0]) && le(s[0], x)
    ensures TiedWith(le, x, s) != [] && TiedWith(le, x, s)[0] == s[0]
  { }

  lemma HeadIsLeast<T(!new)>(le: (T, T) -> bool, s: seq<T>, y: T)
    requires TotalPreorder(le) && SortedBy(le, s) && s != [] && y in multiset(s)
    ensures le(s[0], y)
  {
    var j :| 0 <= j < |s| && s[j] == y;
  }

  /** Sorting a sorted list changes nothing. */
  lemma {:induction false} SortedFixed<T(!new)>(le: (T, T) -> bool, s: seq<T>)
    requires TotalPreorder(le) && SortedBy(le, s)
    ensures SortBy(le, s) == s
  {
    if s != [] {
      RestSorted(le, s);
      SortedFixed(le, s[1..]);
      assert s == [s[0]] + s[1..];
      assert |s| > 1 ==> le(s[0], s[1]);
    }
  }

  /** Truncating a sorted list leaves the top of its bag. */
  lemma TopOfSorted<T(!new)>(le: (T, T) -> bool, r: seq<T>, k: nat)
    requires SortedBy(le, r) && k <= |r|
    ensures Top(le, multiset(r), r[..k])
  {
    assert r == r[..k] + r[k..];
    assert multiset(r) == multiset(r[..k]) + multiset(r[k..]);
    assert multiset(r) - multiset(r[..k]) == multiset(r[k..]);
    forall x, y | x in r[..k] && y in multiset(r[k..]) ensures le(x, y) {
      var i :| 0 <= i < k && r[i] == x;
      var j :| k <= j < |r| && r[j] == y;
    }
  }

  /** The first k places of a bag without ties can be filled in one way only. */
  lemma {:induction false} TopUnique<T(!new)>(le: (T, T) -> bool, bag: multiset<T>, a: seq<T>, b: seq<T>)
    requires NoTies(le, bag) && Top(le, bag, a) && Top(le, bag, b) && |a| == |b|
    requires TotalPreorder(le)
    ensures a == b
    decreases |a|
  {
    hide TotalPreorder, Top, NoTies;
    if |a| > 0 {
      SameFirst(le, bag, a, b);
      TopOfRest(le, bag, a);
      TopOfRest(le, bag, b);
      NoTiesWithin(le, bag, bag - multiset{a[0]});
      TopUnique(le, bag - multiset{a[0]}, a[1..], b[1..]);
      assert a == [a[0]] + a[1..] && b == [b[0]] + b[1..];
    }
  }

  lemma NoTiesWithin<T(!new)>(le: (T, T) -> bool, bag: multiset<T>, part: multiset<T>)
    requires NoTies(le, bag) && part <= bag
    ensures NoTies(le, part)
  { }

  lemma SameFirst<T(!new)>(le: (T, T) -> bool, bag: multiset<T>, a: seq<T>, b: seq<T>)
    requires TotalPreorder(le) && NoTies(le, bag) && Top(le, bag, a) && Top(le, bag, b) && |a| == |b| > 0
    ensures a[0] == b[0]
  {
    FirstIsLeast(le, bag, a);
    FirstIsLeast(le, bag, b);
    assert a[0] in multiset(a) && b[0] in multiset(b);
  }

  lemma FirstIsLeast<T(!new)>(le: (T, T) -> bool, bag: multiset<T>, a: seq<T>)
    requires TotalPreorder(le) && Top(le, bag, a) && |a| > 0
    ensures forall y | y in bag :: le(a[0], y)
  {
    forall y | y in bag ensures le(a[0], y) {
      if y !in bag - multiset(a) {
        assert y in multiset(a);
        var j :| 0 <= j < |a| && a[j] == y;
      }
    }
  }

  lemma TopOfRest<T(!new)>(le: (T, T) -> bool, bag: multiset<T>, a: seq<T>)
    requires Top(le, bag, a) && |a| > 0
    ensures Top(le, bag - multiset{a[0]}, a[1..])
  {
    assert a == [a[0]] + a[1..];
    assert (bag - multiset{a[0]}) - multiset(a[1..]) == bag - multiset(a);
  }

  /** A complete sorted list is the top of its bag, so it is unique when nothing ties. */
  lemma SortedListUnique<T(!new)>(le: (T, T) -> bool, bag: multiset<T>, a: seq<T>, b: seq<T>)
    requires NoTies(le, bag) && SortedListOf(le, bag, a) && SortedListOf(le, bag, b)
    requires TotalPreorder(le)
    ensures a == b
  {
    assert |a| == |multiset(a)| == |multiset(b)| == |b|;
    TopUnique(le, bag, a, b);
  }

  /** Two tied members of a bag can be listed either way round. */
  lemma SwapTied<T(!new)>(le: (T, T) -> bool, bag: multiset<T>, r: seq<T>, x: T, y: T) returns (swapped: seq<T>)
    requires TotalPreorder(le) && SortedListOf(le, bag, r)
    requires x in bag && y in bag && x != y && le(x, y) && le(y, x)
    ensures SortedListOf(le, bag, swapped) && swapped != r
  {
    assert x in multiset(r) && y in multiset(r);
    var i :| 0 <= i < |r| && r[i] == x;
    var j :| 0 <= j < |r| && r[j] == y;
    swapped := r[i := y][j := x];
    SwapBag(r, i, j);
    TiedStaySorted(le, r, swapped);
  }

  lemma SwapBag<T>(r: seq<T>, i: nat, j: nat)
    requires i < |r| && j < |r|
    ensures multiset(r[i := r[j]][j := r[i]]) == multiset(r)
  { }

  lemma TiedStaySorted<T(!new)>(le: (T, T) -> bool, r: seq<T>, s: seq<T>)
    requires TotalPreorder(le) && SortedBy(le, r) && |r| == |s|
    requires forall k | 0 <= k < |r| :: le(r[k], s[k]) && le(s[k], r[k])
    ensures SortedBy(le, s)
  {
    forall k, l | 0 <= k < l < |s| ensures le(s[k], s[l]) {
      assert le(s[k], r[k]) && le(r[k], r[l]) && le(r[l], s[l]);
    }
  }

  /** Every bag has a listing, so every sorted listing asked for exists. */
  lemma ListingExists<T(!new)>(le: (T, T) -> bool, bag: multiset<T>) returns (r: seq<T>)
    requires TotalPreorder(le)
    ensures SortedListOf(le, bag, r)
  {
    var rest, s := bag, [];
    while |rest| > 0
      invariant rest + multiset(s) == bag
      decreases |rest|
    {
      var x :| x in rest;
      rest, s := rest - multiset{x}, s + [x];
    }
    r := SortBy(le, s);
  }

  lemma SmallerBag<T>(a: multiset<T>, b: multiset<T>)
    requires a <= b
    ensures |a| <= |b|
  {
    assert b == a + (b - a);
  }

  lemma PrefixBag<T>(r: seq<T>, n: nat)
    requires n <= |r|
    ensures multiset(r[..n]) <= multiset(r)
  {
    assert r == r[..n] + r[n..];
  }

  // ----- lists without repeats -----

  ghost predicate StrictlySortedBy<T>(le: (T, T) -> bool, s: seq<T>) {
    forall i, j | 0 <= i < j < |s| :: le(s[i], s[j]) && !le(s[j], s[i])
  }

  lemma TwiceCounts<T>(r: seq<T>, i: nat, j: nat)
    requires i < j < |r| && r[i] == r[j]
    ensures multiset(r)[r[i]] >= 2
  {
    assert r == r[..j] + [r[j]] + r[j + 1..];
    assert r[i] in multiset(r[..j]) by { assert r[..j][i] == r[i]; }
  }

  lemma WholeBag<T>(bag: multiset<T>, r: seq<T>)
    requires multiset(r) <= bag && |r| == |bag|
    ensures multiset(r) == bag
    ensures forall x | x in bag :: x in r
  {
    assert |bag - multiset(r)| == |bag| - |multiset(r)|;
    assert bag == multiset(r) + (bag - multiset(r));
  }

  lemma SortedSetStrict<T(!new)>(le: (T, T) -> bool, members: set<T>, r: seq<T>)
    requires SortedListOf(le, multiset(members), r)
    ensures forall i, j | 0 <= i < j < |r| :: le(r[i], r[j]) && r[i] != r[j]
    ensures forall x :: x in r <==> x in members
  {
    forall i, j | 0 <= i < j < |r| ensures r[i] != r[j] {
      if r[i] == r[j] { assert r[i] in multiset(members); TwiceCounts(r, i, j); }
    }
    forall x ensures x in r <==> x in members { assert x in r <==> x in multiset(r); }
  }

  lemma StrictIsListing<T(!new)>(le: (T, T) -> bool, a: seq<T>, members: set<T>)
    requires StrictlySortedBy(le, a) && forall x :: x in a <==> x in members
    ensures SortedListOf(le, multiset(members), a)
  {
    hide TotalPreorder;
    NoRepeatsBag(a, members) by { RepeatFree(le, a); }
  }

  lemma RepeatFree<T(!new)>(le: (T, T) -> bool, a: seq<T>)
    requires StrictlySortedBy(le, a)
    ensures forall i, j | 0 <= i < j < |a| :: a[i] != a[j]
  { }

  lemma {:induction false} NoRepeatsBag<T(!new)>(a: seq<T>, members: set<T>)
    requires (forall i, j | 0 <= i < j < |a| :: a[i] != a[j]) && forall x :: x in a <==> x in members
    ensures multiset(a) == multiset(members)
    decreases |a|
  {
    if |a| == 0 {
      assert forall x | x in members :: x in a;
      assert members == {};
    } else {
      var rest := members - {a[0]};
      RestMembers(a, members);
      NoRepeatsBag(a[1..], rest);
      assert members == rest + {a[0]};
      assert a == [a[0]] + a[1..];
    }
  }

  lemma RestMembers<T(!new)>(a: seq<T>, members: set<T>)
    requires (forall i, j | 0 <= i < j < |a| :: a[i] != a[j]) && |a| > 0 && forall x :: x in a <==> x in members
    ensures a[0] in members && forall x :: x in a[1..] <==> x in members - {a[0]}
  {
    assert a == [a[0]] + a[1..];
    forall x ensures x in a[1..] <==> x in members - {a[0]} {
      if x in a[1..] { var i :| 1 <= i < |a| && a[i] == x; }
      assert x in members ==> x in a;
    }
  }

  /** Two strictly sorted lists with the same members are the same list. */
  lemma StrictAgree<T(!new)>(le: (T, T) -> bool, a: seq<T>, b: seq<T>)
    requires TotalPreorder(le) && StrictlySortedBy(le, a) && StrictlySortedBy(le, b)
    requires forall x :: x in a <==> x in b
    ensures a == b
  {
    var members := set x | x in a;
    StrictIsListing(le, a, members);
    StrictIsListing(le, b, members);
    forall x, y | x in members && y in members && le(x, y) && le(y, x) ensures x == y {
      var i :| 0 <= i < |a| && a[i] == x;
      var j :| 0 <= j < |a| && a[j] == y;
      assert !(i < j) && !(j < i);
    }
    SortedListUnique(le, multiset(members), a, b);
  }
}
