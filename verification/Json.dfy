/** The snapshot's JSON form (crates/server/src/admin.rs): building it and parsing it back. */
module Json {
  import opened Domain
  import opened Store
  import opened Calls

  /** `serde_json::Value`; a number is an integer of any size or a float, which is never an i64. */
  datatype Value =
    | Null | Bool(b: bool) | Int(n: int) | Float | Text(s: string)
    | Array(items: seq<Value>)
    | Object(fields: map<string, Value>)

  datatype ParseError = MissingField(name: string) | InvalidType(name: string)

  datatype Parsed<+T> = Good(value: T) | Bad(error: ParseError) {
    predicate IsFailure() { Bad? }
    function PropagateFailure<U>(): Parsed<U> requires Bad? { Bad(error) }
    function Extract(): T requires Good? { value }
  }

  predicate IsI64(n: int) { -0x8000_0000_0000_0000 <= n < 0x8000_0000_0000_0000 }

  // ----- building -----

  function UserToJson(u: User): Value { Object(map["id" := Int(u.id), "handle" := Text(u.handle)]) }

  function FollowToJson(f: Follow): Value { Object(map["from" := Text(f.from), "to" := Text(f.to)]) }

  function TweetToJson(t: Tweet): Value {
    Object(map["id" := Int(t.id), "author" := Text(t.author), "text" := Text(t.text), "created_at" := Int(t.createdAt)])
  }

  function ListToJson<T>(build: T -> Value, xs: seq<T>): Value {
    Array(seq(|xs|, i requires 0 <= i < |xs| => build(xs[i])))
  }

  function StateToJson(x: ServiceState): Value {
    Object(map[
      "clock_now" := Int(x.clockNow),
      "id_counter_users" := Int(x.idCounterUsers),
      "id_counter_tweets" := Int(x.idCounterTweets),
      "users" := ListToJson(UserToJson, x.store.users),
      "follows" := ListToJson(FollowToJson, x.store.follows),
      "tweets" := ListToJson(TweetToJson, x.store.tweets)])
  }

  // ----- parsing -----

  /** `v.get(key)`: nothing unless `v` is an object with that field. */
  function Field(v: Value, key: string): Value {
    if v.Object? && key in v.fields then v.fields[key] else Null
  }

  function GetInt(v: Value, key: string, error: ParseError): Parsed<int> {
    var x := Field(v, key);
    if x.Int? && IsI64(x.n) then Good(x.n) else Bad(error)
  }

  function GetText(v: Value, key: string, error: ParseError): Parsed<string> {
    var x := Field(v, key);
    if x.Text? then Good(x.s) else Bad(error)
  }

  function GetArray(v: Value, key: string, error: ParseError): Parsed<seq<Value>> {
    var x := Field(v, key);
    if x.Array? then Good(x.items) else Bad(error)
  }

  function ParseUser(v: Value): Parsed<User> {
    var id :- GetInt(v, "id", InvalidType("users[].id"));
    var handle :- GetText(v, "handle", InvalidType("users[].handle"));
    Good(User(id, handle))
  }

  function ParseFollow(v: Value): Parsed<Follow> {
    var from :- GetText(v, "from", InvalidType("follows[].from"));
    var to :- GetText(v, "to", InvalidType("follows[].to"));
    Good(Follow(from, to))
  }

  function ParseTweet(v: Value): Parsed<Tweet> {
    var id :- GetInt(v, "id", InvalidType("tweets[].id"));
    var author :- GetText(v, "author", InvalidType("tweets[].author"));
    var text :- GetText(v, "text", InvalidType("tweets[].text"));
    var createdAt :- GetInt(v, "created_at", InvalidType("tweets[].created_at"));
    Good(Tweet(id, author, text, createdAt))
  }

  /** `iter().map(parse).collect::<Result<Vec<_>, _>>()`: all of them, or the first error. */
  function ParseAll<T>(parse: Value -> Parsed<T>, items: seq<Value>): Parsed<seq<T>> {
    if items == [] then Good([])
    else
      var first :- parse(items[0]);
      var rest :- ParseAll(parse, items[1..]);
      Good([first] + rest)
  }

  function ParseState(v: Value): Parsed<ServiceState> {
    var clockNow :- GetInt(v, "clock_now", MissingField("state.clock_now"));
    var uc :- GetInt(v, "id_counter_users", MissingField("state.id_counter_users"));
    var tc :- GetInt(v, "id_counter_tweets", MissingField("state.id_counter_tweets"));
    var us :- GetArray(v, "users", MissingField("state.users"));
    var users :- ParseAll(ParseUser, us);
    var fs :- GetArray(v, "follows", MissingField("state.follows"));
    var follows :- ParseAll(ParseFollow, fs);
    var ts :- GetArray(v, "tweets", MissingField("state.tweets"));
    var tweets :- ParseAll(ParseTweet, ts);
    Good(ServiceState(clockNow, uc, tc, StoreSnapshot(users, follows, tweets)))
  }

  // ----- the building blocks, on the objects themselves -----

  /** `v.get(key)` finds the field of an object, however many others it has, and nothing elsewhere. */
  lemma FieldExactly(v: Value, key: string, w: Value)
    ensures Field(v, key) == w <==>
            if v.Object? && key in v.fields then v.fields[key] == w else w == Null
  { }

  /** `as_i64`: an integer field from -2^63 to 2^63 - 1, and nothing else, is read. */
  lemma GetIntExactly(v: Value, key: string, error: ParseError, n: int)
    ensures GetInt(v, key, error) == Good(n) <==>
            && v.Object? && key in v.fields && v.fields[key] == Int(n)
            && -9223372036854775808 <= n <= 9223372036854775807
    ensures GetInt(v, key, error).Good? || GetInt(v, key, error) == Bad(error)
  { }

  lemma GetTextExactly(v: Value, key: string, error: ParseError, s: string)
    ensures GetText(v, key, error) == Good(s) <==> v.Object? && key in v.fields && v.fields[key] == Text(s)
    ensures GetText(v, key, error).Good? || GetText(v, key, error) == Bad(error)
  { }

  lemma GetArrayExactly(v: Value, key: string, error: ParseError, items: seq<Value>)
    ensures GetArray(v, key, error) == Good(items) <==> v.Object? && key in v.fields && v.fields[key] == Array(items)
    ensures GetArray(v, key, error).Good? || GetArray(v, key, error) == Bad(error)
  { }

  /** `v` is an object whose field `key` is an integer an i64 holds; a text. */
  predicate HasI64(v: Value, key: string) {
    && v.Object? && key in v.fields && v.fields[key].Int?
    && -9223372036854775808 <= v.fields[key].n <= 9223372036854775807
  }

  predicate HasText(v: Value, key: string) {
    v.Object? && key in v.fields && v.fields[key].Text?
  }

  predicate HasArray(v: Value, key: string) {
    v.Object? && key in v.fields && v.fields[key].Array?
  }

  // ----- one entry: what it is built as, what parses to it, and the error otherwise -----

  /** A user is built as an object of two fields, and any object holding these two parses to it. */
  lemma UserEntry(v: Value, id: int, handle: string)
    ensures UserToJson(User(id, handle)) == Object(map["id" := Int(id), "handle" := Text(handle)])
    ensures ParseUser(v) == Good(User(id, handle)) <==>
            && v.Object? && "id" in v.fields && v.fields["id"] == Int(id) && "handle" in v.fields
            && v.fields["handle"] == Text(handle) && -9223372036854775808 <= id <= 9223372036854775807
  { }

  lemma UserErrors(v: Value)
    ensures !HasI64(v, "id") ==> ParseUser(v) == Bad(InvalidType("users[].id"))
    ensures HasI64(v, "id") && !HasText(v, "handle") ==> ParseUser(v) == Bad(InvalidType("users[].handle"))
    ensures HasI64(v, "id") && HasText(v, "handle") ==> ParseUser(v).Good?
  { }

  lemma FollowEntry(v: Value, a: string, b: string)
    ensures FollowToJson(Follow(a, b)) == Object(map["from" := Text(a), "to" := Text(b)])
    ensures ParseFollow(v) == Good(Follow(a, b)) <==>
            && v.Object? && "from" in v.fields && v.fields["from"] == Text(a)
            && "to" in v.fields && v.fields["to"] == Text(b)
  { }

  lemma FollowErrors(v: Value)
    ensures !HasText(v, "from") ==> ParseFollow(v) == Bad(InvalidType("follows[].from"))
    ensures HasText(v, "from") && !HasText(v, "to") ==> ParseFollow(v) == Bad(InvalidType("follows[].to"))
    ensures HasText(v, "from") && HasText(v, "to") ==> ParseFollow(v).Good?
  { }

  lemma TweetEntry(v: Value, id: int, author: string, text: string, at: int)
    ensures TweetToJson(Tweet(id, author, text, at)) ==
            Object(map["id" := Int(id), "author" := Text(author), "text" := Text(text), "created_at" := Int(at)])
    ensures ParseTweet(v) == Good(Tweet(id, author, text, at)) <==>
            && v.Object? && "id" in v.fields && v.fields["id"] == Int(id)
            && "author" in v.fields && v.fields["author"] == Text(author)
            && "text" in v.fields && v.fields["text"] == Text(text)
            && "created_at" in v.fields && v.fields["created_at"] == Int(at)
            && -9223372036854775808 <= id <= 9223372036854775807 && -9223372036854775808 <= at <= 9223372036854775807
  { }

  lemma TweetErrors(v: Value)
    ensures !HasI64(v, "id") ==> ParseTweet(v) == Bad(InvalidType("tweets[].id"))
    ensures HasI64(v, "id") && !HasText(v, "author") ==> ParseTweet(v) == Bad(InvalidType("tweets[].author"))
    ensures HasI64(v, "id") && HasText(v, "author") && !HasText(v, "text") ==>
              ParseTweet(v) == Bad(InvalidType("tweets[].text"))
    ensures HasI64(v, "id") && HasText(v, "author") && HasText(v, "text") && !HasI64(v, "created_at") ==>
              ParseTweet(v) == Bad(InvalidType("tweets[].created_at"))
    ensures HasI64(v, "id") && HasText(v, "author") && HasText(v, "text") && HasI64(v, "created_at") ==>
              ParseTweet(v).Good?
  { }

  // ----- what parses to what -----

  const USER_FIELDS := ["id", "handle"]
  const FOLLOW_FIELDS := ["from", "to"]
  const TWEET_FIELDS := ["id", "author", "text", "created_at"]

  /** The two values agree on the named fields; any others may come, go or differ. */
  ghost predicate Agree(keys: seq<string>, v: Value, w: Value) {
    forall k | k in keys :: Field(v, k) == Field(w, k)
  }

  ghost predicate AgreeAll(keys: seq<string>, v: Value, w: Value) {
    if v.Array? && w.Array? then
      |v.items| == |w.items| && forall i | 0 <= i < |v.items| :: Agree(keys, v.items[i], w.items[i])
    else !v.Array? && !w.Array?
  }

  /** The two values are the same state up to unknown fields, in the state object and in every element. */
  ghost predicate SameKnownFields(v: Value, w: Value) {
    && Agree(COUNTERS, v, w)
    && AgreeAll(USER_FIELDS, Field(v, "users"), Field(w, "users"))
    && AgreeAll(FOLLOW_FIELDS, Field(v, "follows"), Field(w, "follows"))
    && AgreeAll(TWEET_FIELDS, Field(v, "tweets"), Field(w, "tweets"))
  }

  ghost predicate InRange(x: ServiceState) {
    && IsI64(x.clockNow) && IsI64(x.idCounterUsers) && IsI64(x.idCounterTweets)
    && (forall u | u in x.store.users :: IsI64(u.id))
    && (forall t | t in x.store.tweets :: IsI64(t.id) && IsI64(t.createdAt))
  }

  lemma UserFields(v: Value, w: Value)
    requires Agree(USER_FIELDS, v, w)
    ensures ParseUser(v) == ParseUser(w)
  {
    assert "id" in USER_FIELDS && "handle" in USER_FIELDS;
  }

  lemma UserExactly(v: Value, u: User)
    ensures ParseUser(v) == Good(u) <==> IsI64(u.id) && Agree(USER_FIELDS, v, UserToJson(u))
  {
    assert "id" in USER_FIELDS && "handle" in USER_FIELDS;
  }

  lemma FollowFields(v: Value, w: Value)
    requires Agree(FOLLOW_FIELDS, v, w)
    ensures ParseFollow(v) == ParseFollow(w)
  {
    assert "from" in FOLLOW_FIELDS && "to" in FOLLOW_FIELDS;
  }

  lemma FollowExactly(v: Value, f: Follow)
    ensures ParseFollow(v) == Good(f) <==> Agree(FOLLOW_FIELDS, v, FollowToJson(f))
  {
    assert "from" in FOLLOW_FIELDS && "to" in FOLLOW_FIELDS;
  }

  lemma TweetFields(v: Value, w: Value)
    requires Agree(TWEET_FIELDS, v, w)
    ensures ParseTweet(v) == ParseTweet(w)
  {
    assert "id" in TWEET_FIELDS && "author" in TWEET_FIELDS && "text" in TWEET_FIELDS && "created_at" in TWEET_FIELDS;
  }

  lemma TweetExactly(v: Value, t: Tweet)
    ensures ParseTweet(v) == Good(t) <==> IsI64(t.id) && IsI64(t.createdAt) && Agree(TWEET_FIELDS, v, TweetToJson(t))
  {
    assert "id" in TWEET_FIELDS && "author" in TWEET_FIELDS && "text" in TWEET_FIELDS && "created_at" in TWEET_FIELDS;
  }

  /** A list parses to `xs` exactly when each element parses to its counterpart. */
  lemma {:induction false} ParseAllGood<T(!new)>(parse: Value -> Parsed<T>, items: seq<Value>, xs: seq<T>)
    ensures ParseAll(parse, items) == Good(xs) <==>
            |items| == |xs| && forall i | 0 <= i < |xs| :: parse(items[i]) == Good(xs[i])
  {
    if items != [] && xs != [] {
      ParseAllGood(parse, items[1..], xs[1..]);
      assert xs == [xs[0]] + xs[1..];
      assert forall i | 1 <= i < |xs| && i < |items| :: items[i] == items[1..][i - 1] && xs[i] == xs[1..][i - 1];
    }
  }

  lemma {:induction false} ParseAllSame<T(!new)>(parse: Value -> Parsed<T>, a: seq<Value>, b: seq<Value>)
    requires |a| == |b| && forall i | 0 <= i < |a| :: parse(a[i]) == parse(b[i])
    ensures ParseAll(parse, a) == ParseAll(parse, b)
  {
    if a != [] { ParseAllSame(parse, a[1..], b[1..]); }
  }

  /** A list fails exactly with the error of its first element that does not parse. */
  lemma {:induction false} ParseAllBad<T(!new)>(parse: Value -> Parsed<T>, items: seq<Value>, e: ParseError)
    ensures ParseAll(parse, items) == Bad(e) <==>
            exists i :: 0 <= i < |items| && parse(items[i]) == Bad(e) && forall k | 0 <= k < i :: parse(items[k]).Good?
  {
    if items != [] {
      ParseAllBad(parse, items[1..], e);
      if parse(items[0]).Good? {
        if i :| 0 <= i < |items| && parse(items[i]) == Bad(e) && forall k | 0 <= k < i :: parse(items[k]).Good? {
          assert parse(items[1..][i - 1]) == Bad(e) && forall k | 0 <= k < i - 1 :: items[1..][k] == items[k + 1];
        }
        if i :| && 0 <= i < |items[1..]| && parse(items[1..][i]) == Bad(e)
                && forall k | 0 <= k < i :: parse(items[1..][k]).Good? {
          assert parse(items[i + 1]) == Bad(e) && forall k | 1 <= k < i + 1 :: items[k] == items[1..][k - 1];
        }
      }
    }
  }

  /** Unknown fields never change the result, error or value, wherever they are added. */
  lemma UnknownFieldsIgnored(v: Value, w: Value)
    requires SameKnownFields(v, w)
    ensures ParseState(v) == ParseState(w)
  {
    UserListsSame(Field(v, "users"), Field(w, "users"));
    FollowListsSame(Field(v, "follows"), Field(w, "follows"));
    TweetListsSame(Field(v, "tweets"), Field(w, "tweets"));
    hide ParseUser, ParseFollow, ParseTweet, ParseAll, AgreeAll;
  }

  lemma UserListsSame(v: Value, w: Value)
    requires AgreeAll(USER_FIELDS, v, w)
    ensures (v.Array? <==> w.Array?) && (v.Array? ==> ParseAll(ParseUser, v.items) == ParseAll(ParseUser, w.items))
  {
    forall a, b | Agree(USER_FIELDS, a, b) ensures ParseUser(a) == ParseUser(b) { UserFields(a, b); }
    SameLists(ParseUser, USER_FIELDS, v, w);
  }

  lemma FollowListsSame(v: Value, w: Value)
    requires AgreeAll(FOLLOW_FIELDS, v, w)
    ensures (v.Array? <==> w.Array?) && (v.Array? ==> ParseAll(ParseFollow, v.items) == ParseAll(ParseFollow, w.items))
  {
    forall a, b | Agree(FOLLOW_FIELDS, a, b) ensures ParseFollow(a) == ParseFollow(b) { FollowFields(a, b); }
    SameLists(ParseFollow, FOLLOW_FIELDS, v, w);
  }

  lemma TweetListsSame(v: Value, w: Value)
    requires AgreeAll(TWEET_FIELDS, v, w)
    ensures (v.Array? <==> w.Array?) && (v.Array? ==> ParseAll(ParseTweet, v.items) == ParseAll(ParseTweet, w.items))
  {
    forall a, b | Agree(TWEET_FIELDS, a, b) ensures ParseTweet(a) == ParseTweet(b) { TweetFields(a, b); }
    SameLists(ParseTweet, TWEET_FIELDS, v, w);
  }

  lemma SameLists<T(!new)>(parse: Value -> Parsed<T>, keys: seq<string>, v: Value, w: Value)
    requires AgreeAll(keys, v, w) && forall a, b | Agree(keys, a, b) :: parse(a) == parse(b)
    ensures v.Array? <==> w.Array?
    ensures v.Array? ==> ParseAll(parse, v.items) == ParseAll(parse, w.items)
  {
    if v.Array? && w.Array? { ParseAllSame(parse, v.items, w.items); }
  }

  const COUNTERS := ["clock_now", "id_counter_users", "id_counter_tweets"]

  lemma CountersExactly(v: Value, x: ServiceState)
    ensures Agree(COUNTERS, v, StateToJson(x)) <==>
            Field(v, "clock_now") == Int(x.clockNow) && Field(v, "id_counter_users") == Int(x.idCounterUsers)
                && Field(v, "id_counter_tweets") == Int(x.idCounterTweets)
  {
    assert "clock_now" in COUNTERS && "id_counter_users" in COUNTERS && "id_counter_tweets" in COUNTERS;
  }

  lemma UsersExactly(v: Value, us: seq<User>)
    ensures (v.Array? && ParseAll(ParseUser, v.items) == Good(us)) <==>
            (forall u | u in us :: IsI64(u.id)) && AgreeAll(USER_FIELDS, v, ListToJson(UserToJson, us))
  {
    if v.Array? {
      ParseAllGood(ParseUser, v.items, us);
      if |v.items| == |us| {
        forall i | 0 <= i < |us|
          ensures ParseUser(v.items[i]) == Good(us[i]) <==>
                    IsI64(us[i].id) && Agree(USER_FIELDS, v.items[i], UserToJson(us[i]))
        {
          UserExactly(v.items[i], us[i]);
        }
        assert forall i | 0 <= i < |us| :: us[i] in us;
      }
    }
  }

  lemma FollowsExactly(v: Value, fs: seq<Follow>)
    ensures (v.Array? && ParseAll(ParseFollow, v.items) == Good(fs)) <==>
            AgreeAll(FOLLOW_FIELDS, v, ListToJson(FollowToJson, fs))
  {
    if v.Array? {
      ParseAllGood(ParseFollow, v.items, fs);
      if |v.items| == |fs| {
        forall i | 0 <= i < |fs|
          ensures ParseFollow(v.items[i]) == Good(fs[i]) <==> Agree(FOLLOW_FIELDS, v.items[i], FollowToJson(fs[i]))
        {
          FollowExactly(v.items[i], fs[i]);
        }
      }
    }
  }

  lemma TweetsExactly(v: Value, ts: seq<Tweet>)
    ensures (v.Array? && ParseAll(ParseTweet, v.items) == Good(ts)) <==>
            (forall t | t in ts :: IsI64(t.id) && IsI64(t.createdAt))
                && AgreeAll(TWEET_FIELDS, v, ListToJson(TweetToJson, ts))
  {
    if v.Array? {
      ParseAllGood(ParseTweet, v.items, ts);
      if |v.items| == |ts| {
        forall i | 0 <= i < |ts|
          ensures ParseTweet(v.items[i]) == Good(ts[i]) <==>
                    IsI64(ts[i].id) && IsI64(ts[i].createdAt) && Agree(TWEET_FIELDS, v.items[i], TweetToJson(ts[i]))
        {
          TweetExactly(v.items[i], ts[i]);
        }
        assert forall i | 0 <= i < |ts| :: ts[i] in ts;
      }
    }
  }

  /** `parse_state` gives state `x` for exactly the objects that hold its three counters as i64 integers and
      its three lists, entry by entry; what else they hold does not matter. */
  lemma ParsesExactly(v: Value, x: ServiceState)
    ensures ParseState(v) == Good(x) <==>
            && v.Object?
            && "clock_now" in v.fields && v.fields["clock_now"] == Int(x.clockNow)
            && "id_counter_users" in v.fields && v.fields["id_counter_users"] == Int(x.idCounterUsers)
            && "id_counter_tweets" in v.fields && v.fields["id_counter_tweets"] == Int(x.idCounterTweets)
            && -9223372036854775808 <= x.clockNow <= 9223372036854775807
            && -9223372036854775808 <= x.idCounterUsers <= 9223372036854775807
            && -9223372036854775808 <= x.idCounterTweets <= 9223372036854775807
            && "users" in v.fields && EntriesParse(ParseUser, v.fields["users"], x.store.users)
            && "follows" in v.fields && EntriesParse(ParseFollow, v.fields["follows"], x.store.follows)
            && "tweets" in v.fields && EntriesParse(ParseTweet, v.fields["tweets"], x.store.tweets)
    ensures ParseState(v) == Good(x) <==> InRange(x) && SameKnownFields(v, StateToJson(x))
  {
    var us, fs, ts := Field(v, "users"), Field(v, "follows"), Field(v, "tweets");
    ListExactly(ParseUser, us, x.store.users);
    ListExactly(ParseFollow, fs, x.store.follows);
    ListExactly(ParseTweet, ts, x.store.tweets);
    UsersExactly(us, x.store.users);
    FollowsExactly(fs, x.store.follows);
    TweetsExactly(ts, x.store.tweets);
    CountersExactly(v, x);
    hide ParseUser, ParseFollow, ParseTweet, ParseAll, ListToJson, EntriesParse;
  }

  /** An array whose elements parse to the entries, in place. */
  ghost predicate EntriesParse<T>(parse: Value -> Parsed<T>, v: Value, xs: seq<T>) {
    v.Array? && |v.items| == |xs| && forall i | 0 <= i < |xs| :: parse(v.items[i]) == Good(xs[i])
  }

  lemma ListExactly<T(!new)>(parse: Value -> Parsed<T>, v: Value, xs: seq<T>)
    ensures (v.Array? && ParseAll(parse, v.items) == Good(xs)) <==> EntriesParse(parse, v, xs)
  {
    if v.Array? { ParseAllGood(parse, v.items, xs); }
  }

  /** The first field that is missing or of the wrong type, in the order they are read, names the error; a
      list that is there fails as `ParseAllBad` says. */
  lemma StateErrors(v: Value)
    ensures !HasI64(v, "clock_now") ==> ParseState(v) == Bad(MissingField("state.clock_now"))
    ensures HasI64(v, "clock_now") && !HasI64(v, "id_counter_users") ==>
              ParseState(v) == Bad(MissingField("state.id_counter_users"))
    ensures HasI64(v, "clock_now") && HasI64(v, "id_counter_users") && !HasI64(v, "id_counter_tweets") ==>
              ParseState(v) == Bad(MissingField("state.id_counter_tweets"))
    ensures HasCounters(v) && !HasArray(v, "users") ==> ParseState(v) == Bad(MissingField("state.users"))
    ensures HasCounters(v) && HasArray(v, "users") ==>
              match ParseAll(ParseUser, v.fields["users"].items)
              case Bad(e) => ParseState(v) == Bad(e)
              case Good(_) =>
                if !HasArray(v, "follows") then ParseState(v) == Bad(MissingField("state.follows"))
                else match ParseAll(ParseFollow, v.fields["follows"].items)
                     case Bad(e) => ParseState(v) == Bad(e)
                     case Good(_) =>
                       if !HasArray(v, "tweets") then ParseState(v) == Bad(MissingField("state.tweets"))
                       else match ParseAll(ParseTweet, v.fields["tweets"].items)
                            case Bad(e) => ParseState(v) == Bad(e)
                            case Good(_) => ParseState(v).Good?
  {
    hide ParseUser, ParseFollow, ParseTweet, ParseAll;
  }

  predicate HasCounters(v: Value) {
    HasI64(v, "clock_now") && HasI64(v, "id_counter_users") && HasI64(v, "id_counter_tweets")
  }

  /** Fields added to an object, under names the parser does not read, change nothing: for the state... */
  lemma ExtraStateFields(m: map<string, Value>, extra: map<string, Value>)
    requires "clock_now" !in extra && "id_counter_users" !in extra && "id_counter_tweets" !in extra
    requires "users" !in extra && "follows" !in extra && "tweets" !in extra
    ensures ParseState(Object(m + extra)) == ParseState(Object(m))
  {
    hide ParseUser, ParseFollow, ParseTweet, ParseAll;
  }

  /** ... and for each kind of entry. */
  lemma ExtraEntryFields(m: map<string, Value>, extra: map<string, Value>)
    ensures "id" !in extra && "handle" !in extra ==> ParseUser(Object(m + extra)) == ParseUser(Object(m))
    ensures "from" !in extra && "to" !in extra ==> ParseFollow(Object(m + extra)) == ParseFollow(Object(m))
    ensures "id" !in extra && "author" !in extra && "text" !in extra && "created_at" !in extra ==>
              ParseTweet(Object(m + extra)) == ParseTweet(Object(m))
  { }

  /** What `state_to_json` builds: six fields, the lists entry for entry. */
  lemma StateBuilt(x: ServiceState)
    ensures StateToJson(x).Object?
    ensures var m := StateToJson(x).fields;
            && m.Keys == {"clock_now", "id_counter_users", "id_counter_tweets", "users", "follows", "tweets"}
            && m["clock_now"] == Int(x.clockNow) && m["id_counter_users"] == Int(x.idCounterUsers)
            && m["id_counter_tweets"] == Int(x.idCounterTweets)
            && EntriesBuilt(UserToJson, x.store.users, m["users"])
            && EntriesBuilt(FollowToJson, x.store.follows, m["follows"])
            && EntriesBuilt(TweetToJson, x.store.tweets, m["tweets"])
  {
    hide UserToJson, FollowToJson, TweetToJson;
  }

  ghost predicate EntriesBuilt<T>(build: T -> Value, xs: seq<T>, v: Value) {
    v.Array? && |v.items| == |xs| && forall i | 0 <= i < |xs| :: v.items[i] == build(xs[i])
  }

  /** The round trip: what `state_to_json` builds parses back to the same state. */
  lemma RoundTrip(x: ServiceState)
    requires InRange(x)
    ensures ParseState(StateToJson(x)) == Good(x)
  {
    ParsesExactly(StateToJson(x), x);
  }
}
