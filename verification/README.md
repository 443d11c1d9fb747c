# The verified core of twitter-rust-formal-verification, in Dafny

The project models the synchronous core of the service - the in-memory store, the id generators, the
logical clock, the service that composes them, and the admin snapshot/load path. On models of the production
methods it proves what the repository's documentation calls F1 to F4, F6, F7, F9 and the uniqueness half of
F8, together with what holds when threads interleave and when a service is restored from a snapshot. F8's other
half, per-author order of ids, fails in some interleavings; the project gives a run and the exact condition.

How the files build on each other:

- `Domain`, `Sorting`, `Store`, `Utf8`: value types; the stable sort; the three tables (`Inner`) with the five
  writes on them, and what the tables say (users, edges, a bag of tweets) whatever their layout; the order of
  strings.
- `Views`, `Normalise`: which timelines and snapshots a store may show, when they are determined, and what
  `replace` keeps, drops and reorders.
- `HashOrder`: the results themselves - whole lists in some hash order, stably sorted and cut - and exactly when
  that order, or the layout of the tables, can be seen in them.
- `MemStore`, `Counters`, `Service`: the classes, updated in place. Hash iteration is "take any remaining
  key". Every method is proved against the functions and relations of the files above.
- `Calls`: a service call as the steps between its lock acquisitions (`Step`), and the call run with nothing
  in between (`Alone`); the methods of `Service` are proved to be `Alone`.
- `Machine`, `Invariants`, `Interleavings`: any number of threads inside the service, one lock acquisition per
  step. A history records each invocation, step and return with the state after it; all properties are
  stated about histories and states of whole runs, from a new service, from any service at rest, or from any
  loaded one.
- `Trails`, `AuthorOrder`: the steps behind every reply; what an overlapped snapshot misses; and the order along
  one author's list.
- `Linearization`: the order of the returns explains every run, up to ids and times; `Calm`: when it explains
  those too; `Schedules`: runs built step by step.
- `Reference`: the service as a list of users, a set of edges and one append-only log; calls made one at a
  time cannot be told from it.
- `Restore`, `Reissue`, `Overlap`: a restored service against the original, under every schedule of future
  calls; which loaded states hand an id out twice, and which are fit for service; and runs in which a snapshot
  overlaps other calls or ids come out of order.
- `Json`, `ConstantTime`, `Cookie`, `Html`: the wire form of a snapshot, the two byte comparisons, the signed
  cookie, and HTML escaping.

Model decisions. Strings are sequences of Unicode scalar values compared by code point, which is the byte
order of their UTF-8 (`LexIsByteOrder`); cookies are UTF-8 bytes. The three error types are one, as the service's conversions
only rename. An invocation and a return are placed next to the call's own lock acquisitions; a real call may
start earlier and return later, which only makes the hypotheses of the real-time properties harder to meet.

Where code and documentation differ, the model follows the code:

- `crates/server/src/admin.rs:81-83` says inputs of different lengths never compare equal. They do when the
  longer one is the shorter one followed by blocks of 256 zero bytes; `AdminEqExactly` shows these are the
  only exceptions. They reach the function, not the endpoint: its one caller passes a header read with `to_str`
  and an environment variable, and neither can hold a zero byte.
- `crates/store/src/lib.rs:285-288` says two snapshots of the same logical state are byte-equal.
  `SnapshotCanonicalExactlyWhen` shows this needs distinct ids, which a loaded snapshot may lack;
  `SnapshotRepeatableExactlyWhen` says when it holds at least of two snapshots of unchanged tables.
- `crates/store/src/lib.rs:393-405` states F2's order as strict; `StrictExactlyWhenKeysDiffer` gives the
  exact condition on what is stored, and `LoadedTieBreaksOrder` a load after which F2 fails.
- `README.md:73` and `crates/ids/src/lib.rs:6-8` say tweet ids are monotonic per author, because all tweets share
  one generator. A post draws its id and appends in two lock acquisitions, so two posts of one author can be
  stored in the other order: `IdsOutOfOrder`, `LargerIdEarlierDate` and `DatesOutOfOrder` are such runs.
  `IdsAscendExactlyWhen` and `DatesAscendExactlyWhen` say exactly when an author's list is in order, and
  `OrderedWhenApart` gives a condition on the schedule.
- `crates/service/src/lib.rs:180` says "Atomically". `snapshot_state` and `load_state` take four locks each, one
  after the other; `OverlappedSnapshotReissues` and `OverlappedSnapshotReissuesUserId` are runs in which that
  shows, and `TweetIdReissuedExactlyWhen`, `UserIdReissuedExactlyWhen` and `CaptureRestoresExactlyWhen` say
  which captured states it concerns.

## Model

| member | source | states |
|---|---|---|
| Sorting.SortByStable | crates/store/src/lib.rs:271-276 | the sort the store calls keeps tied entries in the order they came in |
| Store.VisibleCount | crates/store/src/lib.rs:257-269 | F1: the gathered bag holds a tweet as often as it is stored if its author is the user or followed by the user, else not at all; a self-edge adds nothing |
| Store.PutFollowEdges | crates/store/src/lib.rs:213-223 | F3: a recorded follow is exactly set insertion into the edges |
| Store.DeleteFollowEdges | crates/store/src/lib.rs:226-231 | F3: a deletion is exactly set removal, present or missing, even where it leaves an empty set behind |
| Store.PutTweetBag | crates/store/src/lib.rs:234-241 | an accepted post adds one occurrence of itself to the stored tweets and changes no other |
| Store.ByEndsTotal | crates/store/src/lib.rs:301 | the order on edges is total, transitive and antisymmetric |
| Store.LexExactly | crates/store/src/lib.rs:301 | the order on handles: a prefix comes first, otherwise the smaller character where the two first differ |
| Utf8.LexIsByteOrder | crates/store/src/lib.rs:301 | that is the byte order of the handles' UTF-8, which the code compares |
| Views.TimelineMeaning | crates/store/src/lib.rs:249-283 | F1 and F2: with distinct ids every returned tweet is visible, newer strictly precedes older, an omitted visible tweet ranks strictly below every returned one, and below the limit nothing is omitted |
| Views.TimelineDetermined | crates/store/src/lib.rs:254-283 | with distinct ids the timeline depends only on edges and tweets, not on hash order or list order |
| Views.NewestOnTop | crates/store/src/lib.rs:271-281 | any timeline of any store: newest first, the larger id first among equal dates, no longer than the limit |
| Views.StrictExactlyWhenKeysDiffer | crates/store/src/lib.rs:393-405 | for any store and limit, a timeline is strictly ordered if and only if no two visible tweets (or copies of one) agree in (created_at, id) with fewer than limit - 1 tweets ahead of them (any number, without a limit) |
| HashOrder.LoadedTieBreaksOrder | crates/store/src/lib.rs:314-333 | a load of two tweets with one id and timestamp: every timeline showing both breaks F2's strict order |
| Views.SnapshotCanonical | crates/store/src/lib.rs:285-309 | equal users, edges and tweets give equal snapshots whatever the layout, when user ids and tweet ids are distinct |
| Views.SnapshotMeaning | crates/store/src/lib.rs:285-309 | entry by entry: each registered user once, by id; each edge of the follow table once, in character order of `from`, then `to`; each stored tweet as often as it is stored, by id |
| HashOrder.ReadsExact | crates/store/src/lib.rs:254-309 | with distinct tweet ids the timeline and snapshot relations hold of exactly the results the code gives for some hash order |
| HashOrder.TimelineRepeatableExactlyWhen | crates/store/src/lib.rs:254-283 | at any limit, the timeline of unchanged tables is the same for every hash order if and only if visible tweets that tie in both keys and rank within the limit share an author |
| HashOrder.SnapshotRepeatableExactlyWhen | crates/store/src/lib.rs:285-309 | snapshots of unchanged tables are equal for every hash order if and only if no two users share an id and no two tweets of different authors do |
| HashOrder.SnapshotCanonicalExactlyWhen | crates/store/src/lib.rs:285-309 | "two snapshots of the same logical state are byte-equal", over all layouts and hash orders, if and only if no two users share an id and no two different tweets do; where it fails, two loads of that state give different snapshots |
| Normalise.IndexUsersLastWins | crates/store/src/lib.rs:319-321 | the loaded users table keeps exactly the last entry for each handle |
| Normalise.ReplaceView | crates/store/src/lib.rs:314-333 | for any input a load stores the last user per handle, the set of edges and every tweet with its multiplicity, filed under its key |
| Normalise.ReplaceKeys | crates/store/src/lib.rs:322-327 | the loaded tables have entries for exactly the followers and the authors of the input |
| Normalise.LoadedListOrder | crates/store/src/lib.rs:325-332 | a loaded author's list is the author's entries sorted by id, entries with one id in input order |
| Normalise.RestoreSameView | crates/store/src/lib.rs:291-333 | loading a snapshot of a store gives back the same users, edges and tweets |
| Normalise.SnapshotAfterReplaceNormalises | crates/store/src/lib.rs:291-333 | with distinct user and tweet ids, snapshot after replace is the last-wins, deduplicated, strictly sorted form of the input |
| Normalise.NormaliseIdentityIff | crates/store/src/lib.rs:291-333 | it returns its input unchanged if and only if the input is canonical |
| Normalise.NormaliseIdempotent | crates/store/src/lib.rs:291-333 | a second replace and snapshot changes nothing more |
| MemStores.MemStore.constructor | crates/store/src/lib.rs:192-194 | a new store is empty |
| MemStores.MemStore.PutUser | crates/store/src/lib.rs:197-204 | registers the user and nothing else, or reports the duplicate and changes nothing |
| MemStores.MemStore.HasUser | crates/store/src/lib.rs:207-210 | true exactly for registered handles |
| MemStores.MemStore.PutFollow | crates/store/src/lib.rs:213-223 | F9: an edge is added exactly when both ends are registered, otherwise nothing changes |
| MemStores.MemStore.DeleteFollow | crates/store/src/lib.rs:226-231 | the edge is gone afterwards and no other edge is touched |
| MemStores.MemStore.PutTweet | crates/store/src/lib.rs:234-241 | F6: the tweet is appended to its author's list exactly when the author is registered |
| MemStores.MemStore.FollowSet | crates/store/src/lib.rs:244-247 | exactly the handles the user has an edge to |
| MemStores.MemStore.HomeTimeline | crates/store/src/lib.rs:254-283 | the authors' whole lists in some hash order, stably sorted newest first and cut to the limit; hence the visible tweets in rank order, all of them or the top `limit` |
| MemStores.MemStore.Snapshot | crates/store/src/lib.rs:291-309 | users and whole tweet lists in some hash order, stably sorted by id, edges in character order; hence sorted listings of exactly the users, edges and tweets stored |
| MemStores.MemStore.Replace | crates/store/src/lib.rs:314-333 | whatever was stored and for any input, the tables become those of the input |
| Counters.Generator.NextId | crates/ids/src/lib.rs:76-80 | the id is one above the previous value and becomes the counter |
| Counters.Logical.SetNow | crates/clock/src/lib.rs:179-181 | the override sets the clock, backwards too |
| Counters.Logical.SetNowByTicks | crates/clock/src/lib.rs:111-117 | the default makes exactly max(0, value - now) ticks of its own; among others' ticks every tick counts, so the clock ends at `value` or later; alone it agrees with the override exactly when `value` is not in the past |
| Services.Service.constructor | crates/service/src/lib.rs:76-90 | a new service is empty with all counters and the clock at zero |
| Services.Service.Tick | crates/service/src/lib.rs:107-109 | the clock moves by one; the call run alone, on the shared objects |
| Services.Service.CreateUser | crates/service/src/lib.rs:112-119 | the call run alone: empty handle first, then an id is spent, then the user with that id is registered or refused |
| Services.Service.HasUser | crates/service/src/lib.rs:122-124 | the call run alone: true exactly for registered handles |
| Services.Service.Follow | crates/service/src/lib.rs:127-130 | the call run alone: self-follow first (F4), then the store's checks (F9) |
| Services.Service.Unfollow | crates/service/src/lib.rs:134-140 | the call run alone: two checks, then the deletion |
| Services.Service.PostTweet | crates/service/src/lib.rs:144-159 | the call run alone: text check, author check, the next id, the current clock, and the append to the author's list alone |
| Services.Service.HomeTimeline | crates/service/src/lib.rs:162-164 | any reply it gives is one the call run alone may give |
| Services.Service.SnapshotState | crates/service/src/lib.rs:171-178 | the current clock and counters, and a snapshot of the tables; any state it captures is one the call run alone may capture |
| Services.Service.LoadState | crates/service/src/lib.rs:184-189 | tables, both counters and the clock become those of the loaded state, for any state and whatever the service held |
| Services.AlonePost | crates/service/src/lib.rs:144-159 | with no call in between, an accepted post carries the next id and the current clock and is stored |
| Services.AloneUnfollow | crates/service/src/lib.rs:134-140 | with no call in between, the edge goes if both users are registered, else the call fails and nothing changes |
| Machine.StepKeepsStore | crates/store/src/lib.rs:197-241 | every lock acquisition keeps: edges join two different registered users, authors are registered, keys match, nothing is dated after the clock; and users, tweets, counters and clock only grow |
| Machine.StepGrows | crates/store/src/lib.rs:197-241 | on any tables filed under their keys, loaded ones included, no lock acquisition loses a user, a tweet or a count |
| Machine.LastStepIsAtomic | crates/service/src/lib.rs:107-178 | the last lock acquisition of a call does to tables and clock what the whole call would in one piece at that moment, so unfollow's delete and post's append rest on checks that still hold; ids, timestamps and captured counters lie in the call's own window |
| Invariants.ActionKeepsInv | crates/service/src/lib.rs:112-178 | every action of every thread keeps the invariant of states and histories, from any loaded state |
| Invariants.ActionKeepsAccounts | crates/service/src/lib.rs:112-178 | and, from a service at rest, the safety of the tables and the ledgers of ids |
| Interleavings.EveryReturnAtOnce | crates/service/src/lib.rs:107-178 | in any run from any loaded state, every return does at once what its whole call would, and its id, timestamp and captured counters lie in the call's window |
| Interleavings.TablesSafe | crates/store/src/lib.rs:197-241 | F4, F6, F9 in every reachable state of every interleaving, on the tables themselves |
| Interleavings.TweetIdsConserved | crates/service/src/lib.rs:144-159 | F8: the tweet counter has moved by the tweets stored since the start plus the ids held by posts in flight, and from a new service equals their sum; all these ids are distinct and lie in 1..=counter |
| Interleavings.AppendNeverRefused | crates/service/src/lib.rs:148-158 | in any run from any loaded state: once the author check has passed, the append succeeds at any later moment |
| Interleavings.UserIdsAccounted | crates/service/src/lib.rs:112-119 | the user counter has moved by the users registered since the start plus duplicate refusals plus creations between their two steps, and from a new service equals their sum; stored and held ids are distinct and lie in 1..=counter |
| Interleavings.HandleTakenOnce | crates/service/src/lib.rs:112-119 | in any run from any loaded state: at most one creation per handle succeeds, and its user is the one stored from then on |
| Interleavings.PostsInRealTimeOrder | crates/service/src/lib.rs:144-159 | in any run from any loaded state: F7, F8: if one post returned before another was invoked it has the smaller id and no later timestamp |
| Interleavings.TimelinesShowRealTimeOrder | crates/store/src/lib.rs:254-283 | so it comes after the other in every timeline, of any user in any reachable state, that shows both |
| Trails.PostIdsDiffer | crates/ids/src/lib.rs:110-112 | no two posts of a run return the same id, however they interleave and whatever state the run starts from |
| Trails.PostNumbered | crates/service/src/lib.rs:144-159 | in any run from any loaded state, the n-th tweet id drawn is n above the counter at the start, and a post is dated the clock at the start plus the ticks before its stamp |
| Trails.UserNumbered | crates/service/src/lib.rs:112-119 | the n-th user id drawn is n above the counter at the start |
| Trails.CaptureNumbered | crates/service/src/lib.rs:171-178 | a captured clock or counter is the start plus the ticks or draws before the place it was read |
| Interleavings.ReachableReadsExact | crates/store/src/lib.rs:254-309 | in every reachable state the replies a read may give are exactly those the store returns for some hash order |
| Linearization.Linearizable | crates/service/src/lib.rs:107-178 | linearizability of tables and clock: the completed calls of any run, in the order they returned, do and reply what the same calls do one indivisible call after another; each return answers an earlier invocation. Ids handed out are new to the tables and drawn, like timestamps and captured counters, in the call's own window |
| Overlap.IdsOutOfOrder | crates/service/src/lib.rs:144-159 | the limit of that: two posts of one author overlap, a timeline between their appends shows id 2 alone, and the author's list ends as ids 2, 1 |
| Overlap.LargerIdEarlierDate | crates/service/src/lib.rs:144-159 | with a tick in between, the larger id carries the smaller timestamp |
| Overlap.DatesOutOfOrder | crates/service/src/lib.rs:144-159 | and with the tick elsewhere the list descends in ids and timestamps both |
| AuthorOrder.ListsInReturnOrder | crates/store/src/lib.rs:180-181 | in any run from any state, an author's list is what it was followed by the author's posts in the order they returned |
| AuthorOrder.IdsAscendExactlyWhen | crates/ids/src/lib.rs:6-8 | F8's per-author order, exactly: an author's list ascends in id if and only if it did at the start and no two of the author's posts returned in the opposite order to that in which they drew their ids |
| AuthorOrder.DatesAscendExactlyWhen | crates/service/src/lib.rs:144-159 | it ascends in timestamps if and only if it did at the start and no two of the author's posts read the clock in the opposite order to their returns with a tick in between |
| AuthorOrder.OrderedWhenApart | crates/service/src/lib.rs:144-159 | if no two posts of an author are in flight past their ids together, the author's list stays in order by id and timestamp |
| Calm.CalmRunIsOneAtATime | crates/service/src/lib.rs:107-178 | if calls that hold an id of one kind do not overlap, nor a snapshot one that holds an id, nor a tick a stamped post or a snapshot, then the completed calls are a one-call-at-a-time run: ids, timestamps and captured counters included |
| Calm.CalmRunRefinesLog | crates/service/src/lib.rs:107-178 | so every reply of such a run is the log-based reference's |
| Overlap.OneAtATimeShowsTheFirst | crates/service/src/lib.rs:144-164 | which no order of one call at a time gives: if one user posts, that user's unlimited timeline reaches down to id 1 |
| Interleavings.SnapshotHasEarlierPosts | crates/service/src/lib.rs:171-178 | a snapshot taken among running calls holds every post that returned before it was invoked, under its captured counter and clock |
| Interleavings.SnapshotHasEarlierUsers | crates/service/src/lib.rs:171-178 | and every user created by a call that returned before it was invoked, under its captured user counter |
| Interleavings.SnapshotSelfContained | crates/service/src/lib.rs:171-178 | captured edges join two different captured users and captured authors are captured users |
| Trails.SnapshotLateIds | crates/service/src/lib.rs:171-178 | a captured tweet with an id above the captured counter had that id drawn between the counter read and the end of the snapshot |
| Trails.SnapshotLateUserIds | crates/service/src/lib.rs:171-178 | a captured user with an id above the captured counter had it drawn between that counter's read and the end |
| Trails.SnapshotLateDates | crates/service/src/lib.rs:171-178 | a captured tweet dated after the captured clock: a tick between the clock read and the end took the clock to that date |
| Interleavings.QuiescentAtRest | crates/service/src/lib.rs:67-72 | after any interleaving, a service with no call in flight again satisfies all that runs start from |
| Reference.TimelineIsLogReversed | crates/store/src/lib.rs:254-283 | index, gather, sort and cut give the log read from its newest end, restricted to the user and whom the user follows, cut to the limit |
| Reference.CallSimulated | crates/service/src/lib.rs:107-178 | one call on the service and one on the log-based reference agree in reply and stay in correspondence |
| Reference.OneAtATimeRefinesLog | crates/service/src/lib.rs:107-178 | every reply of every one-call-at-a-time run from a new service - ids, timestamps, timelines, snapshots - is the reference's |
| Reference.ListsAppendOnly | crates/store/src/lib.rs:180-181 | in one-call-at-a-time runs each author's list is the author's part of the log in the order of acceptance; for any run see `ListsInReturnOrder` |
| Reference.RepliesDetermined | crates/service/src/lib.rs:107-178 | the reference allows one reply per call, so the refinement fixes every reply |
| Restore.StepAlike | crates/service/src/lib.rs:107-189 | services with equal users, edges, tweets, counters and clock take the same steps and stay alike, whatever their layouts |
| Restore.AnswersDetermined | crates/store/src/lib.rs:254-309 | with distinct ids a finished call has exactly one possible reply |
| Restore.TakenAloneIsTheCall | crates/service/src/lib.rs:171-178 | what a snapshot call run alone may capture: the clock, the two counters and a snapshot of the tables of one and the same state |
| Restore.LoadAlike | crates/service/src/lib.rs:171-189 | loading a snapshot taken alone gives a service like the original, ready for any run |
| Restore.RestoredServiceBisimilar | crates/service/src/lib.rs:171-189 | every run, under any interleaving, of the original after its snapshot is matched call for call and reply for reply by the restored service, and conversely |
| Restore.RestoredServiceIndistinguishable | crates/service/src/lib.rs:171-189 | the same schedule of future calls gets the same replies from both, later snapshots included |
| Restore.RestoredFromJsonBisimilar | crates/server/src/admin.rs:273-361 | the same through the JSON form, unknown fields included: it parses, and the service loaded from it matches the original run for run in both directions |
| Restore.CapturedInRange | crates/server/src/admin.rs:158-167 | what any snapshot of a run of fewer than 2^63 actions from a new service captures fits the JSON form |
| Restore.NewServiceRestoredFromJson | crates/server/src/admin.rs:273-361 | so for such runs the restore through JSON needs no hypothesis on ranges |
| Reissue.RunsIssueAbove | crates/ids/src/lib.rs:76-80 | from any loaded state, every id any interleaving of calls hands out is above the loaded counter |
| Reissue.LoadedPostNumbered | crates/service/src/lib.rs:184-189 | in any run after loading any state, ids go on from the loaded counter and dates from the loaded clock; a post with no tick before it is dated the loaded clock |
| Reissue.LoadedUserNumbered | crates/service/src/lib.rs:184-189 | user ids go on from the loaded counter |
| Reissue.TweetIdReissuedExactlyWhen | crates/service/src/lib.rs:171-189 | for any state, some run after loading it hands out the id of a loaded tweet if and only if some captured tweet's id is above the captured counter |
| Reissue.UserIdReissuedExactlyWhen | crates/service/src/lib.rs:171-189 | for any state, some run after loading it hands out the id of a loaded user if and only if the last entry for some handle has an id above the captured counter |
| Reissue.CaptureRestoresExactlyWhen | crates/service/src/lib.rs:171-189 | what a snapshot captured in any run restores is a service that every theorem on runs starts from if and only if captured counters and clock cover the captured ids and dates |
| Reissue.LoadRestsExactlyWhen | crates/service/src/lib.rs:180-189 | and for any uploaded state, if and only if its entries are sound: distinct covered ids, dates up to the clock, edges and authors among the loaded users |
| Reissue.TakenAloneNeverReissues | crates/service/src/lib.rs:171-189 | snapshots taken with no call in flight never lead to an id handed out twice, tweet or user |
| Schedules.OneAtATimeReachable | crates/service/src/lib.rs:107-178 | one-call-at-a-time runs are runs of the thread machine, so all its properties hold of them |
| Schedules.AnswerExists | crates/service/src/lib.rs:107-178 | every call that ends has a reply, so no schedule gets stuck |
| Overlap.OverlappedSnapshotReissues | crates/service/src/lib.rs:171-189 | a run whose snapshot overlaps a post and whose restored service reissues that post's id |
| Overlap.OverlappedSnapshotReissuesUserId | crates/service/src/lib.rs:171-189 | a run whose snapshot overlaps create_user and whose restored service reissues that user's id |
| Overlap.LoadOverlapsPost | crates/service/src/lib.rs:180-189 | why runs exclude a load among running calls: a sound load between two steps of a post makes it and the next post return one id |
| Json.GetIntExactly | crates/server/src/admin.rs:185-187 | an integer field is read exactly when it is there and between -2^63 and 2^63 - 1 |
| Json.UserEntry | crates/server/src/admin.rs:141-143 | a user is built as `{"id", "handle"}`, and exactly the objects with these two fields parse to it |
| Json.FollowEntry | crates/server/src/admin.rs:145-147 | an edge is built as `{"from", "to"}`, and exactly the objects with these two fields parse to it |
| Json.TweetEntry | crates/server/src/admin.rs:149-156 | a tweet is built as `{"id", "author", "text", "created_at"}`, and exactly the objects with these four fields parse to it |
| Json.StateBuilt | crates/server/src/admin.rs:158-167 | a state is built as an object of six fields, its lists entry for entry |
| Json.ParsesExactly | crates/server/src/admin.rs:227-267 | a value parses to a state if and only if it is an object that holds the three counters as i64 integers and the three lists entry by entry, whatever else it holds |
| Json.UserErrors | crates/server/src/admin.rs:184-192 | which field a user that does not parse is refused for |
| Json.FollowErrors | crates/server/src/admin.rs:194-206 | which field an edge is refused for |
| Json.TweetErrors | crates/server/src/admin.rs:208-225 | which field a tweet is refused for |
| Json.StateErrors | crates/server/src/admin.rs:227-267 | the first missing or mistyped field, in the order they are read, names the error; a list present fails with its own error |
| Json.ExtraStateFields | crates/server/src/admin.rs:227-267 | any fields under other names, added to a state object, leave the result as it was |
| Json.ExtraEntryFields | crates/server/src/admin.rs:184-225 | and so for users, edges and tweets |
| Json.UnknownFieldsIgnored | crates/server/src/admin.rs:184-267 | values that differ in unknown fields only give the same result, error or state |
| Json.RoundTrip | crates/server/src/admin.rs:158-267 | parsing what was built returns the same state, any number of users, follows and tweets |
| Json.ParseAllGood | crates/server/src/admin.rs:240-260 | a list parses to given elements exactly when each element does, in place |
| Json.ParseAllBad | crates/server/src/admin.rs:240-260 | a list fails with an error exactly when that is the error of its first element that does not parse |
| ConstantTime.AdminEq | crates/server/src/admin.rs:84-93 | true exactly when the zero-padded buffers agree and the lengths agree modulo 256 |
| ConstantTime.AdminEqExactly | crates/server/src/admin.rs:81-93 | that is equality, except when one buffer is the other followed by one or more blocks of 256 zero bytes; plain equality under 256 bytes or without zero bytes |
| ConstantTime.CutLengths | crates/server/src/admin.rs:86 | the lengths' exclusive or, cut to a byte, is zero exactly when the lengths agree modulo 256 |
| ConstantTime.MismatchedLengthsAccepted | crates/server/src/admin.rs:81-93 | buffers of different lengths that compare equal |
| ConstantTime.UiEq | crates/server/src/ui.rs:101-110 | true exactly for equal byte strings |
| Cookie.RSplitOnce | crates/server/src/ui.rs:89-94 | splits at the last dot (byte 46), or finds none |
| Cookie.Verify | crates/server/src/ui.rs:81-99 | a cookie verifies as a handle exactly when the handle is non-empty and the cookie is the handle, a dot and its hex tag; dots in the handle included |
| Html.EscapeIsOnePass | crates/server/src/ui.rs:127-133 | the five successive replacements equal one pass with one entity per character |
| Html.EscapeEach | crates/server/src/ui.rs:127-133 | escaping goes character by character: the five entities as written, every other character as it is |
| Html.EscapeSafe | crates/server/src/ui.rs:127-133 | no angle bracket or quote survives |
| Html.UnescapeEscape | crates/server/src/ui.rs:127-133 | decoding the five entities recovers the text |
| Html.EscapeInjective | crates/server/src/ui.rs:127-133 | different texts escape differently |

## Left out

- F5 (freedom from data races): Rust's type system gives it, and the model starts from whole lock acquisitions.
- Calls of `load_state` or a backward `set_now` while other calls are in flight: `LoadOverlapsPost` shows that
  F8 does not survive them. Runs start from any service at rest; `LoadRestsExactlyWhen` says which loaded
  services those are.
- Overflow of the i64 counters and clock: they are unbounded integers, since each moves by one per call; only the JSON form is limited to i64 values.
- Lock poisoning and the lock implementation: an acquisition is one atomic step. Clocks other than `Logical` appear only as the default `set_now` loop.
- The HTTP layer: routing, handlers, status codes, middleware, metrics, snapshot version window, admin token lookup, session and page rendering.
- The wording of error messages: which field an error names is modelled, the sentence around it is not.
- JSON text: parsing starts from a value tree, where a missing field and a null one are alike, as they are to the parsers modelled.
- The HMAC computation and its key: the tag is an arbitrary function to 32 hex characters.
- The contents of the ordinary handlers' JSON replies, the seed data, and the repository's own Verus shims, which restate set insertion and removal.
