/**
 * The read handlers of the GreenCity Connect API as functions of the
 * database: the event listing with participant counts, the forum listing with
 * vote scores, the points leaderboard, and the admin approval queue with its
 * dashboard counts. Each SQL `WHERE` is a filter over a table's rows in key
 * order and each `ORDER BY` a sort by the clause's comparator; the contracts
 * state what the SQL promises and nothing about the order of ties.
 */
module Queries {
  import opened Rows
  import opened Sorting
  import opened Handlers

  // ---------------------------------------------------------------------------
  // Filtering a table

  /** The keys of `ids` whose rows satisfy `keep`, in their order in `ids`. */
  function Select<T>(m: map<nat, T>, ids: seq<nat>, keep: T -> bool): (r: seq<nat>)
    requires forall i :: i in ids ==> i in m
    ensures forall x :: x in r <==> x in ids && keep(m[x])
    ensures Increasing(ids) ==> Increasing(r)
  {
    if ids == [] then []
    else
      var rest := Select(m, ids[1..], keep);
      if keep(m[ids[0]]) then
        assert Increasing(ids) ==> Increasing([ids[0]] + rest) by {
          if Increasing(ids) {
            assert Increasing(ids[1..]);
            forall x | x in rest ensures ids[0] < x {
              var k :| 0 <= k < |ids[1..]| && ids[1..][k] == x;
              assert ids[k + 1] == x;
            }
            PrependIncreasing(ids[0], rest);
          }
        }
        [ids[0]] + rest
      else
        assert Increasing(ids) ==> Increasing(ids[1..]);
        rest
  }

  /** The keys of the rows of `m` that satisfy `keep`. */
  function Matching<T>(m: map<nat, T>, keep: T -> bool): set<nat> {
    set k | k in m && keep(m[k])
  }

  /** `SELECT COUNT(*) FROM m WHERE keep`. */
  function CountWhere<T>(m: map<nat, T>, keep: T -> bool): nat {
    |Matching(m, keep)|
  }

  /** `SELECT id FROM m WHERE keep`, in key order. */
  function Where<T>(m: map<nat, T>, keep: T -> bool): (r: seq<nat>)
    ensures forall x :: x in r <==> x in m && keep(m[x])
    ensures Increasing(r)
    ensures |r| == CountWhere(m, keep)
  {
    var r := Select(m, Ascending(m.Keys), keep);
    SelectedCount(m, keep, r);
    r
  }

  /** A list of the matching keys without repeats is as long as the count of matching rows. */
  lemma SelectedCount<T>(m: map<nat, T>, keep: T -> bool, r: seq<nat>)
    requires Increasing(r) && forall x :: x in r <==> x in m && keep(m[x])
    ensures |r| == CountWhere(m, keep)
  {
    IncreasingCard(r);
    assert Elements(r) == Matching(m, keep);
  }

  // ---------------------------------------------------------------------------
  // GET /api/events

  datatype EventView = EventView(id: EventId, event: Event, participants: nat)

  /** The listed events, and the ids of the events the viewer (if any) is registered for. */
  datatype EventListing = EventListing(events: seq<EventView>, registrations: seq<EventId>)

  predicate EventApproved(e: Event) {
    e.status == Approved
  }

  /** `ORDER BY e.date ASC`: `a` may precede `b` when its date is not later. */
  predicate NotLater(a: EventView, b: EventView) {
    TextLe(a.event.date, b.event.date)
  }

  lemma NotLaterIsPreorder()
    ensures TotalPreorder(NotLater)
  {
    forall a: EventView, b: EventView ensures NotLater(a, b) || NotLater(b, a) {
      TextLeTotal(a.event.date, b.event.date);
    }
    forall a: EventView, b: EventView, c: EventView | NotLater(a, b) && NotLater(b, c)
      ensures NotLater(a, c)
    {
      TextLeTransitive(a.event.date, b.event.date, c.event.date);
    }
  }

  function EventViewOf(db: Db, id: EventId): EventView
    requires id in db.events
  {
    EventView(id, db.events[id], Participants(db.registrations, id))
  }

  /** The event ids of the viewer's registrations; an absent or invalid token sees none. */
  function MyRegistrations(db: Db, viewer: Option<UserId>): (r: seq<EventId>)
    ensures forall e :: e in r <==> viewer.Some? && (viewer.value, e) in db.registrations
    ensures Increasing(r)
  {
    match viewer
    case None => []
    case Some(u) => Ascending(set p | p in db.registrations && p.0 == u :: p.1)
  }

  /** One view per key of `ids`, in the same order. */
  function EventViews(db: Db, ids: seq<EventId>): (r: seq<EventView>)
    requires forall k :: k in ids ==> k in db.events
    ensures |r| == |ids|
    ensures forall i :: 0 <= i < |ids| ==> r[i] == EventViewOf(db, ids[i])
  {
    seq(|ids|, i requires 0 <= i < |ids| => EventViewOf(db, ids[i]))
  }

  /** `ORDER BY e.date ASC` on already selected rows. */
  function ByDate(views: seq<EventView>): (r: seq<EventView>)
    ensures forall x :: x in r <==> x in views
    ensures |r| == |views|
    ensures forall i, j :: 0 <= i < j < |r| ==> TextLe(r[i].event.date, r[j].event.date)
  {
    NotLaterIsPreorder();
    SortBy(views, NotLater)
  }

  /** The rows the events query selects, in key order, each with its participant count. */
  function ApprovedViews(db: Db): (r: seq<EventView>)
    ensures forall v :: v in r ==> v.id in db.events && v == EventViewOf(db, v.id) && EventApproved(v.event)
    ensures forall k :: k in db.events && EventApproved(db.events[k]) ==> EventViewOf(db, k) in r
    ensures |r| == CountWhere(db.events, EventApproved)
  {
    var ids := Where(db.events, EventApproved);
    var views := EventViews(db, ids);
    forall v | v in views ensures v.id in db.events && v == EventViewOf(db, v.id) && EventApproved(v.event) {
      var i :| 0 <= i < |views| && views[i] == v;
      assert ids[i] in ids;
    }
    forall k | k in db.events && EventApproved(db.events[k]) ensures EventViewOf(db, k) in views {
      var i :| 0 <= i < |ids| && ids[i] == k;
      assert views[i] == EventViewOf(db, k);
    }
    views
  }

  /**
   * The approved events with their participant counts, by date, together
   * with the viewer's registrations.
   */
  function ListEvents(db: Db, viewer: Option<UserId>): (r: EventListing)
    ensures forall v :: v in r.events ==> v.id in db.events && v == EventViewOf(db, v.id) && EventApproved(v.event)
    ensures forall k :: k in db.events && EventApproved(db.events[k]) ==> EventViewOf(db, k) in r.events
    ensures |r.events| == CountWhere(db.events, EventApproved)
    ensures forall i, j :: 0 <= i < j < |r.events| ==> TextLe(r.events[i].event.date, r.events[j].event.date)
    ensures forall e :: e in r.registrations <==> viewer.Some? && (viewer.value, e) in db.registrations
  {
    EventListing(ByDate(ApprovedViews(db)), MyRegistrations(db, viewer))
  }

  // ---------------------------------------------------------------------------
  // GET /api/forum/posts

  /** The users whose vote on post `p` is `t`. */
  function Voters(votes: map<(UserId, PostId), VoteType>, p: PostId, t: VoteType): set<UserId> {
    set k | k in votes && k.1 == p && votes[k] == t :: k.0
  }

  /** The number of up votes minus the number of down votes on post `p`. */
  function Score(votes: map<(UserId, PostId), VoteType>, p: PostId): (r: int)
    ensures (forall k :: k in votes ==> k.1 != p) ==> r == 0
    ensures (forall k :: k in votes && k.1 == p ==> votes[k] == Up) ==> r >= 0
    ensures (forall k :: k in votes && k.1 == p ==> votes[k] == Down) ==> r <= 0
  {
    assert (forall k :: k in votes && k.1 == p ==> votes[k] == Up) ==> Voters(votes, p, Down) == {};
    assert (forall k :: k in votes && k.1 == p ==> votes[k] == Down) ==> Voters(votes, p, Up) == {};
    |Voters(votes, p, Up)| - |Voters(votes, p, Down)|
  }

  /** What one vote contributes to a score. */
  function Weight(t: VoteType): int {
    match t
    case Up => 1
    case Down => -1
  }

  /** What the user's current vote on the post (if any) contributes to its score. */
  function PriorWeight(votes: map<(UserId, PostId), VoteType>, u: UserId, p: PostId): int {
    if (u, p) in votes then Weight(votes[(u, p)]) else 0
  }

  /** Changing entry `(u, p)` to `t` moves `u` into the voters of `t` and out of the other kind's. */
  lemma VotersAfterUpsert(votes: map<(UserId, PostId), VoteType>, u: UserId, p: PostId, t: VoteType, s: VoteType)
    ensures Voters(votes[(u, p) := t], p, s) ==
              if s == t then Voters(votes, p, s) + {u} else Voters(votes, p, s) - {u}
  {
    var after := votes[(u, p) := t];
    if s == t {
      assert Voters(after, p, s) == Voters(votes, p, s) + {u} by {
        assert u in Voters(after, p, s) by { assert (u, p) in after; }
        forall v | v in Voters(votes, p, s) ensures v in Voters(after, p, s) {
          var k :| k in votes && k.1 == p && votes[k] == s && k.0 == v;
          if k != (u, p) { assert k in after && after[k] == s; }
        }
      }
    } else {
      assert Voters(after, p, s) == Voters(votes, p, s) - {u} by {
        forall v | v in Voters(votes, p, s) && v != u ensures v in Voters(after, p, s) {
          var k :| k in votes && k.1 == p && votes[k] == s && k.0 == v;
          assert k in after && after[k] == s;
        }
      }
    }
  }

  /** A user is among the voters of kind `t` on `p` exactly when their stored vote on `p` is `t`. */
  lemma VoterIff(votes: map<(UserId, PostId), VoteType>, u: UserId, p: PostId, t: VoteType)
    ensures u in Voters(votes, p, t) <==> (u, p) in votes && votes[(u, p)] == t
  {
    if u in Voters(votes, p, t) {
      var k :| k in votes && k.1 == p && votes[k] == t && k.0 == u;
      assert k == (u, p);
    }
  }

  /** Upserting `(u, p)` changes the score of `p` by the new weight minus the replaced one. */
  lemma UpsertScore(votes: map<(UserId, PostId), VoteType>, u: UserId, p: PostId, t: VoteType)
    ensures Score(votes[(u, p) := t], p) == Score(votes, p) + Weight(t) - PriorWeight(votes, u, p)
  {
    var up, down := Voters(votes, p, Up), Voters(votes, p, Down);
    VotersAfterUpsert(votes, u, p, t, Up);
    VotersAfterUpsert(votes, u, p, t, Down);
    VoterIff(votes, u, p, Up);
    VoterIff(votes, u, p, Down);
    if t == Up {
      MoveVoter(down, up, u);
    } else {
      MoveVoter(up, down, u);
    }
  }

  /** Moving a user from one set of voters into another, where they can be in at most one. */
  lemma MoveVoter(from: set<UserId>, to: set<UserId>, u: UserId)
    requires !(u in from && u in to)
    ensures |to + {u}| - |from - {u}| ==
              |to| - |from| + (if u in to then 0 else 1) + (if u in from then 1 else 0)
  {
    if u in to { assert to + {u} == to; }
    if u !in from { assert from - {u} == from; }
  }

  /** Upserting `(u, p)` leaves the voters, hence the score, of every other post alone. */
  lemma UpsertOtherScore(votes: map<(UserId, PostId), VoteType>, u: UserId, p: PostId, t: VoteType, q: PostId)
    requires q != p
    ensures Score(votes[(u, p) := t], q) == Score(votes, q)
  {
    var after := votes[(u, p) := t];
    assert Voters(after, q, Up) == Voters(votes, q, Up);
    assert Voters(after, q, Down) == Voters(votes, q, Down);
  }

  /**
   * A vote moves the score of its own post by the new vote's weight minus the
   * weight of the vote it replaces, and leaves every other post's score alone.
   */
  lemma VoteMovesScore(db: Db, u: UserId, post: PostId, voteType: string, q: PostId)
    requires ParseVote(voteType).Some?
    ensures Score(Vote(db, u, post, voteType).db.votes, q) ==
              Score(db.votes, q) +
              (if q == post then Weight(ParseVote(voteType).value) - PriorWeight(db.votes, u, post) else 0)
  {
    var t := ParseVote(voteType).value;
    assert Vote(db, u, post, voteType).db.votes == db.votes[(u, post) := t];
    if q == post {
      UpsertScore(db.votes, u, post, t);
    } else {
      UpsertOtherScore(db.votes, u, post, t, q);
    }
  }

  datatype PostView = PostView(id: PostId, post: Post, score: int)

  /** The listed posts, and the viewer's vote on each post the viewer has voted on. */
  datatype ForumListing = ForumListing(posts: seq<PostView>, userVotes: map<PostId, VoteType>)

  /** `WHERE p.status = 'approved'`, with `AND p.board = ?` when a board is given. */
  predicate Listed(board: string, p: Post) {
    p.status == Approved && (!Present(board) || p.board == board)
  }

  /** `ORDER BY score DESC, p.created_at DESC`. */
  predicate RanksAbove(a: PostView, b: PostView) {
    a.score > b.score || (a.score == b.score && a.post.createdAt >= b.post.createdAt)
  }

  lemma RanksAboveIsPreorder()
    ensures TotalPreorder(RanksAbove)
  {
  }

  function PostViewOf(db: Db, id: PostId): PostView
    requires id in db.posts
  {
    PostView(id, db.posts[id], Score(db.votes, id))
  }

  /** The viewer's votes, keyed by post; an absent or invalid token sees none. */
  function UserVotes(db: Db, viewer: Option<UserId>): (r: map<PostId, VoteType>)
    ensures forall p :: p in r <==> viewer.Some? && (viewer.value, p) in db.votes
    ensures forall p :: p in r ==> r[p] == db.votes[(viewer.value, p)]
  {
    match viewer
    case None => map[]
    case Some(u) =>
      var posts := set k | k in db.votes && k.0 == u :: k.1;
      map p | p in posts :: db.votes[(u, p)]
  }

  function PostViews(db: Db, ids: seq<PostId>): (r: seq<PostView>)
    requires forall k :: k in ids ==> k in db.posts
    ensures |r| == |ids|
    ensures forall i :: 0 <= i < |ids| ==> r[i] == PostViewOf(db, ids[i])
  {
    seq(|ids|, i requires 0 <= i < |ids| => PostViewOf(db, ids[i]))
  }

  /** `ORDER BY score DESC, p.created_at DESC` on already selected rows. */
  function ByRank(views: seq<PostView>): (r: seq<PostView>)
    ensures forall x :: x in r <==> x in views
    ensures |r| == |views|
    ensures forall i, j :: 0 <= i < j < |r| ==>
              r[i].score > r[j].score || (r[i].score == r[j].score && r[i].post.createdAt >= r[j].post.createdAt)
  {
    RanksAboveIsPreorder();
    var r := SortBy(views, RanksAbove);
    assert forall i, j :: 0 <= i < j < |r| ==> RanksAbove(r[i], r[j]);
    r
  }

  /** The forum query's `WHERE` as a row filter. */
  function ListedFilter(board: string): Post -> bool {
    (p: Post) => Listed(board, p)
  }

  function ListedIds(db: Db, board: string): (r: seq<PostId>)
    ensures forall x :: x in r <==> x in db.posts && Listed(board, db.posts[x])
    ensures |r| == CountWhere(db.posts, ListedFilter(board))
  {
    Where(db.posts, ListedFilter(board))
  }

  /** The rows the forum query selects, in key order, each with its score. */
  function ListedViews(db: Db, board: string): (r: seq<PostView>)
    ensures forall v :: v in r ==> v.id in db.posts && v == PostViewOf(db, v.id) && Listed(board, v.post)
    ensures forall k :: k in db.posts && Listed(board, db.posts[k]) ==> PostViewOf(db, k) in r
    ensures |r| == CountWhere(db.posts, ListedFilter(board))
  {
    var ids := ListedIds(db, board);
    var views := PostViews(db, ids);
    forall v | v in views ensures v.id in db.posts && v == PostViewOf(db, v.id) && Listed(board, v.post) {
      var i :| 0 <= i < |views| && views[i] == v;
      assert ids[i] in ids;
    }
    forall k | k in db.posts && Listed(board, db.posts[k]) ensures PostViewOf(db, k) in views {
      var i :| 0 <= i < |ids| && ids[i] == k;
      assert views[i] == PostViewOf(db, k);
    }
    views
  }

  /** The approved posts of `board` (all boards when it is empty), best score first, newest first among equals. */
  function ListPosts(db: Db, board: string, viewer: Option<UserId>): (r: ForumListing)
    ensures forall v :: v in r.posts ==> v.id in db.posts && v == PostViewOf(db, v.id) && Listed(board, v.post)
    ensures forall k :: k in db.posts && Listed(board, db.posts[k]) ==> PostViewOf(db, k) in r.posts
    ensures |r.posts| == CountWhere(db.posts, ListedFilter(board))
    ensures forall i, j :: 0 <= i < j < |r.posts| ==>
              r.posts[i].score > r.posts[j].score ||
              (r.posts[i].score == r.posts[j].score && r.posts[i].post.createdAt >= r.posts[j].post.createdAt)
    ensures forall v :: v in r.posts ==> v.score == |Voters(db.votes, v.id, Up)| - |Voters(db.votes, v.id, Down)|
    ensures forall p :: p in r.userVotes <==> viewer.Some? && (viewer.value, p) in db.votes
    ensures r.userVotes == UserVotes(db, viewer)
  {
    ForumListing(ByRank(ListedViews(db, board)), UserVotes(db, viewer))
  }

  // ---------------------------------------------------------------------------
  // GET /api/leaderboard

  datatype LeaderEntry = LeaderEntry(id: UserId, name: string, points: int)

  /** `LIMIT 10`. */
  const LeaderboardSize: nat := 10

  function EntryOf(users: map<UserId, User>, id: UserId): LeaderEntry
    requires id in users
  {
    LeaderEntry(id, users[id].name, users[id].points)
  }

  /** `ORDER BY points DESC`. */
  predicate NotFewerPoints(a: LeaderEntry, b: LeaderEntry) {
    a.points >= b.points
  }

  lemma NotFewerPointsIsPreorder()
    ensures TotalPreorder(NotFewerPoints)
  {
  }

  /** The entry list `r` holds a row for user `k`. */
  predicate Shows(r: seq<LeaderEntry>, k: UserId) {
    exists i :: 0 <= i < |r| && r[i].id == k
  }

  /** Every entry of `r` is the current row of an existing user. */
  predicate RowsOf(users: map<UserId, User>, r: seq<LeaderEntry>) {
    forall i :: 0 <= i < |r| ==> r[i].id in users && r[i] == EntryOf(users, r[i].id)
  }

  /** `ORDER BY points DESC` holds between every earlier and later entry. */
  predicate MostPointsFirst(r: seq<LeaderEntry>) {
    forall i, j :: 0 <= i < j < |r| ==> r[i].points >= r[j].points
  }

  /** A standings table: distinct users' current rows, most points first. */
  predicate Standings(users: map<UserId, User>, r: seq<LeaderEntry>) {
    MostPointsFirst(r) && RowsOf(users, r) && DistinctIds(r)
  }

  predicate DistinctIds(r: seq<LeaderEntry>) {
    forall i, j :: 0 <= i < j < |r| ==> r[i].id != r[j].id
  }

  /** The entries of the users `ids` names, in the same order. */
  function EntriesOf(users: map<UserId, User>, ids: seq<UserId>): (r: seq<LeaderEntry>)
    requires forall k :: k in ids ==> k in users
    ensures |r| == |ids|
    ensures forall i :: 0 <= i < |ids| ==> r[i] == EntryOf(users, ids[i])
  {
    if ids == [] then [] else [EntryOf(users, ids[0])] + EntriesOf(users, ids[1..])
  }

  /** Every user's entry, in key order, each user once. */
  function Entries(users: map<UserId, User>): (r: seq<LeaderEntry>)
    ensures |r| == |users|
    ensures RowsOf(users, r) && DistinctIds(r)
    ensures forall k :: k in users ==> Shows(r, k)
  {
    var ids := Ascending(users.Keys);
    assert |users.Keys| == |users|;
    var r := EntriesOf(users, ids);
    forall i | 0 <= i < |r| ensures r[i].id in users && r[i] == EntryOf(users, r[i].id) {
      assert r[i] == EntryOf(users, ids[i]) && ids[i] in ids;
    }
    forall i, j | 0 <= i < j < |r| ensures r[i].id != r[j].id {
      assert r[i].id == ids[i] && r[j].id == ids[j];
    }
    forall k | k in users ensures Shows(r, k) {
      var i :| 0 <= i < |ids| && ids[i] == k;
      assert r[i].id == k;
    }
    r
  }

  /** `ORDER BY points DESC` on the entries. */
  function ByPoints(entries: seq<LeaderEntry>): (r: seq<LeaderEntry>)
    ensures multiset(r) == multiset(entries)
    ensures |r| == |entries|
    ensures forall i, j :: 0 <= i < j < |r| ==> r[i].points >= r[j].points
  {
    NotFewerPointsIsPreorder();
    var r := SortBy(entries, NotFewerPoints);
    assert forall i, j :: 0 <= i < j < |r| ==> NotFewerPoints(r[i], r[j]);
    r
  }

  /** Reordering keeps every entry a user's row, each user once, and everyone present. */
  lemma RankedRows(users: map<UserId, User>, entries: seq<LeaderEntry>, ranked: seq<LeaderEntry>)
    requires RowsOf(users, entries) && DistinctIds(entries)
    requires forall k :: k in users ==> Shows(entries, k)
    requires multiset(ranked) == multiset(entries)
    ensures RowsOf(users, ranked) && DistinctIds(ranked)
    ensures forall k :: k in users ==> Shows(ranked, k)
  {
    forall x | x in ranked ensures x in entries {
      assert x in multiset(ranked);
    }
    forall x | x in entries ensures x in ranked {
      assert x in multiset(entries);
    }
    assert Distinct(entries) by {
      forall i, j | 0 <= i < j < |entries| ensures entries[i] != entries[j] {
        assert entries[i].id != entries[j].id;
      }
    }
    DistinctPermutation(entries, ranked);
    forall i | 0 <= i < |ranked| ensures ranked[i].id in users && ranked[i] == EntryOf(users, ranked[i].id) {
      assert ranked[i] in entries;
    }
    forall i, j | 0 <= i < j < |ranked| ensures ranked[i].id != ranked[j].id {
      assert ranked[i] in entries && ranked[j] in entries;
    }
    forall k | k in users ensures Shows(ranked, k) {
      var i :| 0 <= i < |entries| && entries[i].id == k;
      assert entries[i] in ranked;
      var j :| 0 <= j < |ranked| && ranked[j] == entries[i];
    }
  }

  /** The users ranked by points, most first. */
  function Ranking(users: map<UserId, User>): (r: seq<LeaderEntry>)
    ensures |r| == |users| && Standings(users, r)
  {
    var entries := Entries(users);
    var ranked := ByPoints(entries);
    RankedRows(users, entries, ranked);
    ranked
  }

  /** Every user has a place in the ranking. */
  lemma RankingHasEveryone(users: map<UserId, User>, k: UserId)
    requires k in users
    ensures Shows(Ranking(users), k)
  {
    var entries := Entries(users);
    var ranked := ByPoints(entries);
    RankedRows(users, entries, ranked);
    assert Ranking(users) == ranked;
  }

  /**
   * `SELECT id, name, points FROM users ORDER BY points DESC LIMIT 10`: the
   * ten users with the most points, most first, as many entries as there are
   * users up to ten, each the current row of a distinct user.
   */
  function Leaderboard(db: Db): (r: seq<LeaderEntry>)
    ensures |r| == if |db.users| < LeaderboardSize then |db.users| else LeaderboardSize
    ensures Standings(db.users, r)
  {
    var ranked := Ranking(db.users);
    var n := if |ranked| < LeaderboardSize then |ranked| else LeaderboardSize;
    var top := Top(ranked, n);
    PrefixKeeps(db.users, ranked, top);
    top
  }

  /** No user left off the leaderboard has more points than anyone on it. */
  lemma LeaderboardKeepsBest(db: Db, k: UserId, i: nat)
    requires k in db.users && !Shows(Leaderboard(db), k) && i < |Leaderboard(db)|
    ensures db.users[k].points <= Leaderboard(db)[i].points
  {
    RankingHasEveryone(db.users, k);
    PastTheCut(db.users, Ranking(db.users), Leaderboard(db), k, i);
  }

  /** The first `n` entries of `r`. */
  function Top(r: seq<LeaderEntry>, n: nat): (t: seq<LeaderEntry>)
    requires n <= |r|
    ensures |t| == n && forall i :: 0 <= i < n ==> t[i] == r[i]
  {
    if n == 0 then [] else Top(r, n - 1) + [r[n - 1]]
  }

  /** A prefix of a sorted list of distinct users' rows is one too. */
  lemma PrefixKeeps(users: map<UserId, User>, ranked: seq<LeaderEntry>, top: seq<LeaderEntry>)
    requires |top| <= |ranked| && forall i :: 0 <= i < |top| ==> top[i] == ranked[i]
    requires Standings(users, ranked)
    ensures Standings(users, top)
  {
  }

  /** In a list of rows sorted by points, whoever is past a cut has no more points than anyone before it. */
  lemma PastTheCut(users: map<UserId, User>, ranked: seq<LeaderEntry>, top: seq<LeaderEntry>, k: UserId, i: nat)
    requires |top| <= |ranked| && forall t :: 0 <= t < |top| ==> top[t] == ranked[t]
    requires Standings(users, ranked) && Shows(ranked, k) && k in users
    requires !Shows(top, k) && i < |top|
    ensures users[k].points <= top[i].points
  {
    var j :| 0 <= j < |ranked| && ranked[j].id == k;
    assert |top| <= j;
    assert users[k].points == ranked[j].points;
    assert top[i] == ranked[i];
  }

  // ---------------------------------------------------------------------------
  // GET /api/admin/pending-items and GET /api/admin/dashboard-stats
  // (verifyToken, restrictToAdmin)

  /** What an admin-only read answers: the guard's refusal, or the query's rows. */
  datatype Answer<T> = Refused(outcome: Outcome) | Answered(value: T)

  /** One row of the approval queue: the id, the title (a business's name) and the table it came from. */
  datatype PendingItem = PendingItem(id: nat, title: string, kind: ItemKind)

  predicate EventPending(e: Event) {
    e.status == Pending
  }

  predicate BusinessPending(b: Business) {
    b.status == Pending
  }

  predicate PostPending(p: Post) {
    p.status == Pending
  }

  /** `x` is the queue row of a pending row of its table, showing that row's title. */
  predicate IsPendingIn(db: Db, x: PendingItem) {
    match x.kind
    case EventItem =>
      x.id in db.events && EventPending(db.events[x.id]) && x.title == db.events[x.id].title
    case BusinessItem =>
      x.id in db.businesses && BusinessPending(db.businesses[x.id]) && x.title == db.businesses[x.id].name
    case PostItem =>
      x.id in db.posts && PostPending(db.posts[x.id]) && x.title == db.posts[x.id].title
  }

  /** The position of each table's rows in the concatenated queue. */
  function KindRank(k: ItemKind): nat {
    match k
    case EventItem => 0
    case BusinessItem => 1
    case PostItem => 2
  }

  /** One queue row per key of `ids`, in the same order. */
  function ItemsOf<T>(m: map<nat, T>, ids: seq<nat>, title: T -> string, kind: ItemKind): (r: seq<PendingItem>)
    requires forall k :: k in ids ==> k in m
    ensures |r| == |ids|
    ensures forall i :: 0 <= i < |ids| ==> r[i] == PendingItem(ids[i], title(m[ids[i]]), kind)
  {
    seq(|ids|, i requires 0 <= i < |ids| => PendingItem(ids[i], title(m[ids[i]]), kind))
  }

  /** The rows of one table's query: exactly its pending rows, each once, all of one kind. */
  predicate QueueOf(db: Db, r: seq<PendingItem>, kind: ItemKind) {
    && (forall i :: 0 <= i < |r| ==> r[i].kind == kind && IsPendingIn(db, r[i]))
    && (forall i, j :: 0 <= i < j < |r| ==> r[i].id < r[j].id)
  }

  function PendingEvents(db: Db): (r: seq<PendingItem>)
    ensures QueueOf(db, r, EventItem)
    ensures forall x: PendingItem :: x.kind == EventItem && IsPendingIn(db, x) ==> x in r
    ensures |r| == CountWhere(db.events, EventPending)
  {
    var ids := Where(db.events, EventPending);
    var r := ItemsOf(db.events, ids, (e: Event) => e.title, EventItem);
    forall i | 0 <= i < |r| ensures r[i].kind == EventItem && IsPendingIn(db, r[i]) {
      assert ids[i] in ids;
      assert r[i] == PendingItem(ids[i], db.events[ids[i]].title, EventItem);
    }
    forall x: PendingItem | x.kind == EventItem && IsPendingIn(db, x) ensures x in r {
      var i :| 0 <= i < |ids| && ids[i] == x.id;
      assert r[i] == x;
    }
    r
  }

  function PendingBusinesses(db: Db): (r: seq<PendingItem>)
    ensures QueueOf(db, r, BusinessItem)
    ensures forall x: PendingItem :: x.kind == BusinessItem && IsPendingIn(db, x) ==> x in r
    ensures |r| == CountWhere(db.businesses, BusinessPending)
  {
    var ids := Where(db.businesses, BusinessPending);
    var r := ItemsOf(db.businesses, ids, (b: Business) => b.name, BusinessItem);
    forall i | 0 <= i < |r| ensures r[i].kind == BusinessItem && IsPendingIn(db, r[i]) {
      assert ids[i] in ids;
      assert r[i] == PendingItem(ids[i], db.businesses[ids[i]].name, BusinessItem);
    }
    forall x: PendingItem | x.kind == BusinessItem && IsPendingIn(db, x) ensures x in r {
      var i :| 0 <= i < |ids| && ids[i] == x.id;
      assert r[i] == x;
    }
    r
  }

  function PendingPosts(db: Db): (r: seq<PendingItem>)
    ensures QueueOf(db, r, PostItem)
    ensures forall x: PendingItem :: x.kind == PostItem && IsPendingIn(db, x) ==> x in r
    ensures |r| == CountWhere(db.posts, PostPending)
  {
    var ids := Where(db.posts, PostPending);
    var r := ItemsOf(db.posts, ids, (p: Post) => p.title, PostItem);
    forall i | 0 <= i < |r| ensures r[i].kind == PostItem && IsPendingIn(db, r[i]) {
      assert ids[i] in ids;
      assert r[i] == PendingItem(ids[i], db.posts[ids[i]].title, PostItem);
    }
    forall x: PendingItem | x.kind == PostItem && IsPendingIn(db, x) ensures x in r {
      var i :| 0 <= i < |ids| && ids[i] == x.id;
      assert r[i] == x;
    }
    r
  }

  /** The number of rows the three `status='pending'` counts add up to. */
  function PendingCount(db: Db): nat {
    CountWhere(db.events, EventPending) + CountWhere(db.businesses, BusinessPending) + CountWhere(db.posts, PostPending)
  }

  /** The summed count is the total length of the three pending selects. */
  lemma PendingCountIsQueueLength(db: Db)
    ensures PendingCount(db) == |PendingEvents(db)| + |PendingBusinesses(db)| + |PendingPosts(db)|
  {
  }

  /**
   * The approval queue: the pending events, then the pending businesses, then
   * the pending posts. It lists exactly the pending rows, each once.
   */
  function PendingItems(db: Db): (r: seq<PendingItem>)
    ensures forall x :: x in r <==> IsPendingIn(db, x)
    ensures InQueueOrder(r)
    ensures |r| == PendingCount(db)
  {
    var a, b, c := PendingEvents(db), PendingBusinesses(db), PendingPosts(db);
    QueuesJoin(db, a, b, c);
    forall x: PendingItem | IsPendingIn(db, x) ensures x in a + b + c {
      if x.kind == EventItem { assert x in a; }
      else if x.kind == BusinessItem { assert x in b; }
      else { assert x in c; }
    }
    a + b + c
  }

  /** Rows of earlier tables come first, and no row appears twice. */
  predicate InQueueOrder(r: seq<PendingItem>) {
    forall i, j :: 0 <= i < j < |r| ==>
      KindRank(r[i].kind) <= KindRank(r[j].kind) && (r[i].kind != r[j].kind || r[i].id != r[j].id)
  }

  /** Concatenating the three tables' queues keeps each row once and the tables in order. */
  lemma QueuesJoin(db: Db, a: seq<PendingItem>, b: seq<PendingItem>, c: seq<PendingItem>)
    requires QueueOf(db, a, EventItem) && QueueOf(db, b, BusinessItem) && QueueOf(db, c, PostItem)
    ensures forall x :: x in a + b + c ==> IsPendingIn(db, x)
    ensures InQueueOrder(a + b + c)
  {
    forall x | x in a + b + c ensures IsPendingIn(db, x) {
      if x in a {
        var i :| 0 <= i < |a| && a[i] == x;
      } else if x in b {
        var i :| 0 <= i < |b| && b[i] == x;
      } else {
        var i :| 0 <= i < |c| && c[i] == x;
      }
    }
    OneTableInOrder(db, a, EventItem);
    OneTableInOrder(db, b, BusinessItem);
    OneTableInOrder(db, c, PostItem);
    JoinInOrder(a, b);
    JoinInOrder(a + b, c);
  }

  lemma OneTableInOrder(db: Db, r: seq<PendingItem>, kind: ItemKind)
    requires QueueOf(db, r, kind)
    ensures InQueueOrder(r) && forall x :: x in r ==> x.kind == kind
  {
  }

  /** Two queues in order, the first's tables all before the second's, join into one in order. */
  lemma JoinInOrder(r: seq<PendingItem>, s: seq<PendingItem>)
    requires InQueueOrder(r) && InQueueOrder(s)
    requires forall x, y :: x in r && y in s ==> KindRank(x.kind) < KindRank(y.kind)
    ensures InQueueOrder(r + s)
  {
    var t := r + s;
    forall i, j | 0 <= i < j < |t|
      ensures KindRank(t[i].kind) <= KindRank(t[j].kind) && (t[i].kind != t[j].kind || t[i].id != t[j].id)
    {
      if j < |r| {
        assert t[i] == r[i] && t[j] == r[j];
      } else if i < |r| {
        assert t[i] == r[i] && t[j] == s[j - |r|];
        assert r[i] in r && s[j - |r|] in s;
      } else {
        assert t[i] == s[i - |r|] && t[j] == s[j - |r|];
      }
    }
  }

  /**
   * `restrictToAdmin` runs before every admin route: a caller whose role is not
   * 'admin' is refused on each of them with the tables unchanged, and an admin
   * is never refused by it.
   */
  lemma GuardRefusesNonAdmins(db: Db, caller: Caller, title: string, date: string, description: string,
                              limit: string, kind: string, id: nat)
    ensures caller.role != Admin ==>
              && CreateEvent(db, caller, title, date, description, limit) == Reply(Forbidden, db)
              && Approve(db, caller, kind, id) == Reply(Forbidden, db)
              && PendingItemsFor(db, caller) == Refused(Forbidden)
              && DashboardStats(db, caller) == Refused(Forbidden)
    ensures caller.role == Admin ==>
              && CreateEvent(db, caller, title, date, description, limit).outcome != Forbidden
              && Approve(db, caller, kind, id).outcome != Forbidden
              && PendingItemsFor(db, caller).Answered?
              && DashboardStats(db, caller).Answered?
  {
  }

  /** The pending-items handler: refused unless the caller is an admin. */
  function PendingItemsFor(db: Db, caller: Caller): (r: Answer<seq<PendingItem>>)
    ensures !IsAdmin(caller) <==> r == Refused(Forbidden)
    ensures r.Answered? ==> forall x :: x in r.value <==> IsPendingIn(db, x)
  {
    if !IsAdmin(caller) then Refused(Forbidden) else Answered(PendingItems(db))
  }

  datatype Stats = Stats(totalUsers: nat, totalEvents: nat, pendingItems: nat)

  /**
   * The dashboard counts: all users, approved events, and pending rows of the
   * three tables. The pending count is the length of the approval queue.
   */
  function DashboardStats(db: Db, caller: Caller): (r: Answer<Stats>)
    ensures !IsAdmin(caller) <==> r == Refused(Forbidden)
    ensures r.Answered? ==>
              && r.value.totalUsers == |db.users|
              && r.value.totalEvents == CountWhere(db.events, EventApproved)
              && r.value.pendingItems == |PendingItems(db)|
  {
    if !IsAdmin(caller) then Refused(Forbidden)
    else Answered(Stats(|db.users|, CountWhere(db.events, EventApproved), PendingCount(db)))
  }

  /** Writing row `k` moves a filtered count by what leaves and what enters the filter. */
  lemma CountUpdate<T>(m: map<nat, T>, keep: T -> bool, k: nat, v: T)
    ensures CountWhere(m[k := v], keep) ==
              CountWhere(m, keep) - (if k in m && keep(m[k]) then 1 else 0) + (if keep(v) then 1 else 0)
  {
    var before := Matching(m, keep);
    var after := Matching(m[k := v], keep);
    MatchingElsewhere(m, keep, k, v);
    CountWithout(before, k);
    CountWithout(after, k);
    assert k in before <==> k in m && keep(m[k]);
    assert k in after <==> keep(v);
  }

  /** Writing row `k` leaves which other rows match unchanged. */
  lemma MatchingElsewhere<T>(m: map<nat, T>, keep: T -> bool, k: nat, v: T)
    ensures Matching(m[k := v], keep) - {k} == Matching(m, keep) - {k}
  {
    var before := Matching(m, keep);
    var after := Matching(m[k := v], keep);
    forall x | x != k ensures x in after <==> x in before {
      assert x in m[k := v] <==> x in m;
      assert x in m ==> m[k := v][x] == m[x];
    }
  }

  lemma CountWithout(s: set<nat>, k: nat)
    ensures |s| == |s - {k}| + (if k in s then 1 else 0)
  {
    if k in s {
      assert s == (s - {k}) + {k};
    } else {
      assert s - {k} == s;
    }
  }

  /** Approving an item removes exactly that item from the queue. */
  lemma ApproveLeavesQueue(db: Db, caller: Caller, kind: string, id: nat, x: PendingItem)
    requires IsAdmin(caller) && TableFor(kind).Some?
    ensures var after := Approve(db, caller, kind, id).db;
            x in PendingItems(after) <==> x in PendingItems(db) && !(x.kind == TableFor(kind).value && x.id == id)
  {
    ApprovedLeavesQueue(db, TableFor(kind).value, id, x);
  }

  /** After the status update, an item is pending exactly when it was and is not the approved row. */
  lemma ApprovedLeavesQueue(db: Db, t: ItemKind, id: nat, x: PendingItem)
    ensures IsPendingIn(SetApproved(db, t, id), x) <==> IsPendingIn(db, x) && !(x.kind == t && x.id == id)
  {
    var after := SetApproved(db, t, id);
    if x.kind == EventItem && x.id in db.events {
      assert after.events[x.id] == if t == EventItem && x.id == id then db.events[x.id].(status := Approved) else db.events[x.id];
    } else if x.kind == BusinessItem && x.id in db.businesses {
      assert after.businesses[x.id] ==
        if t == BusinessItem && x.id == id then db.businesses[x.id].(status := Approved) else db.businesses[x.id];
    } else if x.kind == PostItem && x.id in db.posts {
      assert after.posts[x.id] == if t == PostItem && x.id == id then db.posts[x.id].(status := Approved) else db.posts[x.id];
    }
  }

  /** Table `kind` holds a pending row under `id`. */
  predicate PendingRow(db: Db, kind: ItemKind, id: nat) {
    match kind
    case EventItem => id in db.events && EventPending(db.events[id])
    case BusinessItem => id in db.businesses && BusinessPending(db.businesses[id])
    case PostItem => id in db.posts && PostPending(db.posts[id])
  }

  /** Approving a pending item shortens the queue, and the dashboard count, by one; otherwise it stays. */
  lemma ApproveShrinksQueue(db: Db, caller: Caller, kind: string, id: nat)
    requires IsAdmin(caller) && TableFor(kind).Some?
    ensures var after := Approve(db, caller, kind, id).db;
            PendingCount(after) == PendingCount(db) - (if PendingRow(db, TableFor(kind).value, id) then 1 else 0)
  {
    ApprovedCount(db, TableFor(kind).value, id);
  }

  lemma ApprovedCount(db: Db, t: ItemKind, id: nat)
    ensures PendingCount(SetApproved(db, t, id)) == PendingCount(db) - (if PendingRow(db, t, id) then 1 else 0)
  {
    if t == EventItem && id in db.events {
      CountUpdate(db.events, EventPending, id, db.events[id].(status := Approved));
    } else if t == BusinessItem && id in db.businesses {
      CountUpdate(db.businesses, BusinessPending, id, db.businesses[id].(status := Approved));
    } else if t == PostItem && id in db.posts {
      CountUpdate(db.posts, PostPending, id, db.posts[id].(status := Approved));
    }
  }

  /** Events an admin creates are approved at once: the queue is unchanged and the approved count grows by one. */
  lemma CreateEventSkipsQueue(db: Db, caller: Caller, title: string, date: string, description: string, limit: string)
    requires Valid(db)
    ensures var r := CreateEvent(db, caller, title, date, description, limit);
            && (forall x :: IsPendingIn(r.db, x) <==> IsPendingIn(db, x))
            && PendingCount(r.db) == PendingCount(db)
            && CountWhere(r.db.events, EventApproved) ==
                 CountWhere(db.events, EventApproved) + (if r.outcome == Ok then 1 else 0)
  {
    var r := CreateEvent(db, caller, title, date, description, limit);
    if r.outcome == Ok {
      var k := db.nextEventId;
      assert k !in db.events;
      AddApprovedEvent(db, r.db, k, r.db.events[k]);
    }
  }

  /** An approved event stored under an unused key leaves the queue alone and adds one approved event. */
  lemma AddApprovedEvent(db: Db, after: Db, k: EventId, e: Event)
    requires k !in db.events && e.status == Approved
    requires after == db.(events := db.events[k := e], nextEventId := after.nextEventId)
    ensures forall x :: IsPendingIn(after, x) <==> IsPendingIn(db, x)
    ensures PendingCount(after) == PendingCount(db)
    ensures CountWhere(after.events, EventApproved) == CountWhere(db.events, EventApproved) + 1
  {
    CountUpdate(db.events, EventPending, k, e);
    CountUpdate(db.events, EventApproved, k, e);
    forall x: PendingItem ensures IsPendingIn(after, x) <==> IsPendingIn(db, x) {
      if x.kind == EventItem && x.id == k {
        assert !IsPendingIn(after, x) && !IsPendingIn(db, x);
      }
    }
  }

  /** A submitted business joins the queue under its new id, and the queue grows by one. */
  lemma CreateBusinessJoinsQueue(db: Db, name: string, category: string, description: string)
    requires Valid(db)
    requires CreateBusiness(db, name, category, description).outcome == Ok
    ensures var after := CreateBusiness(db, name, category, description).db;
            && IsPendingIn(after, PendingItem(db.nextBusinessId, name, BusinessItem))
            && !IsPendingIn(db, PendingItem(db.nextBusinessId, name, BusinessItem))
            && PendingCount(after) == PendingCount(db) + 1
  {
    var after := CreateBusiness(db, name, category, description).db;
    var k := db.nextBusinessId;
    assert k !in db.businesses;
    assert IsPendingIn(after, PendingItem(k, name, BusinessItem));
    CountUpdate(db.businesses, BusinessPending, k, after.businesses[k]);
  }

  /** A new forum post joins the queue under its new id, and the queue grows by one. */
  lemma CreatePostJoinsQueue(db: Db, caller: Caller, title: string, content: string, board: string, now: int)
    requires Valid(db)
    ensures var after := CreatePost(db, caller, title, content, board, now).db;
            && IsPendingIn(after, PendingItem(db.nextPostId, title, PostItem))
            && !IsPendingIn(db, PendingItem(db.nextPostId, title, PostItem))
            && PendingCount(after) == PendingCount(db) + 1
  {
    var after := CreatePost(db, caller, title, content, board, now).db;
    var k := db.nextPostId;
    assert k !in db.posts;
    assert IsPendingIn(after, PendingItem(k, title, PostItem));
    CountUpdate(db.posts, PostPending, k, after.posts[k]);
  }
}
