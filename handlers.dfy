/**
 * The state-changing request handlers of the GreenCity Connect API as
 * transitions of the whole database: each takes the tables before the request
 * and returns the response outcome together with the tables after it. The
 * `Store` class runs the same steps in place; the properties of the handlers
 * are stated and proved here, on values.
 *
 * Every handler behind `verifyToken` receives the already verified `Caller`.
 */
module Handlers {
  import opened Rows
  import opened Decimal

  /** The seven tables, with the next AUTO_INCREMENT value of each keyed table. */
  datatype Db = Db(
    users: map<UserId, User>,
    events: map<EventId, Event>,
    registrations: set<(UserId, EventId)>,
    businesses: map<BusinessId, Business>,
    posts: map<PostId, Post>,
    votes: map<(UserId, PostId), VoteType>,
    nextUserId: nat,
    nextEventId: nat,
    nextBusinessId: nat,
    nextPostId: nat)

  datatype Reply = Reply(outcome: Outcome, db: Db)

  /** A fresh database: every table empty, every AUTO_INCREMENT counter at 1. */
  function Empty(): (db: Db)
    ensures Valid(db)
  {
    Db(map[], map[], {}, map[], map[], map[], 1, 1, 1, 1)
  }

  // ---------------------------------------------------------------------------
  // Derived quantities and the database invariant

  /** The users holding a row of `event_registrations` for event `e`. */
  function RegisteredUsers(regs: set<(UserId, EventId)>, e: EventId): set<UserId> {
    set p | p in regs && p.1 == e :: p.0
  }

  /** `SELECT COUNT(*) FROM event_registrations WHERE event_id = e`. */
  function Participants(regs: set<(UserId, EventId)>, e: EventId): (r: nat)
    ensures r == 0 <==> forall p :: p in regs ==> p.1 != e
  {
    var users := RegisteredUsers(regs, e);
    assert users != {} <==> exists p :: p in regs && p.1 == e by {
      if exists p :: p in regs && p.1 == e {
        var p :| p in regs && p.1 == e;
        assert p.0 in users;
      }
    }
    |users|
  }

  /** The most registrations an event with this `limit` can ever hold. */
  function Capacity(limit: int): nat {
    if limit < 0 then 0 else limit
  }

  predicate EmailTaken(users: map<UserId, User>, email: string) {
    exists k :: k in users && users[k].email == email
  }

  ghost predicate EmailsUnique(users: map<UserId, User>) {
    forall a, b :: a in users && b in users && a != b ==> users[a].email != users[b].email
  }

  /**
   * What every handler keeps: keys are below their AUTO_INCREMENT counters,
   * every registration names an existing event, no event holds more
   * registrations than its limit allows, and no two users share an email.
   * Uniqueness of (user, event) registrations and of (user, post) votes is
   * structural: they are a set and a map.
   */
  ghost predicate Valid(db: Db) {
    && (forall k :: k in db.users ==> k < db.nextUserId)
    && (forall k :: k in db.events ==> k < db.nextEventId)
    && (forall k :: k in db.businesses ==> k < db.nextBusinessId)
    && (forall k :: k in db.posts ==> k < db.nextPostId)
    && (forall p :: p in db.registrations ==> p.1 in db.events)
    && (forall e :: e in db.events ==> Participants(db.registrations, e) <= Capacity(db.events[e].limit))
    && EmailsUnique(db.users)
  }

  // ---------------------------------------------------------------------------
  // restrictToAdmin

  /** The guard passes exactly the callers whose role is 'admin'. */
  predicate IsAdmin(caller: Caller) {
    caller.role == Admin
  }

  // ---------------------------------------------------------------------------
  // POST /api/auth/register

  /**
   * Sign-up. `passwordHash` is the bcrypt digest of `password`, computed
   * outside the model. The new user gets role member and zero points, the
   * values the insert leaves to the table's column defaults.
   */
  function SignUp(db: Db, name: string, email: string, password: string, passwordHash: string): (r: Reply)
    ensures !(Present(name) && Present(email) && Present(password)) ==> r == Reply(BadRequest, db)
    ensures Present(name) && Present(email) && Present(password) && EmailTaken(db.users, email)
            ==> r == Reply(Conflict, db)
    ensures r.outcome == Ok <==> Present(name) && Present(email) && Present(password) && !EmailTaken(db.users, email)
    ensures r.outcome != Ok ==> r.db == db
    ensures r.outcome == Ok ==>
              && r.db == db.(users := r.db.users, nextUserId := db.nextUserId + 1)
              && r.db.users == db.users[db.nextUserId := User(name, email, passwordHash, Member, 0)]
              && EmailTaken(r.db.users, email)
  {
    if !Present(name) || !Present(email) || !Present(password) then Reply(BadRequest, db)
    else if EmailTaken(db.users, email) then Reply(Conflict, db)
    else
      var user := User(name, email, passwordHash, Member, 0);
      assert db.users[db.nextUserId := user][db.nextUserId].email == email;
      Reply(Ok, db.(users := db.users[db.nextUserId := user], nextUserId := db.nextUserId + 1))
  }

  /** A successful sign-up adds exactly one user and keeps emails unique. */
  lemma SignUpKeepsEmailsUnique(db: Db, name: string, email: string, password: string, passwordHash: string)
    requires Valid(db)
    ensures var r := SignUp(db, name, email, password, passwordHash);
            && Valid(r.db)
            && |r.db.users| == |db.users| + (if r.outcome == Ok then 1 else 0)
  {
    var r := SignUp(db, name, email, password, passwordHash);
    if r.outcome == Ok {
      assert db.nextUserId !in db.users;
      forall a, b | a in r.db.users && b in r.db.users && a != b
        ensures r.db.users[a].email != r.db.users[b].email
      {
        if a == db.nextUserId {
          assert b in db.users;
        } else if b == db.nextUserId {
          assert a in db.users;
        }
      }
    }
  }

  // ---------------------------------------------------------------------------
  // POST /api/events (verifyToken, restrictToAdmin)

  /**
   * Event creation by an admin. Events created here are inserted already
   * approved. `limit` is the text the form sends: the presence test applies to
   * that text, and the column receives `parseInt(limit, 10)`; when that is NaN
   * the INSERT fails and the handler answers 500.
   */
  function CreateEvent(db: Db, caller: Caller, title: string, date: string, description: string, limit: string): (r: Reply)
    ensures !IsAdmin(caller) ==> r == Reply(Forbidden, db)
    ensures IsAdmin(caller) && !(Present(title) && Present(date) && Present(description) && Present(limit))
            ==> r == Reply(BadRequest, db)
    ensures (IsAdmin(caller) && Present(title) && Present(date) && Present(description) && Present(limit) &&
             ParseInt(limit) == None) ==> r == Reply(StoreError, db)
    ensures r.outcome == Ok <==>
              IsAdmin(caller) && Present(title) && Present(date) && Present(description) && ParseInt(limit).Some?
    ensures r.outcome != Ok ==> r.db == db
    ensures r.outcome == Ok ==>
              && r.db == db.(events := r.db.events, nextEventId := db.nextEventId + 1)
              && r.db.events == db.events[db.nextEventId := Event(title, date, description, ParseInt(limit).value, Approved)]
  {
    if !IsAdmin(caller) then Reply(Forbidden, db)
    else if !Present(title) || !Present(date) || !Present(description) || !Present(limit) then Reply(BadRequest, db)
    else match ParseInt(limit)
      case None => Reply(StoreError, db)
      case Some(n) =>
        var event := Event(title, date, description, n, Approved);
        Reply(Ok, db.(events := db.events[db.nextEventId := event], nextEventId := db.nextEventId + 1))
  }

  /** An admin's well-formed event whose limit is written as the numeral of `n` is stored with limit `n`. */
  lemma CreateEventStoresLimit(db: Db, caller: Caller, title: string, date: string, description: string, n: nat)
    requires IsAdmin(caller) && Present(title) && Present(date) && Present(description)
    ensures var r := CreateEvent(db, caller, title, date, description, Numeral(n));
            && r.outcome == Ok
            && r.db.events[db.nextEventId].limit == n
            && r.db.events[db.nextEventId].status == Approved
  {
    ParseNumeral(n, []);
    assert Numeral(n) + [] == Numeral(n);
  }

  /** A new event starts with no registrations, so the capacity invariant survives. */
  lemma CreateEventKeepsValid(db: Db, caller: Caller, title: string, date: string, description: string, limit: string)
    requires Valid(db)
    ensures var r := CreateEvent(db, caller, title, date, description, limit);
            && Valid(r.db)
            && (r.outcome == Ok ==> Participants(r.db.registrations, db.nextEventId) == 0)
  {
    var r := CreateEvent(db, caller, title, date, description, limit);
    if r.outcome == Ok {
      assert db.nextEventId !in db.events;
      assert RegisteredUsers(db.registrations, db.nextEventId) == {} by {
        forall p | p in db.registrations ensures p.1 != db.nextEventId { }
      }
    }
  }

  // ---------------------------------------------------------------------------
  // POST /api/events/:id/register (verifyToken), under `FOR UPDATE`

  /**
   * Capacity-guarded registration, as the single atomic step the row lock
   * makes it. The event is looked up first (absent: NotFound), then the
   * participant count is compared with the limit (count >= limit: Full), and
   * only then is the pair inserted, where the table's unique key on
   * (user_id, event_id) turns a duplicate into AlreadyRegistered. Every failure
   * rolls back, so it leaves the tables as they were. The event's approval
   * status is not consulted.
   */
  function Register(db: Db, user: UserId, e: EventId): (r: Reply)
    ensures e !in db.events ==> r == Reply(NotFound, db)
    ensures e in db.events && Participants(db.registrations, e) >= db.events[e].limit ==> r == Reply(Full, db)
    ensures e in db.events && Participants(db.registrations, e) < db.events[e].limit && (user, e) in db.registrations
            ==> r == Reply(AlreadyRegistered, db)
    ensures r.outcome == Ok <==>
              e in db.events && Participants(db.registrations, e) < db.events[e].limit && (user, e) !in db.registrations
    ensures r.outcome != Ok ==> r.db == db
    ensures r.outcome == Ok ==>
              && r.db == db.(registrations := db.registrations + {(user, e)})
              && Participants(r.db.registrations, e) == Participants(db.registrations, e) + 1
  {
    if e !in db.events then Reply(NotFound, db)
    else if Participants(db.registrations, e) >= db.events[e].limit then Reply(Full, db)
    else if (user, e) in db.registrations then Reply(AlreadyRegistered, db)
    else
      var regs := db.registrations + {(user, e)};
      AddRegistrationCount(db.registrations, user, e, e);
      Reply(Ok, db.(registrations := regs))
  }

  /** Inserting a new pair counts one more participant for its event and leaves other events alone. */
  lemma AddRegistrationCount(regs: set<(UserId, EventId)>, user: UserId, e: EventId, x: EventId)
    requires (user, e) !in regs
    ensures Participants(regs + {(user, e)}, x) == Participants(regs, x) + (if x == e then 1 else 0)
  {
    var after := RegisteredUsers(regs + {(user, e)}, x);
    var before := RegisteredUsers(regs, x);
    if x == e {
      assert user !in before;
      assert after == before + {user};
    } else {
      assert after == before;
    }
  }

  /** Registration keeps the capacity invariant for every event. */
  lemma {:induction false} RegisterKeepsValid(db: Db, user: UserId, e: EventId)
    requires Valid(db)
    ensures Valid(Register(db, user, e).db)
  {
    var r := Register(db, user, e);
    if r.outcome == Ok {
      forall x | x in r.db.events
        ensures Participants(r.db.registrations, x) <= Capacity(r.db.events[x].limit)
      {
        AddRegistrationCount(db.registrations, user, e, x);
      }
    }
  }

  /**
   * The handler never reads the event's status: a pending event with room
   * takes registrations like an approved one.
   */
  lemma RegisterIgnoresStatus(db: Db, user: UserId, e: EventId)
    requires e in db.events && Participants(db.registrations, e) < db.events[e].limit
    requires (user, e) !in db.registrations
    ensures var pending := db.(events := db.events[e := db.events[e].(status := Pending)]);
            && Register(pending, user, e).outcome == Ok
            && Register(db, user, e).outcome == Ok
  {
  }

  /** Any number of registration attempts, one after another. */
  function RegisterAll(db: Db, attempts: seq<(UserId, EventId)>): Db
    decreases |attempts|
  {
    if attempts == [] then db
    else RegisterAll(Register(db, attempts[0].0, attempts[0].1).db, attempts[1..])
  }

  /**
   * After any sequence of attempts, no event holds more registrations than its
   * limit and every registration names an existing event.
   */
  lemma {:induction false} RegisterAllWithinCapacity(db: Db, attempts: seq<(UserId, EventId)>)
    requires Valid(db)
    ensures var after := RegisterAll(db, attempts);
            && Valid(after)
            && forall e :: e in after.events ==> Participants(after.registrations, e) <= Capacity(after.events[e].limit)
    decreases |attempts|
  {
    if attempts != [] {
      RegisterKeepsValid(db, attempts[0].0, attempts[0].1);
      RegisterAllWithinCapacity(Register(db, attempts[0].0, attempts[0].1).db, attempts[1..]);
    }
  }

  /** Re-registering the same pair is refused and leaves exactly one row for it. */
  lemma RegisterTwice(db: Db, user: UserId, e: EventId)
    requires Register(db, user, e).outcome == Ok
    ensures var once := Register(db, user, e).db;
            && Register(once, user, e).outcome in {Full, AlreadyRegistered}
            && Register(once, user, e).db == once
            && (user, e) in once.registrations
  {
  }

  /** An event with limit 1 and no registrations: of two different users, the first gets in and the second finds it full. */
  lemma {:induction false} LastSeatGoesOnce(db: Db, e: EventId, first: UserId, second: UserId)
    requires e in db.events && db.events[e].limit == 1 && Participants(db.registrations, e) == 0
    ensures Register(db, first, e).outcome == Ok
    ensures Register(Register(db, first, e).db, second, e) == Reply(Full, Register(db, first, e).db)
  {
    assert (first, e) !in db.registrations by {
      assert RegisteredUsers(db.registrations, e) == {};
      assert forall p :: p in db.registrations && p.1 == e ==> p.0 in RegisteredUsers(db.registrations, e);
    }
  }

  /** An event with limit 5 and four registrations: of two newcomers, at most one gets in and the other finds it full. */
  lemma {:induction false} FifthSeatGoesOnce(db: Db, e: EventId, first: UserId, second: UserId)
    requires e in db.events && db.events[e].limit == 5 && Participants(db.registrations, e) == 4
    requires (first, e) !in db.registrations
    ensures Register(db, first, e).outcome == Ok
    ensures Register(Register(db, first, e).db, second, e) == Reply(Full, Register(db, first, e).db)
    ensures Participants(Register(db, first, e).db.registrations, e) == 5
  {
  }

  // ---------------------------------------------------------------------------
  // POST /api/businesses (verifyToken)

  /** A business submission: inserted pending, to wait for an admin's approval. */
  function CreateBusiness(db: Db, name: string, category: string, description: string): (r: Reply)
    ensures !(Present(name) && Present(category) && Present(description)) ==> r == Reply(BadRequest, db)
    ensures r.outcome == Ok <==> Present(name) && Present(category) && Present(description)
    ensures r.outcome == Ok ==>
              && r.db == db.(businesses := r.db.businesses, nextBusinessId := db.nextBusinessId + 1)
              && r.db.businesses == db.businesses[db.nextBusinessId := Business(name, category, description, Pending)]
  {
    if !Present(name) || !Present(category) || !Present(description) then Reply(BadRequest, db)
    else
      var business := Business(name, category, description, Pending);
      Reply(Ok, db.(businesses := db.businesses[db.nextBusinessId := business], nextBusinessId := db.nextBusinessId + 1))
  }

  // ---------------------------------------------------------------------------
  // POST /api/forum/posts (verifyToken)

  /**
   * A forum post: the author comes from the caller, the row is inserted
   * pending, and `now` is the database clock filling `created_at`. The handler
   * validates none of the body fields.
   */
  function CreatePost(db: Db, caller: Caller, title: string, content: string, board: string, now: int): (r: Reply)
    ensures r.outcome == Ok
    ensures r.db == db.(posts := r.db.posts, nextPostId := db.nextPostId + 1)
    ensures r.db.posts == db.posts[db.nextPostId := Post(caller.id, caller.name, title, content, board, Pending, now)]
  {
    var post := Post(caller.id, caller.name, title, content, board, Pending, now);
    Reply(Ok, db.(posts := db.posts[db.nextPostId := post], nextPostId := db.nextPostId + 1))
  }

  // ---------------------------------------------------------------------------
  // POST /api/posts/:id/vote (verifyToken)

  /** `['up', 'down'].includes(vote_type)`, as the vote it names. */
  function ParseVote(voteType: string): (r: Option<VoteType>)
    ensures r == Some(Up) <==> voteType == "up"
    ensures r == Some(Down) <==> voteType == "down"
  {
    if voteType == "up" then Some(Up)
    else if voteType == "down" then Some(Down)
    else None
  }

  /**
   * The vote upsert: `INSERT ... ON DUPLICATE KEY UPDATE vote_type = ?` on the
   * key (user_id, post_id). An unknown vote type is refused before the
   * statement runs. The post's existence is not checked.
   */
  function Vote(db: Db, user: UserId, post: PostId, voteType: string): (r: Reply)
    ensures ParseVote(voteType) == None ==> r == Reply(BadRequest, db)
    ensures ParseVote(voteType).Some? ==>
              && r.outcome == Ok
              && r.db == db.(votes := r.db.votes)
              && (user, post) in r.db.votes && r.db.votes[(user, post)] == ParseVote(voteType).value
              && r.db.votes.Keys == db.votes.Keys + {(user, post)}
              && (forall k :: k in db.votes && k != (user, post) ==> r.db.votes[k] == db.votes[k])
  {
    match ParseVote(voteType)
    case None => Reply(BadRequest, db)
    case Some(t) => Reply(Ok, db.(votes := db.votes[(user, post) := t]))
  }

  /** Repeating a vote changes nothing. */
  lemma VoteIdempotent(db: Db, user: UserId, post: PostId, voteType: string)
    ensures Vote(Vote(db, user, post, voteType).db, user, post, voteType) == Vote(db, user, post, voteType)
  {
  }

  /** A later vote by the same user on the same post replaces the earlier one. */
  lemma LatestVoteWins(db: Db, user: UserId, post: PostId, first: string, second: string)
    requires ParseVote(second).Some?
    ensures Vote(Vote(db, user, post, first).db, user, post, second) == Vote(db, user, post, second)
  {
  }

  // ---------------------------------------------------------------------------
  // POST /api/actions/log (verifyToken)

  /**
   * Point accrual: `UPDATE users SET points = points + ? WHERE id = ?`. The
   * client sends `points` as text, and the `!points` test refuses only the
   * empty text; `amount` is the number MySQL reads from that text when it
   * adds it. A caller with no row changes nothing. The sign is not checked.
   */
  function LogAction(db: Db, caller: Caller, points: string, amount: int): (r: Reply)
    ensures !Present(points) ==> r == Reply(BadRequest, db)
    ensures Present(points) ==> r.outcome == Ok
    ensures r.db == db.(users := r.db.users)
    ensures r.db.users.Keys == db.users.Keys
    ensures forall k :: k in db.users ==>
              r.db.users[k] == if Present(points) && k == caller.id
                               then db.users[k].(points := db.users[k].points + amount)
                               else db.users[k]
  {
    if !Present(points) then Reply(BadRequest, db)
    else if caller.id !in db.users then Reply(Ok, db)
    else
      var u := db.users[caller.id];
      Reply(Ok, db.(users := db.users[caller.id := u.(points := u.points + amount)]))
  }

  /** The text "0" is truthy: it passes the test, answers Ok and adds nothing. */
  lemma LogZeroText(db: Db, caller: Caller)
    ensures LogAction(db, caller, "0", 0) == Reply(Ok, db)
  {
    var r := LogAction(db, caller, "0", 0);
    assert r.db.users == db.users;
  }

  /** Point accrual changes only a points column, so the invariant is kept. */
  lemma LogActionKeepsValid(db: Db, caller: Caller, points: string, amount: int)
    requires Valid(db)
    ensures Valid(LogAction(db, caller, points, amount).db)
  {
    var after := LogAction(db, caller, points, amount).db;
    forall a, b | a in after.users && b in after.users && a != b
      ensures after.users[a].email != after.users[b].email
    {
      assert after.users[a].email == db.users[a].email && after.users[b].email == db.users[b].email;
    }
  }

  /** Logging a non-negative number of points never lowers anyone's total. */
  lemma LogActionMonotone(db: Db, caller: Caller, points: string, amount: int, k: UserId)
    requires amount >= 0 && k in db.users
    ensures k in LogAction(db, caller, points, amount).db.users
    ensures LogAction(db, caller, points, amount).db.users[k].points >= db.users[k].points
  {
  }

  // ---------------------------------------------------------------------------
  // POST /api/admin/approve/:type/:id (verifyToken, restrictToAdmin)

  /** The handler's type table `{ event: 'events', business: 'businesses', post: 'forum_posts' }`, by own key. */
  function TableFor(kind: string): (r: Option<ItemKind>)
    ensures r == Some(EventItem) <==> kind == "event"
    ensures r == Some(BusinessItem) <==> kind == "business"
    ensures r == Some(PostItem) <==> kind == "post"
  {
    if kind == "event" then Some(EventItem)
    else if kind == "business" then Some(BusinessItem)
    else if kind == "post" then Some(PostItem)
    else None
  }

  /** `UPDATE <table> SET status = 'approved' WHERE id = ?`: at most one row changes, and only its status. */
  function SetApproved(db: Db, kind: ItemKind, id: nat): (d: Db)
    ensures kind == EventItem ==>
              && d == db.(events := d.events) && d.events.Keys == db.events.Keys
              && forall k :: k in db.events ==>
                   d.events[k] == if k == id then db.events[k].(status := Approved) else db.events[k]
    ensures kind == BusinessItem ==>
              && d == db.(businesses := d.businesses) && d.businesses.Keys == db.businesses.Keys
              && forall k :: k in db.businesses ==>
                   d.businesses[k] == if k == id then db.businesses[k].(status := Approved) else db.businesses[k]
    ensures kind == PostItem ==>
              && d == db.(posts := d.posts) && d.posts.Keys == db.posts.Keys
              && forall k :: k in db.posts ==>
                   d.posts[k] == if k == id then db.posts[k].(status := Approved) else db.posts[k]
  {
    match kind
    case EventItem =>
      if id in db.events then db.(events := db.events[id := db.events[id].(status := Approved)]) else db
    case BusinessItem =>
      if id in db.businesses then db.(businesses := db.businesses[id := db.businesses[id].(status := Approved)]) else db
    case PostItem =>
      if id in db.posts then db.(posts := db.posts[id := db.posts[id].(status := Approved)]) else db
  }

  /**
   * Approval of a queued item. A non-admin is stopped by the guard, an
   * unknown type is refused, and an id with no row still answers Ok.
   */
  function Approve(db: Db, caller: Caller, kind: string, id: nat): (r: Reply)
    ensures !IsAdmin(caller) ==> r == Reply(Forbidden, db)
    ensures IsAdmin(caller) && TableFor(kind) == None ==> r == Reply(InvalidType, db)
    ensures IsAdmin(caller) && TableFor(kind).Some? ==> r == Reply(Ok, SetApproved(db, TableFor(kind).value, id))
  {
    if !IsAdmin(caller) then Reply(Forbidden, db)
    else match TableFor(kind)
      case None => Reply(InvalidType, db)
      case Some(table) => Reply(Ok, SetApproved(db, table, id))
  }

  /** Approving twice is the same as approving once. */
  lemma ApproveIdempotent(db: Db, caller: Caller, kind: string, id: nat)
    ensures Approve(Approve(db, caller, kind, id).db, caller, kind, id) == Approve(db, caller, kind, id)
  {
    if IsAdmin(caller) && TableFor(kind).Some? {
      SetApprovedIdempotent(db, TableFor(kind).value, id);
    }
  }

  /** Setting a status that is already 'approved' changes nothing. */
  lemma SetApprovedIdempotent(db: Db, kind: ItemKind, id: nat)
    ensures SetApproved(SetApproved(db, kind, id), kind, id) == SetApproved(db, kind, id)
  {
    var once := SetApproved(db, kind, id);
    match kind
    case EventItem =>
      if id in db.events {
        assert once.events[id].(status := Approved) == once.events[id];
      }
    case BusinessItem =>
      if id in db.businesses {
        assert once.businesses[id].(status := Approved) == once.businesses[id];
      }
    case PostItem =>
      if id in db.posts {
        assert once.posts[id].(status := Approved) == once.posts[id];
      }
  }

  /** Approval touches only a status column, so the invariant is kept. */
  lemma ApproveKeepsValid(db: Db, caller: Caller, kind: string, id: nat)
    requires Valid(db)
    ensures Valid(Approve(db, caller, kind, id).db)
  {
    if IsAdmin(caller) && TableFor(kind).Some? {
      SetApprovedKeepsValid(db, TableFor(kind).value, id);
    }
  }

  lemma SetApprovedKeepsValid(db: Db, kind: ItemKind, id: nat)
    requires Valid(db)
    ensures Valid(SetApproved(db, kind, id))
  {
    var d := SetApproved(db, kind, id);
    if kind == EventItem {
      forall e | e in d.events
        ensures Participants(d.registrations, e) <= Capacity(d.events[e].limit)
      {
        assert d.events[e].limit == db.events[e].limit;
      }
    }
  }

  // ---------------------------------------------------------------------------
  // The type lookup as the source writes it

  /** The names a plain JavaScript object inherits from `Object.prototype`. */
  const InheritedNames: set<string> := {
    "constructor", "hasOwnProperty", "isPrototypeOf", "propertyIsEnumerable",
    "toLocaleString", "toString", "valueOf", "__proto__",
    "__defineGetter__", "__defineSetter__", "__lookupGetter__", "__lookupSetter__"
  }

  /** What `tables[type]` yields: an own table name, an inherited (truthy) member, or undefined. */
  datatype Lookup = OwnTable(kind: ItemKind) | InheritedMember | Undefined

  function LookupAsWritten(kind: string): (r: Lookup)
    ensures r.OwnTable? <==> TableFor(kind).Some?
    ensures r == InheritedMember <==> kind in InheritedNames
  {
    match TableFor(kind)
    case Some(t) => OwnTable(t)
    case None => if kind in InheritedNames then InheritedMember else Undefined
  }

  /**
   * The approve handler exactly as written: an inherited member passes the
   * `!tableName` test, is spliced into the UPDATE as text, and the statement
   * fails, answering 500 and changing nothing.
   */
  function ApproveAsWritten(db: Db, caller: Caller, kind: string, id: nat): (r: Reply)
    ensures !IsAdmin(caller) ==> r == Reply(Forbidden, db)
    ensures IsAdmin(caller) && kind in InheritedNames ==> r == Reply(StoreError, db)
    ensures IsAdmin(caller) && kind !in InheritedNames ==> r == Approve(db, caller, kind, id)
  {
    if !IsAdmin(caller) then Reply(Forbidden, db)
    else match LookupAsWritten(kind)
      case Undefined => Reply(InvalidType, db)
      case InheritedMember => Reply(StoreError, db)
      case OwnTable(table) => Reply(Ok, SetApproved(db, table, id))
  }

  /** The type "constructor" is refused as invalid by `Approve` but reaches the database as written. */
  lemma ConstructorTypeReachesStore(db: Db, caller: Caller, id: nat)
    requires IsAdmin(caller)
    ensures ApproveAsWritten(db, caller, "constructor", id).outcome == StoreError
    ensures Approve(db, caller, "constructor", id).outcome == InvalidType
  {
  }
}
