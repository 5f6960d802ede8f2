/**
 * The database as the route handlers change it: one object whose fields are
 * the seven tables (and the AUTO_INCREMENT counters of the keyed ones), with
 * one method per state-changing route that runs the route's steps in order.
 * Each method is proved to answer and leave the tables exactly as the
 * transition of the same name in `Handlers` says, and to keep the database
 * invariant `Handlers.Valid`; the read routes are the functions of `Queries`
 * applied to `Tables()`.
 */
module Server {
  import opened Rows
  import opened Decimal
  import Handlers

  class Store {
    var users: map<UserId, User>
    var events: map<EventId, Event>
    var registrations: set<(UserId, EventId)>
    var businesses: map<BusinessId, Business>
    var posts: map<PostId, Post>
    var votes: map<(UserId, PostId), VoteType>
    var nextUserId: nat
    var nextEventId: nat
    var nextBusinessId: nat
    var nextPostId: nat

    /** The tables as one value. */
    function Tables(): Handlers.Db
      reads this
    {
      Handlers.Db(users, events, registrations, businesses, posts, votes,
                  nextUserId, nextEventId, nextBusinessId, nextPostId)
    }

    ghost predicate Valid()
      reads this
    {
      Handlers.Valid(Tables())
    }

    /** A fresh database: every table empty. */
    constructor ()
      ensures Valid() && Tables() == Handlers.Empty()
    {
      users, events, registrations := map[], map[], {};
      businesses, posts, votes := map[], map[], map[];
      nextUserId, nextEventId, nextBusinessId, nextPostId := 1, 1, 1, 1;
    }

    /** POST /api/auth/register. */
    method SignUp(name: string, email: string, password: string, passwordHash: string) returns (outcome: Outcome)
      requires Valid()
      modifies this
      ensures Valid()
      ensures Handlers.Reply(outcome, Tables()) == Handlers.SignUp(old(Tables()), name, email, password, passwordHash)
    {
      Handlers.SignUpKeepsEmailsUnique(Tables(), name, email, password, passwordHash);
      if !Present(name) || !Present(email) || !Present(password) {
        return BadRequest;
      }
      // SELECT email FROM users WHERE email = ?
      if Handlers.EmailTaken(users, email) {
        return Conflict;
      }
      users := users[nextUserId := User(name, email, passwordHash, Member, 0)];
      nextUserId := nextUserId + 1;
      assert Tables() == Handlers.SignUp(old(Tables()), name, email, password, passwordHash).db;
      outcome := Ok;
    }

    /** POST /api/events, behind the admin guard. */
    method CreateEvent(caller: Caller, title: string, date: string, description: string, limit: string)
      returns (outcome: Outcome)
      requires Valid()
      modifies this
      ensures Valid()
      ensures Handlers.Reply(outcome, Tables()) ==
                Handlers.CreateEvent(old(Tables()), caller, title, date, description, limit)
    {
      Handlers.CreateEventKeepsValid(Tables(), caller, title, date, description, limit);
      if !Handlers.IsAdmin(caller) {
        return Forbidden;
      }
      if !Present(title) || !Present(date) || !Present(description) || !Present(limit) {
        return BadRequest;
      }
      var n := ParseInt(limit);
      if n.None? {
        // NaN reaches the INSERT, which fails
        return StoreError;
      }
      events := events[nextEventId := Event(title, date, description, n.value, Approved)];
      nextEventId := nextEventId + 1;
      assert Tables() == Handlers.CreateEvent(old(Tables()), caller, title, date, description, limit).db;
      outcome := Ok;
    }

    /**
     * POST /api/events/:id/register: one transaction, made atomic by the
     * `FOR UPDATE` lock on the event row. Every failure rolls back, so
     * `registrations` changes only on success, and only by the caller's pair.
     */
    method Register(caller: Caller, e: EventId) returns (outcome: Outcome)
      requires Valid()
      modifies this
      ensures Valid()
      ensures Handlers.Reply(outcome, Tables()) == Handlers.Register(old(Tables()), caller.id, e)
      ensures registrations == if outcome == Ok then old(registrations) + {(caller.id, e)} else old(registrations)
    {
      Handlers.RegisterKeepsValid(Tables(), caller.id, e);
      // SELECT `limit`, participants FROM events WHERE id = ? FOR UPDATE
      if e !in events {
        return NotFound;
      }
      var limit := events[e].limit;
      var participants := Handlers.Participants(registrations, e);
      if participants >= limit {
        return Full;
      }
      // INSERT INTO event_registrations: the unique key on (user_id, event_id) refuses a duplicate
      if (caller.id, e) in registrations {
        return AlreadyRegistered;
      }
      registrations := registrations + {(caller.id, e)};
      outcome := Ok;
    }

    /** POST /api/businesses. */
    method CreateBusiness(name: string, category: string, description: string) returns (outcome: Outcome)
      requires Valid()
      modifies this
      ensures Valid()
      ensures Handlers.Reply(outcome, Tables()) == Handlers.CreateBusiness(old(Tables()), name, category, description)
    {
      if !Present(name) || !Present(category) || !Present(description) {
        return BadRequest;
      }
      businesses := businesses[nextBusinessId := Business(name, category, description, Pending)];
      nextBusinessId := nextBusinessId + 1;
      outcome := Ok;
    }

    /** POST /api/forum/posts; `now` is the database clock that fills `created_at`. */
    method CreatePost(caller: Caller, title: string, content: string, board: string, now: int) returns (outcome: Outcome)
      requires Valid()
      modifies this
      ensures Valid()
      ensures Handlers.Reply(outcome, Tables()) == Handlers.CreatePost(old(Tables()), caller, title, content, board, now)
    {
      posts := posts[nextPostId := Post(caller.id, caller.name, title, content, board, Pending, now)];
      nextPostId := nextPostId + 1;
      outcome := Ok;
    }

    /** POST /api/posts/:id/vote: the upsert on (user_id, post_id). */
    method Vote(caller: Caller, post: PostId, voteType: string) returns (outcome: Outcome)
      requires Valid()
      modifies this
      ensures Valid()
      ensures Handlers.Reply(outcome, Tables()) == Handlers.Vote(old(Tables()), caller.id, post, voteType)
    {
      var t := Handlers.ParseVote(voteType);
      if t.None? {
        return BadRequest;
      }
      votes := votes[(caller.id, post) := t.value];
      outcome := Ok;
    }

    /** POST /api/actions/log: `points = points + ?` on the caller's row. */
    method LogAction(caller: Caller, points: string, amount: int) returns (outcome: Outcome)
      requires Valid()
      modifies this
      ensures Valid()
      ensures Handlers.Reply(outcome, Tables()) == Handlers.LogAction(old(Tables()), caller, points, amount)
    {
      Handlers.LogActionKeepsValid(Tables(), caller, points, amount);
      if !Present(points) {
        return BadRequest;
      }
      if caller.id in users {
        var u := users[caller.id];
        users := users[caller.id := u.(points := u.points + amount)];
      }
      assert Tables() == Handlers.LogAction(old(Tables()), caller, points, amount).db;
      outcome := Ok;
    }

    /** POST /api/admin/approve/:type/:id, behind the admin guard. */
    method Approve(caller: Caller, kind: string, id: nat) returns (outcome: Outcome)
      requires Valid()
      modifies this
      ensures Valid()
      ensures Handlers.Reply(outcome, Tables()) == Handlers.Approve(old(Tables()), caller, kind, id)
    {
      if !Handlers.IsAdmin(caller) {
        return Forbidden;
      }
      var table := Handlers.TableFor(kind);
      if table.None? {
        return InvalidType;
      }
      // UPDATE <table> SET status = 'approved' WHERE id = ?
      match table.value {
        case EventItem =>
          if id in events {
            events := events[id := events[id].(status := Approved)];
          }
        case BusinessItem =>
          if id in businesses {
            businesses := businesses[id := businesses[id].(status := Approved)];
          }
        case PostItem =>
          if id in posts {
            posts := posts[id := posts[id].(status := Approved)];
          }
      }
      assert Tables() == Handlers.SetApproved(old(Tables()), table.value, id);
      Handlers.SetApprovedKeepsValid(old(Tables()), table.value, id);
      outcome := Ok;
    }
  }
}
