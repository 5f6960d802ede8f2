# GreenCity Connect backend: a Dafny model of the request handlers

GreenCity Connect is a civic-engagement web application. Its Express/MySQL
backend (`Backend/server.js`) serves sign-up, eco events with capacity-limited
registration, green businesses, a forum with up/down votes, a points
leaderboard, and an admin approval queue. Every route handler is a short
sequence of SQL statements over seven tables: `users`, `events`,
`event_registrations`, `businesses`, `business_reviews`, `forum_posts` and
`forum_votes`.

This project models the handlers on an in-memory database and proves what each
one does to it.

- `rows.dfy` (module `Rows`) holds the table rows and the shared vocabulary:
  roles, approval status, vote types, the verified caller, and the response
  outcomes (`Ok`, `NotFound`, `Full`, `AlreadyRegistered`, `InvalidType`,
  `Forbidden`, `BadRequest`, `Conflict`, `StoreError`).
- `handlers.dfy` (module `Handlers`) gives each state-changing route as a
  transition `Db -> Reply(outcome, Db)`. It also holds the database invariant
  `Valid`: keys below their AUTO_INCREMENT counters, every registration naming
  an existing event, no event over its limit, and unique emails. The
  properties of the routes are proved here, including capacity preservation
  over any sequence of registrations.
- `store.dfy` (module `Server`) holds the class `Store`. Its fields are the
  tables, as maps and sets keyed by ids. It has one method per mutating route,
  and each method runs the route's steps in order. Each method is proved to
  give the same outcome and new state as its `Handlers` transition, and to
  keep `Valid`.
- `queries.dfy` (module `Queries`) gives the read routes as functions of the
  database: the event listing with participant counts, the forum listing with
  vote scores and its ordering, the top-10 leaderboard, and the admin
  pending-items list and dashboard counts. Lemmas there relate these reads to
  the writes: what approving, creating and voting do to the queue, the counts
  and the scores.
- `sorting.dfy` (module `Sorting`) holds the machinery behind `ORDER BY`: a
  stable insertion sort by a total preorder, table keys in ascending order,
  and lexicographic text order for ISO dates.
- `decimal.dfy` (module `Decimal`) holds JavaScript's `parseInt(s, 10)`, which
  event creation applies to the form's `limit` text.

Registration runs in a transaction that holds a `FOR UPDATE` row lock. It is
modelled as one atomic step, which is what the lock guarantees. Concurrent
attempts are modelled as a sequence of such steps (`RegisterAll`).

The handler never reads the event's status, so a pending event with room
accepts registrations (`Handlers.RegisterIgnoresStatus`).

## Model

| member | source | states |
|---|---|---|
| `Handlers.SignUp` | Backend/server.js:52-62 | a missing name, email or password gives BadRequest; an email already in `users` gives Conflict; both leave the tables unchanged; otherwise one user is added under the next id, with role member and zero points (the values assumed for the columns the insert leaves out) |
| `Handlers.SignUpKeepsEmailsUnique` | Backend/server.js:54-59 | sign-up keeps emails unique and the invariant; the user count grows by exactly one on success and not otherwise |
| `Server.Store.SignUp` | Backend/server.js:52-62 | runs the checks, the email lookup and the insert in order; the outcome and new tables are those of `Handlers.SignUp`, and `Valid` is kept |
| `Handlers.CreateEvent` | Backend/server.js:105-119 | a non-admin gets Forbidden; a missing title, date, description or limit text gives BadRequest; a limit that `parseInt` reads as NaN fails the insert (StoreError); all three leave the tables unchanged; otherwise one event is inserted already approved, with the parsed limit |
| `Handlers.CreateEventStoresLimit` | Backend/server.js:112-113 | an admin's event whose limit text is the numeral of n is stored approved with limit n |
| `Handlers.CreateEventKeepsValid` | Backend/server.js:112 | event creation keeps the invariant; a new event starts with no registrations |
| `Server.Store.CreateEvent` | Backend/server.js:105-119 | runs the guard, the validation, the parse and the insert in order; matches `Handlers.CreateEvent` and keeps `Valid` |
| `Decimal.ParseInt` | Backend/server.js:113 | `parseInt(s, 10)` is NaN exactly when no digit follows the leading white space and optional sign |
| `Decimal.ParseNumeral` | Backend/server.js:113 | `parseInt` of a decimal numeral of n, followed by text that does not start with a digit, is n |
| `Decimal.ParseNegativeNumeral` | Backend/server.js:113 | with a minus sign in front, the same text reads as -n |
| `Decimal.NoDigitsIsNaN` | Backend/server.js:107-113 | text without any digit passes the presence test but reads as NaN |
| `Handlers.Register` | Backend/server.js:121-150 | an unknown event gives NotFound; participants at or above the limit give Full; an existing (user, event) pair gives AlreadyRegistered; each leaves the tables unchanged (rollback); otherwise only the one pair is added, and that event's count goes up by one |
| `Handlers.Participants` | Backend/server.js:128 | the registration count of an event is zero exactly when no registration names it |
| `Handlers.AddRegistrationCount` | Backend/server.js:128-138 | inserting a new pair adds one participant to its event and changes no other event's count |
| `Handlers.RegisterKeepsValid` | Backend/server.js:133-138 | one registration keeps every event's count within its limit, and keeps every registration pointing at an existing event |
| `Handlers.RegisterAllWithinCapacity` | Backend/server.js:122-149 | after any sequence of registration attempts, no event holds more registrations than its limit allows |
| `Handlers.RegisterTwice` | Backend/server.js:138-145 | repeating a successful registration is refused (AlreadyRegistered, or Full if that registration filled the event) and changes nothing; the pair stays registered |
| `Handlers.LastSeatGoesOnce` | Backend/server.js:133-138 | for an empty event with limit 1, the first of two attempts succeeds and the second gets Full |
| `Handlers.FifthSeatGoesOnce` | Backend/server.js:133-138 | for an event with limit 5 and four participants, a newcomer gets the last seat, the count reaches 5, and the next attempt gets Full |
| `Handlers.RegisterIgnoresStatus` | Backend/server.js:128 | the handler does not read the status column: a pending event with room accepts a registration just as an approved one does |
| `Server.Store.Register` | Backend/server.js:121-150 | runs the locked lookup, the capacity test and the unique-key insert in order; matches `Handlers.Register`, keeps `Valid`, and changes `registrations` only on Ok, by the caller's pair |
| `Handlers.CreateBusiness` | Backend/server.js:166-179 | a missing name, category or description gives BadRequest and changes nothing; otherwise one business is inserted as pending |
| `Server.Store.CreateBusiness` | Backend/server.js:166-179 | matches `Handlers.CreateBusiness` and keeps `Valid` |
| `Handlers.CreatePost` | Backend/server.js:251-258 | always Ok; inserts one pending post authored by the caller, stamped with the database clock; nothing else changes |
| `Server.Store.CreatePost` | Backend/server.js:251-258 | matches `Handlers.CreatePost` and keeps `Valid` |
| `Handlers.ParseVote` | Backend/server.js:265 | only the texts "up" and "down" name a vote |
| `Handlers.Vote` | Backend/server.js:260-280 | an unknown vote type gives BadRequest and changes nothing; otherwise the upsert leaves exactly one vote for (user, post), holding the new type; other votes are unchanged and only that key can be new |
| `Handlers.VoteIdempotent` | Backend/server.js:270-274 | casting the same vote twice has the same effect as once |
| `Handlers.LatestVoteWins` | Backend/server.js:270-274 | a later valid vote by the same user on the same post overrides the earlier one |
| `Server.Store.Vote` | Backend/server.js:260-280 | matches `Handlers.Vote` and keeps `Valid` |
| `Handlers.LogAction` | Backend/server.js:199-206 | empty `points` text (falsy) gives BadRequest and changes nothing; any other text gives Ok, and only the caller's row (if any) gains the amount MySQL reads from it; no user is added or removed |
| `Handlers.LogZeroText` | Backend/server.js:202-204 | the text "0" is truthy: it passes the test, answers Ok, and changes nothing |
| `Handlers.LogActionKeepsValid` | Backend/server.js:203 | point accrual keeps the invariant |
| `Handlers.LogActionMonotone` | Backend/server.js:203 | logging a non-negative amount never lowers anyone's total |
| `Server.Store.LogAction` | Backend/server.js:199-206 | matches `Handlers.LogAction` and keeps `Valid` |
| `Handlers.TableFor` | Backend/server.js:307-309 | exactly the own keys "event", "business" and "post" select a table |
| `Handlers.SetApproved` | Backend/server.js:311 | the UPDATE changes only the status of the row with that id in that table, to approved; no row is added or removed |
| `Handlers.Approve` | Backend/server.js:304-314 | a non-admin gets Forbidden and an unknown type gets InvalidType, both with no change; otherwise Ok with `SetApproved` applied, including for an id with no row |
| `Handlers.ApproveIdempotent` | Backend/server.js:311 | approving twice is the same as approving once |
| `Handlers.SetApprovedIdempotent` | Backend/server.js:311 | running the UPDATE on a row it already approved changes nothing |
| `Handlers.ApproveKeepsValid` | Backend/server.js:311 | approval keeps the invariant, since limits are untouched |
| `Handlers.SetApprovedKeepsValid` | Backend/server.js:311 | the UPDATE of one status column keeps the invariant, in every table |
| `Server.Store.Approve` | Backend/server.js:304-314 | runs the guard, the type lookup and the UPDATE in order; matches `Handlers.Approve` and keeps `Valid` |
| `Handlers.LookupAsWritten` | Backend/server.js:307-308 | `tables[type]` yields a table for the three own keys and a truthy inherited member for the names on `Object.prototype` |
| `Handlers.ApproveAsWritten` | Backend/server.js:304-314 | the handler as written answers StoreError for an inherited name and otherwise agrees with `Handlers.Approve` |
| `Handlers.ConstructorTypeReachesStore` | Backend/server.js:308-311 | the type "constructor" passes the `!tableName` test and fails in the database, where InvalidType is intended |
| `Queries.ListEvents` | Backend/server.js:78-103 | lists exactly the approved events, with as many entries as there are approved events, each with its registration count, in date order; the viewer's registrations are exactly the viewer's pairs, and there are none without a valid token |
| `Queries.MyRegistrations` | Backend/server.js:95-96 | exactly the viewer's registered event ids, and none without a viewer; they come in key order, which the model fixes (see Left out) |
| `Queries.Where` | Backend/server.js:296-298 | a `WHERE` select yields exactly the keys whose rows satisfy the condition, each once, and as many keys as `COUNT(*)` with the same condition |
| `Queries.ListPosts` | Backend/server.js:215-249 | lists exactly the approved posts of the board (every board when none is given), with as many entries as such posts, each with score = up votes minus down votes, ordered by score descending and then created_at descending; the viewer's votes are exactly the viewer's stored votes |
| `Queries.Score` | Backend/server.js:220-221 | a post nobody voted on scores 0; a post with only up votes scores at least 0, and one with only down votes at most 0 |
| `Queries.UserVotes` | Backend/server.js:240-241 | maps each post the viewer voted on to the stored vote type |
| `Queries.VoteMovesScore` | Backend/server.js:270-274 | a vote moves its post's score by the new vote's weight minus the weight of the vote it replaces, and leaves every other post's score alone |
| `Queries.Ranking` | Backend/server.js:210 | `ORDER BY points DESC` over all users: one entry per user, each the user's current row, points never rising down the list |
| `Queries.RankingHasEveryone` | Backend/server.js:210 | every user has an entry in the ranking before the `LIMIT` is applied |
| `Queries.Leaderboard` | Backend/server.js:208-213 | at most ten entries (fewer only when there are fewer users), ordered by points descending, each the current row of a distinct user |
| `Queries.LeaderboardKeepsBest` | Backend/server.js:210 | no user left off the leaderboard has more points than anyone on it |
| `Queries.PendingEvents` | Backend/server.js:297 | exactly the pending events, each once, with their titles, as many as `COUNT(*)` of pending events |
| `Queries.PendingBusinesses` | Backend/server.js:298 | exactly the pending businesses, each once, with the name as title, as many as `COUNT(*)` of pending businesses |
| `Queries.PendingPosts` | Backend/server.js:299 | exactly the pending posts, each once, with their titles, as many as `COUNT(*)` of pending posts |
| `Queries.PendingCountIsQueueLength` | Backend/server.js:286-289 | the summed pending count equals the total length of the three pending selects |
| `Queries.PendingItems` | Backend/server.js:295-302 | lists exactly the pending events, businesses (name as title) and posts, each once, events first, then businesses, then posts; its length is the sum of the three pending counts |
| `Queries.GuardRefusesNonAdmins` | Backend/server.js:43-48 | a caller whose role is not admin gets Forbidden, with the tables unchanged, on event creation, approval, the pending list and the dashboard; an admin is never refused by the guard |
| `Queries.PendingItemsFor` | Backend/server.js:295-302 | a non-admin is refused; an admin gets exactly the pending rows |
| `Queries.DashboardStats` | Backend/server.js:282-293 | a non-admin is refused; an admin gets the user count, the approved-event count, and a pending count equal to the length of the pending-items list |
| `Queries.CountUpdate` | Backend/server.js:285-289 | writing one row moves a filtered count by the row that leaves the filter and the row that enters it |
| `Queries.ApproveLeavesQueue` | Backend/server.js:304-314 | approving removes exactly that item from the pending list and keeps every other item |
| `Queries.ApprovedLeavesQueue` | Backend/server.js:311 | after the UPDATE, an item is pending exactly when it was pending before and is not the approved row |
| `Queries.ApproveShrinksQueue` | Backend/server.js:304-314 | approving a pending item lowers the pending count by one; approving anything else leaves it unchanged |
| `Queries.ApprovedCount` | Backend/server.js:311 | the UPDATE lowers the pending count by one when it hits a pending row and leaves it unchanged otherwise |
| `Queries.CreateEventSkipsQueue` | Backend/server.js:112 | an admin-created event is approved at once: the pending rows and their count are unchanged, and the approved-event count grows by one on success |
| `Queries.AddApprovedEvent` | Backend/server.js:112 | inserting an approved event under an unused id leaves the pending rows and count alone and adds one to the approved-event count |
| `Queries.CreateBusinessJoinsQueue` | Backend/server.js:172 | a submitted business enters the pending list under its new id, and the pending count grows by one |
| `Queries.CreatePostJoinsQueue` | Backend/server.js:255 | a new forum post enters the pending list under its new id, and the pending count grows by one |

## Findings

| source | as written | input that shows it | evidently intended | confidence | as-written member | corrected member |
|---|---|---|---|---|---|---|
| Backend/server.js:307-309 | `tables[type]` on a plain object literal also finds the members inherited from `Object.prototype`, which are truthy. The `!tableName` test lets them through, they are spliced into the UPDATE text, and the statement fails with 500 | `POST /api/admin/approve/constructor/1` as an admin (likewise `toString`, `__proto__`, `valueOf`, …) | 400 "Invalid item type" for every type other than event, business and post | high (not executed) | `Handlers.ApproveAsWritten`, `Handlers.ConstructorTypeReachesStore` | `Handlers.Approve` |

## Left out

- Express routing, CORS, body parsing, the MySQL pool and the connection lifecycle (`server.js:1-28, 316`) are I/O plumbing.
- `verifyToken` and JWT signing are foreign libraries; login (`server.js:64-76`) is left out for the same reason. The caller is given as a verified `Caller(id, name, role)`. The 401/403 answers for a missing or invalid token are not modelled. On the read routes, an absent or invalid token is the `viewer` value `None`.
- bcrypt hashing is a foreign library with a random salt. The hash is a parameter of `SignUp`.
- The database clock that fills `forum_posts.created_at` is the parameter `now`.
- Row locking and transactions as concurrency mechanisms: registration is one atomic step, and concurrent attempts are a sequence of such steps.
- `GET /api/businesses` (`server.js:152-164`) averages ratings in floating point. Business reviews (`server.js:182-197`) are plain insert and select statements outside the modelled core.
- The table schema is not part of this model. Collations are not modelled: emails and boards compare as exact text, where MySQL's default collation ignores case and accents (and, in the older PAD SPACE collations, trailing spaces). Foreign keys are not modelled either: a vote on a missing post, or a registration by a user with no row, succeeds in the model. Column widths are not modelled: limits and points are unbounded integers, and numbers beyond 2^53 lose no precision.
- Other statement failures are not modelled. The only StoreError modelled is the NaN limit (and the inherited type names under Findings). Other 500 paths (a lost connection, a failed insert on sign-up) are left out.
- Ordering among ties is not modelled. The model returns ties in key order, but the contracts promise nothing about them, because the SQL leaves it open: dates for events, score and created_at for posts, points on the leaderboard.
- Key order for unordered selects is a choice of the model. `Queries.Where`, `Queries.MyRegistrations` and the three pending selects (`Queries.PendingEvents`, `Queries.PendingBusinesses`, `Queries.PendingPosts`) return keys in ascending order, and their contracts say so. The SQL at `server.js:95` and `server.js:297-299` has no `ORDER BY` and does not promise that order.
- Request bodies are text, and a missing field is the empty string, which is falsy like `undefined`. `limit` is modelled as text. The event form starts with the number 50 and sends text once the field is edited. A JSON number gives the same result as its decimal text, except that the number 0 is falsy (BadRequest) while the text "0" is not.
- Default column values are assumed, since the schema is not part of this model: a signed-up user gets role member and zero points, and the AUTO_INCREMENT keys start at 1.
- Path parameters (`:id` at `server.js:124, 262, 306`) are text that MySQL converts when it compares them with the numeric key. The model takes the key as a natural number; text that names no number is not modelled.
- `Decimal.ParseInt`: the white space skipped before the number is the ASCII set plus U+00A0, U+FEFF, U+2028 and U+2029. The other Unicode space separators that JavaScript also skips are not included.
- `Handlers.LogAction`: `points` is the text the client sends, and `amount` is the number MySQL reads from it in `points + ?`. That conversion is left to the caller, since it belongs to MySQL. Non-numeric text, which MySQL's strict mode refuses, is not modelled. A JSON number body is not modelled either; its 0 would be falsy.
- The client pages under `greencity/src` are UI and rendering glue, and the progress-bar percentage there is floating point.
