/**
 * The rows of the GreenCity Connect database and the vocabulary shared by the
 * request handlers: user roles, approval status, vote types, the caller that a
 * verified bearer token stands for, and the outcomes a handler reports.
 */
module Rows {

  type UserId = nat
  type EventId = nat
  type BusinessId = nat
  type PostId = nat

  /** The `role` column of `users`: only the value 'admin' is privileged. */
  datatype Role = Member | Admin

  /** The `status` column of `events`, `businesses` and `forum_posts`. */
  datatype Status = Pending | Approved

  /** The `vote_type` column of `forum_votes`. */
  datatype VoteType = Up | Down

  /** The identity carried by a verified token: its `id`, `name` and `role` claims. */
  datatype Caller = Caller(id: UserId, name: string, role: Role)

  datatype User = User(name: string, email: string, passwordHash: string, role: Role, points: int)

  /** `date` is the ISO text `YYYY-MM-DD` the client's date input sends. */
  datatype Event = Event(title: string, date: string, description: string, limit: int, status: Status)

  datatype Business = Business(name: string, category: string, description: string, status: Status)

  datatype Post = Post(userId: UserId, userName: string, title: string, content: string,
                       board: string, status: Status, createdAt: int)

  /**
   * What a handler reports, one constructor per distinct response:
   * Ok (200/201), NotFound (404), Full (409, event full), AlreadyRegistered
   * (409, duplicate registration), InvalidType (400, unknown approval type),
   * Forbidden (403, not an admin), BadRequest (400, missing or invalid field),
   * Conflict (409, email taken) and StoreError (500, a failed statement).
   */
  datatype Outcome = Ok | NotFound | Full | AlreadyRegistered | InvalidType
                   | Forbidden | BadRequest | Conflict | StoreError

  /** The three kinds of item the admin approval queue holds. */
  datatype ItemKind = EventItem | BusinessItem | PostItem

  datatype Option<T> = None | Some(value: T)

  /** A JavaScript value used as a condition: the empty string is falsy. */
  predicate Present(s: string) {
    s != []
  }
}
