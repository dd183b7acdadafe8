/** The two tables of the messaging site and the errors its handlers report. */
module Records {

  /** A row of the users table. `passwordHash` holds the password exactly as it
      was supplied at registration: the site applies no hashing. */
  datatype User = User(id: nat, username: string, passwordHash: string)

  /** A row of the messages table. `timestamp` is assigned by the store when
      the row is inserted and is used only for ordering. */
  datatype Message = Message(id: nat, sender: nat, recipient: nat, body: string, timestamp: nat)

  /** The conditions a handler reports instead of performing its action:
      a username that is already registered, a failed login, a 404 lookup,
      and a request without a logged-in user (which the site redirects to the
      login page). */
  datatype Error = UsernameTaken | InvalidCredentials | NotFound | NotLoggedIn

  datatype Option<T> = None | Some(value: T)

  datatype Result<T> = Ok(value: T) | Err(error: Error)

  /** Some row of `users` has primary key `id`. */
  predicate HasUser(users: seq<User>, id: nat)
  {
    exists u :: u in users && u.id == id
  }

  /** Some row of `users` has this username. */
  predicate HasUsername(users: seq<User>, username: string)
  {
    exists u :: u in users && u.username == username
  }

  /** Some row of `messages` has primary key `id`. */
  predicate HasMessage(messages: seq<Message>, id: nat)
  {
    exists m :: m in messages && m.id == id
  }

  /** No two rows of the users table share a primary key. */
  predicate DistinctIds(users: seq<User>)
  {
    forall i, j :: 0 <= i < j < |users| ==> users[i].id != users[j].id
  }

  /** No two rows of the users table share a username. */
  predicate DistinctUsernames(users: seq<User>)
  {
    forall i, j :: 0 <= i < j < |users| ==> users[i].username != users[j].username
  }

  /** Oldest first: timestamps never decrease along the sequence. */
  predicate Chronological(messages: seq<Message>)
  {
    forall i, j :: 0 <= i < j < |messages| ==> messages[i].timestamp <= messages[j].timestamp
  }

  /** Newest first: timestamps never increase along the sequence. */
  predicate NewestFirst(messages: seq<Message>)
  {
    forall i, j :: 0 <= i < j < |messages| ==> messages[i].timestamp >= messages[j].timestamp
  }
}
