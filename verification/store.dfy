/** The site's store: the users table and the messages table, and one method
    per request handler that reads or appends to them. The logged-in user,
    which the site reads from its session, is passed in explicitly as `me`. */
module App {
  import opened Records
  import opened Identity
  import opened Messaging

  class Db {
    /** The users table, in insertion order. */
    var users: seq<User>
    /** The messages table, in insertion order. */
    var messages: seq<Message>
    /** The next fresh user id. */
    var nextUserId: nat
    /** The next fresh message id. */
    var nextMessageId: nat
    /** The clock that stamps messages; it only moves forward. */
    var clock: nat

    /** The table invariants: primary keys and usernames are unique, every
        key is below the counter that hands out the next one, messages are
        stored in strictly increasing id and timestamp order, and both ends
        of every message are stored users. */
    ghost predicate Valid()
      reads this
    {
      && DistinctIds(users)
      && DistinctUsernames(users)
      && (forall u :: u in users ==> u.id < nextUserId)
      && (forall i, j :: 0 <= i < j < |messages| ==>
            messages[i].id < messages[j].id && messages[i].timestamp < messages[j].timestamp)
      && (forall m :: m in messages ==>
            m.id < nextMessageId && m.timestamp < clock
            && HasUser(users, m.sender) && HasUser(users, m.recipient))
    }

    /** Empty tables, as `db.create_all()` leaves them on a fresh database. */
    constructor ()
      ensures Valid()
      ensures users == [] && messages == []
      ensures nextUserId == 0 && nextMessageId == 0 && clock == 0
    {
      users := [];
      messages := [];
      nextUserId := 0;
      nextMessageId := 0;
      clock := 0;
    }

    /** The table is oldest first. */
    lemma MessagesChronological()
      requires Valid()
      ensures Chronological(messages)
    {
    }

    /** `register`: refuse a username that is already stored, otherwise
        append a user with a fresh id and the password as supplied. */
    method Register(username: string, password: string) returns (r: Result<User>)
      requires Valid()
      modifies this
      ensures Valid()
      ensures messages == old(messages) && nextMessageId == old(nextMessageId) && clock == old(clock)
      ensures old(HasUsername(users, username)) ==> r == Err(UsernameTaken) && unchanged(this)
      ensures !old(HasUsername(users, username)) ==>
                && r == Ok(User(old(nextUserId), username, password))
                && users == old(users) + [r.value]
                && nextUserId == old(nextUserId) + 1
    {
      if FindByUsername(users, username).Some? {
        return Err(UsernameTaken);
      }
      var u := User(nextUserId, username, password);
      ghost var before := users;
      users := users + [u];
      nextUserId := nextUserId + 1;
      forall m | m in messages ensures HasUser(users, m.sender) && HasUser(users, m.recipient) {
        var s :| s in before && s.id == m.sender;
        var t :| t in before && t.id == m.recipient;
        assert s in users && t in users;
      }
      r := Ok(u);
    }

    /** `login`: the user whose id the site then keeps in its session. An
        unknown username and a wrong password give the same error. */
    method Login(username: string, password: string) returns (r: Result<User>)
      requires Valid()
      ensures r.Ok? <==> exists u :: u in users && u.username == username && u.passwordHash == password
      ensures r.Ok? ==> r.value in users && r.value.username == username && r.value.passwordHash == password
      ensures r.Err? ==> r.error == InvalidCredentials
    {
      AuthenticateExact(users, username, password);
      r := Authenticate(users, username, password);
    }

    /** `users`: every stored user except the one logged in. */
    method Users(me: nat) returns (r: Result<seq<User>>)
      requires Valid()
      ensures r.Ok? <==> HasUser(users, me)
      ensures r.Err? ==> r.error == NotLoggedIn
      ensures r.Ok? ==> forall u :: u in r.value <==> u in users && u.id != me
      ensures r.Ok? ==> DistinctIds(r.value) && |r.value| == |users| - 1
      ensures r.Ok? ==> r.value == ListOthers(users, me)
    {
      if FindUser(users, me).None? {
        return Err(NotLoggedIn);
      }
      ListOthersCount(users, me);
      r := Ok(ListOthers(users, me));
    }

    /** `messages`: the inbox of the logged-in user, newest first. */
    method Messages(me: nat) returns (r: Result<seq<Message>>)
      requires Valid()
      ensures r.Ok? <==> HasUser(users, me)
      ensures r.Err? ==> r.error == NotLoggedIn
      ensures r.Ok? ==> forall m :: m in r.value <==> m in messages && m.recipient == me
      ensures r.Ok? ==> NewestFirst(r.value)
      ensures r.Ok? ==> r.value == Inbox(messages, me) == Reversed(Received(messages, me))
    {
      if FindUser(users, me).None? {
        return Err(NotLoggedIn);
      }
      MessagesChronological();
      InboxNewestFirst(messages, me);
      InboxIsReversedReceived(messages, me);
      r := Ok(Inbox(messages, me));
    }

    /** Insert one message from `sender` to `recipient`, with the next fresh
        id and the current clock reading; both must be stored users. */
    method Append(sender: nat, recipient: nat, body: string) returns (m: Message)
      requires Valid() && HasUser(users, sender) && HasUser(users, recipient)
      modifies this
      ensures Valid()
      ensures m == Message(old(nextMessageId), sender, recipient, body, old(clock))
      ensures messages == old(messages) + [m]
      ensures users == old(users) && nextUserId == old(nextUserId)
      ensures nextMessageId == old(nextMessageId) + 1 && clock == old(clock) + 1
    {
      m := Message(nextMessageId, sender, recipient, body, clock);
      messages := messages + [m];
      nextMessageId := nextMessageId + 1;
      clock := clock + 1;
    }

    /** `send_message`: the recipient must exist (a 404 otherwise); then one
        message from `me` to it is appended. */
    method SendMessage(me: nat, to: nat, body: string) returns (r: Result<Message>)
      requires Valid()
      modifies this
      ensures Valid()
      ensures users == old(users) && nextUserId == old(nextUserId)
      ensures !old(HasUser(users, me)) ==> r == Err(NotLoggedIn) && unchanged(this)
      ensures old(HasUser(users, me)) && !old(HasUser(users, to)) ==> r == Err(NotFound) && unchanged(this)
      ensures old(HasUser(users, me)) && old(HasUser(users, to)) ==>
                && r == Ok(Message(old(nextMessageId), me, to, body, old(clock)))
                && messages == old(messages) + [r.value]
                && nextMessageId == old(nextMessageId) + 1 && clock == old(clock) + 1
    {
      if FindUser(users, me).None? {
        return Err(NotLoggedIn);
      }
      var recipient := FindUser(users, to);
      if recipient.None? {
        return Err(NotFound);
      }
      var m := Append(me, recipient.value.id, body);
      r := Ok(m);
    }

    /** `reply_message`: the original message must exist and so must its
        sender (a 404 otherwise); then one message from `me` to that sender
        is appended. */
    method ReplyMessage(me: nat, messageId: nat, body: string) returns (r: Result<Message>)
      requires Valid()
      modifies this
      ensures Valid()
      ensures users == old(users) && nextUserId == old(nextUserId)
      ensures !old(HasUser(users, me)) ==> r == Err(NotLoggedIn) && unchanged(this)
      ensures old(HasUser(users, me)) && !old(HasMessage(messages, messageId)) ==> r == Err(NotFound) && unchanged(this)
      ensures old(HasUser(users, me)) && old(HasMessage(messages, messageId)) ==>
                && r.Ok?
                && r.value == Message(old(nextMessageId), me, r.value.recipient, body, old(clock))
                && (exists o :: o in old(messages) && o.id == messageId && o.sender == r.value.recipient)
                && messages == old(messages) + [r.value]
                && nextMessageId == old(nextMessageId) + 1 && clock == old(clock) + 1
    {
      if FindUser(users, me).None? {
        return Err(NotLoggedIn);
      }
      var original := FindMessage(messages, messageId);
      if original.None? {
        return Err(NotFound);
      }
      var recipient := FindUser(users, original.value.sender);
      if recipient.None? {
        return Err(NotFound);
      }
      var m := Append(me, recipient.value.id, body);
      r := Ok(m);
    }

    /** `conversations`: the stored users who sent to or received from `me`,
        other than `me`, each once. */
    method Conversations(me: nat) returns (r: Result<seq<User>>)
      requires Valid()
      ensures r.Ok? <==> HasUser(users, me)
      ensures r.Err? ==> r.error == NotLoggedIn
      ensures r.Ok? ==> forall u :: u in r.value <==>
                u in users && u.id != me && exists m :: m in messages && Between(m, me, u.id)
      ensures r.Ok? ==> DistinctIds(r.value)
      ensures r.Ok? ==> r.value == UsersAmong(users, Partners(messages, me))
    {
      if FindUser(users, me).None? {
        return Err(NotLoggedIn);
      }
      r := Ok(UsersAmong(users, Partners(messages, me)));
    }

    /** `conversation` (GET): the other user must exist (a 404 otherwise);
        the messages between the two, oldest first. */
    method Conversation(me: nat, other: nat) returns (r: Result<seq<Message>>)
      requires Valid()
      ensures r.Ok? <==> HasUser(users, me) && HasUser(users, other)
      ensures !HasUser(users, me) ==> r == Err(NotLoggedIn)
      ensures HasUser(users, me) && !HasUser(users, other) ==> r == Err(NotFound)
      ensures r.Ok? ==> forall m :: m in r.value <==> m in messages && Between(m, me, other)
      ensures r.Ok? ==> Chronological(r.value)
      ensures r.Ok? ==> r.value == Thread(messages, me, other)
    {
      if FindUser(users, me).None? {
        return Err(NotLoggedIn);
      }
      if FindUser(users, other).None? {
        return Err(NotFound);
      }
      MessagesChronological();
      ThreadChronological(messages, me, other);
      r := Ok(Thread(messages, me, other));
    }

    /** `conversation` (POST): the other user must exist (a 404 otherwise);
        then one message from `me` to it is appended, which becomes the last
        message of their thread. */
    method PostToConversation(me: nat, other: nat, body: string) returns (r: Result<Message>)
      requires Valid()
      modifies this
      ensures Valid()
      ensures users == old(users) && nextUserId == old(nextUserId)
      ensures !old(HasUser(users, me)) ==> r == Err(NotLoggedIn) && unchanged(this)
      ensures old(HasUser(users, me)) && !old(HasUser(users, other)) ==> r == Err(NotFound) && unchanged(this)
      ensures old(HasUser(users, me)) && old(HasUser(users, other)) ==>
                && r == Ok(Message(old(nextMessageId), me, other, body, old(clock)))
                && messages == old(messages) + [r.value]
                && nextMessageId == old(nextMessageId) + 1 && clock == old(clock) + 1
                && Thread(messages, me, other) == old(Thread(messages, me, other)) + [r.value]
    {
      if FindUser(users, me).None? {
        return Err(NotLoggedIn);
      }
      if FindUser(users, other).None? {
        return Err(NotFound);
      }
      ghost var before := messages;
      var m := Append(me, other, body);
      ThreadAfterSend(before, m, me, other);
      r := Ok(m);
    }
  }
}
