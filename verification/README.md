# A verified model of the limam messaging site's store

The site lets people register, log in, list the other users and exchange
direct messages, each pair of users sharing one conversation. Behind its
request handlers (`app.py`) sits a store with two tables, `users` and
`messages`. This project models that store. It is a class `App.Db` that holds
both tables as sequences, with one method per handler. The logged-in user is
passed in as an explicit id `me` rather than read from a session.

- `records.dfy` (module `Records`): the `User` and `Message` rows, the error
  kinds (`UsernameTaken`, `InvalidCredentials`, `NotFound`, and `NotLoggedIn`
  for the guard that sends anonymous visitors to the login page), and the
  table predicates: distinct ids, distinct usernames, oldest-first and
  newest-first order.
- `identity.dfy` (module `Identity`): pure queries over the users table.
  These are primary-key lookup, lookup by username, the login check, the
  listing of the other users, and the users whose id is in a set.
- `messaging.dfy` (module `Messaging`): pure queries over the messages table.
  These are message lookup, the inbox, the thread between two users, the
  sent-to and received-from sub-queries and the conversation partners. The
  module also holds the lemmas about them: order, symmetry, and what one more
  message changes.
- `store.dfy` (module `App`): the class `Db`, with the tables, fresh-id
  counters, a message clock, and the invariant `Valid()`. `Valid()` says
  that:
  - user ids are unique;
  - usernames are unique;
  - message ids and timestamps strictly increase along the table;
  - both ends of every message are stored users.

  The handlers that write (`register`, `send_message`, `reply_message`, and
  the POST branch of `conversation`) are methods that append one row. The
  handlers that only read are methods that return the matching query.
- `scenario.dfy` (module `Scenario`): a client that drives a fresh store
  through its contracts alone. alice and bob register, a second "alice" is
  refused, and a wrong-password login fails. alice sends "hi" and bob
  replies "hello". The client then reads the thread, alice's conversation
  partners and bob's inbox.

Two assumptions stand in for `models.py`, which is not part of this model:

- row ids are fresh on insert: a counter hands out the next id;
- message timestamps increase with insertion order: a counter stamps
  messages.

Under the second assumption:

- the messages table is in timestamp order;
- the thread query (`order_by(timestamp.asc())`) is an order-preserving filter
  of the table;
- the inbox (`order_by(timestamp.desc())`) is the same kind of filter read
  from the newest row;
- ties cannot occur. The source's `order_by` has no second sort key and
  leaves the order of equal timestamps to the database; only the model's
  filters keep table order.

Sending never answers a missing sender with a 404. `current_user()` looks up
the session's id (app.py:12-15), and the handler redirects to the login page
when that finds nothing (app.py:78-80). Only the recipient is looked up with a
404 (app.py:81). So the model reports
`NotLoggedIn` for a missing current user and `NotFound` for a missing
recipient, message or conversation partner.

## Model

| member | source | states |
|---|---|---|
| Identity.FindUser | app.py:12-15 | the result is a stored user with that id, and it is absent exactly when no user has that id |
| Identity.FindByUsername | app.py:31 | the result is a stored user with that username, and it is absent exactly when the username is not taken |
| Identity.Authenticate | app.py:46-51 | success returns a stored user with exactly the supplied username and password; every failure is `InvalidCredentials`, whether the username is unknown or the password is wrong |
| Identity.AuthenticateExact | app.py:46-51 | with distinct usernames, login succeeds if and only if some stored user has both the supplied username and the supplied password |
| Identity.ListOthers | app.py:65 | the listing contains exactly the stored users whose id is not `me`, so never `me`; with distinct ids the listing has distinct ids |
| Identity.ListOthersCount | app.py:65 | with distinct ids, the listing is one row shorter than the table when `me` is stored, and the same length otherwise |
| Identity.UsersAmong | app.py:116 | the result contains exactly the stored users whose id is in the given set, and keeps ids distinct |
| Messaging.FindMessage | app.py:96 | the result is a stored message with that id, and it is absent exactly when no message has that id |
| Messaging.Inbox | app.py:73 | the inbox contains exactly the messages whose recipient is `me` |
| Messaging.InboxNewestFirst | app.py:73 | on an oldest-first table the inbox has non-increasing timestamps (newest first) |
| Messaging.Received | app.py:73 | the order-preserving recipient filter holds exactly the messages whose recipient is `me` |
| Messaging.ReceivedAfterSend | app.py:73-86 | one more message goes to the end of its recipient's received messages and leaves everyone else's unchanged |
| Messaging.InboxIsReversedReceived | app.py:73 | the inbox is exactly the order-preserving recipient filter read backwards, so every message to `me` appears once, newest first |
| Messaging.Thread | app.py:126-129 | the thread contains exactly the messages from `a` to `b` or from `b` to `a` |
| Messaging.ThreadChronological | app.py:126-129 | on an oldest-first table the thread has non-decreasing timestamps (oldest first) |
| Messaging.ThreadSymmetric | app.py:126-129 | the thread between `a` and `b` is the same sequence as the thread between `b` and `a` |
| Messaging.ThreadAfterSend | app.py:126-134 | one more message goes to the end of the thread of its two users and leaves every other thread unchanged |
| Messaging.SentTo | app.py:113 | the set holds exactly the recipients of messages sent by `me` |
| Messaging.ReceivedFrom | app.py:114 | the set holds exactly the senders of messages received by `me` |
| Messaging.Partners | app.py:113-115 | `p` is a partner of `me` if and only if `p` is not `me` and some message went from `me` to `p` or from `p` to `me`; as a set it holds each partner once, and a message to oneself never makes `me` its own partner |
| Messaging.PartnersSymmetric | app.py:113-115 | `b` is a partner of `a` if and only if `a` is a partner of `b` |
| Messaging.PartnerIffThread | app.py:113-129 | another user is a conversation partner of `me` if and only if the thread between the two is non-empty |
| Messaging.PartnersAfterSend | app.py:113-115 | one more message adds at most the other party to the partner sets of its sender and recipient, and never adds anyone to their own set |
| App.Db.constructor | app.py:9-10 | a fresh database has empty tables and satisfies the table invariants |
| App.Db.MessagesChronological | app.py:129 | under the invariant the messages table is in timestamp order |
| App.Db.Register | app.py:31-36 | a taken username gives `UsernameTaken` and changes nothing; otherwise exactly one user with a fresh id, that username and that password is appended; usernames stay pairwise distinct and messages are untouched |
| App.Db.Login | app.py:46-51 | login succeeds if and only if some user has exactly that username and password, returns that user, and otherwise fails with `InvalidCredentials` |
| App.Db.Users | app.py:62-65 | without a logged-in user the result is `NotLoggedIn`; otherwise it is every stored user but `me`, with distinct ids, one fewer than the table |
| App.Db.Messages | app.py:70-73 | without a logged-in user the result is `NotLoggedIn`; otherwise it is the order-preserving filter of the messages to `me` read backwards, so each message to `me` appears once, newest first |
| App.Db.Append | app.py:84-86 | exactly one message with a fresh id, the current clock reading, the given sender, recipient and body is appended; users are unchanged and the invariant is kept |
| App.Db.SendMessage | app.py:78-86 | a missing current user gives `NotLoggedIn`, and a missing recipient gives `NotFound`; in both cases nothing changes. Otherwise exactly one message from `me` to the target with that body is appended, and existing messages and all users are unchanged |
| App.Db.ReplyMessage | app.py:93-102 | a missing current user gives `NotLoggedIn`, and an unknown message id gives `NotFound`; in both cases nothing changes. The 404 for a missing sender of the original message (app.py:97) cannot happen, because the invariant keeps both ends of every stored message among the stored users. Otherwise exactly one message from `me` to the sender of that message is appended |
| App.Db.Conversations | app.py:109-116 | without a logged-in user the result is `NotLoggedIn`; otherwise it holds exactly the stored users other than `me` who sent to or received from `me`, each once |
| App.Db.Conversation | app.py:121-129 | a missing current user gives `NotLoggedIn` and a missing other user gives `NotFound`; otherwise the result holds exactly the messages between the two, oldest first |
| App.Db.PostToConversation | app.py:121-134 | the same two failures leave the store unchanged; otherwise exactly one message from `me` to the other user is appended, and it becomes the last message of their thread |
| Scenario.Registered | app.py:26-52 | a fresh store after alice and bob register (a second alice and a wrong-password login are refused along the way) holds exactly alice then bob, with consecutive ids, and no message |
| Scenario.Sent | app.py:76-86 | after alice sends "hi" to bob, the messages table holds exactly that message |
| Scenario.Exchanged | app.py:91-102 | after bob replies "hello" to alice's message, the messages table is exactly "hi" from alice to bob then "hello" from bob to alice |
| Scenario.QueriesAfterExchange | app.py:73-129 | on the final tables, the thread is ["hi", "hello"], alice's partners are [bob] and bob's inbox is ["hi"] |
| Scenario.AliceAndBob | app.py:107-136 | the whole session gives the thread ["hi", "hello"], alice's partner listing [bob] and bob's inbox ["hi"] |

## Left out

- Flask routing, the GET/POST dispatch, `render_template`, `flash`, and the `redirect`/`url_for` responses (app.py:21-24, 37-39, 87-89, 103-105, 135-136): presentation only. The GET branches of `send_message` and `reply_message` only render a form. Their 404 lookups are the same as in the POST branches, which are modelled.
- The session: `session['user_id']` set on login, `session.clear()` in `logout`, `current_user`'s session read, `inject_user` and `index` (app.py:12-24, 48, 54-58). The current user is an explicit id, and a missing one is the `NotLoggedIn` error. `logout` therefore has nothing to model.
- App.Db.Login: returns the authenticated user instead of storing its id in a session.
- Engine setup, `db.create_all()` and `app.run` (app.py:5-10, 138-139): process startup and I/O. The constructor stands for an empty database.
- Concurrency: two simultaneous `register` requests with the same username can both pass the check at app.py:31 before either commits. Each method here is one atomic step.
- Password hashing: the site has none. It stores the password in the `password_hash` column and compares it by plain equality, and the model does the same.
- `models.py` is not part of this model. Id generation and the timestamp clock are counters, under the two assumptions stated above. The database's own constraints (for example a unique index on `username`) are not modelled beyond what the handlers check.
- A form field missing from the request (`request.form[...]` raising a 400 error) is not modelled. Bodies, usernames and passwords are arbitrary strings.
- Username matching (app.py:31, 46) is an SQL equality whose treatment of case and trailing spaces depends on the database collation, which is set outside `app.py`. The model assumes an exact, character-by-character comparison.
- The listings of users and conversation partners have no `order_by` in the source. The model returns them in table order.
- Ids and timestamps are unbounded naturals; column widths and clock resolution are not modelled.
