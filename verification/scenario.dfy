/** A session on a fresh site, driven only through the store's contracts:
    two users register, one sends a message and the other replies. */
module Scenario {
  import opened Records
  import opened Identity
  import opened Messaging
  import opened App

  const Alice := User(0, "alice", "pw-a")
  const Bob := User(1, "bob", "pw-b")
  const Hi := Message(0, 0, 1, "hi", 0)
  const Hello := Message(1, 1, 0, "hello", 1)

  /** alice registers, a second "alice" is refused, bob registers, and a
      login with bob's password under alice's name fails. */
  method Registered() returns (db: Db)
    ensures fresh(db) && db.Valid()
    ensures db.users == [Alice, Bob] && db.messages == []
    ensures db.nextMessageId == 0 && db.clock == 0
  {
    db := new Db();
    var alice := db.Register("alice", "pw-a");
    assert alice == Ok(Alice) && db.users == [Alice];
    assert Alice in db.users;
    var again := db.Register("alice", "other");
    assert again == Err(UsernameTaken);
    assert "alice" != "bob" by { assert "alice"[0] != "bob"[0]; }
    var bob := db.Register("bob", "pw-b");
    assert bob == Ok(Bob) && db.users == [Alice, Bob];
    var wrong := db.Login("alice", "pw-b");
    assert wrong == Err(InvalidCredentials);
  }

  /** alice sends bob "hi". */
  method Sent() returns (db: Db)
    ensures fresh(db) && db.Valid()
    ensures db.users == [Alice, Bob] && db.messages == [Hi]
    ensures db.nextMessageId == 1 && db.clock == 1
  {
    db := Registered();
    assert Alice in db.users && Bob in db.users;
    var hi := db.SendMessage(0, 1, "hi");
    assert hi == Ok(Hi);
  }

  /** bob replies "hello" to alice's message. */
  method Exchanged() returns (db: Db)
    ensures fresh(db) && db.Valid()
    ensures db.users == [Alice, Bob] && db.messages == [Hi, Hello]
  {
    db := Sent();
    assert HasUser(db.users, 1) by { assert Bob in db.users; }
    assert HasMessage(db.messages, 0) by { assert Hi in db.messages; }
    var hello := db.ReplyMessage(1, 0, "hello");
    assert hello.value.recipient == 0 by {
      var o :| o in [Hi] && o.id == 0 && o.sender == hello.value.recipient;
    }
  }

  /** After the exchange, the thread between them holds both messages oldest
      first, bob is alice's only conversation partner, and bob's inbox holds
      alice's message. */
  method AliceAndBob() returns (thread: seq<Message>, alicePartners: seq<User>, bobInbox: seq<Message>)
    ensures thread == [Hi, Hello]
    ensures alicePartners == [Bob]
    ensures bobInbox == [Hi]
  {
    var db := Exchanged();
    assert Alice in db.users && Bob in db.users;
    QueriesAfterExchange();
    var t := db.Conversation(0, 1);
    var p := db.Conversations(0);
    var inbox := db.Messages(1);
    thread, alicePartners, bobInbox := t.value, p.value, inbox.value;
  }

  /** The three queries of the scenario, evaluated on its final tables. */
  lemma QueriesAfterExchange()
    ensures Thread([Hi, Hello], 0, 1) == [Hi, Hello]
    ensures UsersAmong([Alice, Bob], Partners([Hi, Hello], 0)) == [Bob]
    ensures Inbox([Hi, Hello], 1) == [Hi]
  {
    assert [Hi, Hello][1..] == [Hello] && [Hello][1..] == [];
    assert Thread([Hello], 0, 1) == [Hello] + Thread([], 0, 1);
    assert Partners([Hi, Hello], 0) == {1} by {
      assert Hi in [Hi, Hello];
    }
    assert [Alice, Bob][1..] == [Bob] && [Bob][1..] == [];
    assert UsersAmong([Bob], {1}) == [Bob] + UsersAmong([], {1});
    assert UsersAmong([Alice, Bob], {1}) == UsersAmong([Bob], {1});
    assert [Hi, Hello][..1] == [Hi] && [Hi][..0] == [];
    assert Inbox([Hi], 1) == [Hi] + Inbox([], 1);
  }
}
