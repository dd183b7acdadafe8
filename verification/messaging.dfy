/** Queries over the messages table: the message lookup, the inbox, the
    conversation partners and the thread between two users. The table is
    kept in insertion order, which under a monotone clock is also timestamp
    order, so an ordered query is a filter that keeps (or reverses) that order. */
module Messaging {
  import opened Records

  /** Primary-key lookup of a message (`Message.query.get_or_404`). */
  function FindMessage(messages: seq<Message>, id: nat): (r: Option<Message>)
    ensures r.Some? ==> r.value in messages && r.value.id == id
    ensures r.None? <==> !HasMessage(messages, id)
  {
    if |messages| == 0 then None
    else if messages[0].id == id then Some(messages[0])
    else FindMessage(messages[1..], id)
  }

  /** `m` was sent by one of `a`, `b` to the other. */
  predicate Between(m: Message, a: nat, b: nat)
  {
    (m.sender == a && m.recipient == b) || (m.sender == b && m.recipient == a)
  }

  /** The inbox of `me`: the messages addressed to `me`, newest first. */
  function Inbox(messages: seq<Message>, me: nat): (r: seq<Message>)
    ensures forall m :: m in r <==> m in messages && m.recipient == me
  {
    if |messages| == 0 then []
    else
      var newest := messages[|messages| - 1];
      var older := Inbox(messages[..|messages| - 1], me);
      if newest.recipient == me then [newest] + older else older
  }

  /** The thread between `a` and `b`: the messages either sent to the other,
      oldest first. */
  function Thread(messages: seq<Message>, a: nat, b: nat): (r: seq<Message>)
    ensures forall m :: m in r <==> m in messages && Between(m, a, b)
  {
    if |messages| == 0 then []
    else if Between(messages[0], a, b) then [messages[0]] + Thread(messages[1..], a, b)
    else Thread(messages[1..], a, b)
  }

  /** The recipients of the messages `me` sent (the `sent_ids` sub-query). */
  function SentTo(messages: seq<Message>, me: nat): (r: set<nat>)
    ensures forall p :: p in r <==> exists m :: m in messages && m.sender == me && m.recipient == p
  {
    if |messages| == 0 then {}
    else
      var rest := SentTo(messages[1..], me);
      if messages[0].sender == me then rest + {messages[0].recipient} else rest
  }

  /** The senders of the messages `me` received (the `received_ids` sub-query). */
  function ReceivedFrom(messages: seq<Message>, me: nat): (r: set<nat>)
    ensures forall p :: p in r <==> exists m :: m in messages && m.recipient == me && m.sender == p
  {
    if |messages| == 0 then {}
    else
      var rest := ReceivedFrom(messages[1..], me);
      if messages[0].recipient == me then rest + {messages[0].sender} else rest
  }

  /** The conversation partners of `me`: the union of the two sub-queries,
      without `me` itself. */
  function Partners(messages: seq<Message>, me: nat): (r: set<nat>)
    ensures forall p :: p in r <==> p != me && exists m :: m in messages && Between(m, me, p)
  {
    (SentTo(messages, me) + ReceivedFrom(messages, me)) - {me}
  }

  /** Being partners is symmetric: whoever is in my partner set has me in theirs. */
  lemma PartnersSymmetric(messages: seq<Message>, a: nat, b: nat)
    ensures b in Partners(messages, a) <==> a in Partners(messages, b)
  {
  }

  /** Someone else is a partner of `me` exactly when the thread between the
      two is not empty: the partner listing and the thread page agree. */
  lemma PartnerIffThread(messages: seq<Message>, me: nat, other: nat)
    requires other != me
    ensures other in Partners(messages, me) <==> Thread(messages, me, other) != []
  {
  }

  /** The thread does not depend on the order of its two participants. */
  lemma {:induction false} ThreadSymmetric(messages: seq<Message>, a: nat, b: nat)
    ensures Thread(messages, a, b) == Thread(messages, b, a)
  {
    if |messages| > 0 {
      ThreadSymmetric(messages[1..], a, b);
    }
  }

  /** A message no later than everything in an oldest-first sequence can go
      in front of it. */
  lemma PrependChronological(m: Message, rest: seq<Message>)
    requires Chronological(rest)
    requires forall x :: x in rest ==> m.timestamp <= x.timestamp
    ensures Chronological([m] + rest)
  {
  }

  /** A message no earlier than everything in a newest-first sequence can go
      in front of it. */
  lemma PrependNewestFirst(m: Message, rest: seq<Message>)
    requires NewestFirst(rest)
    requires forall x :: x in rest ==> m.timestamp >= x.timestamp
    ensures NewestFirst([m] + rest)
  {
  }

  /** The thread is oldest first whenever the table is. */
  lemma {:induction false} ThreadChronological(messages: seq<Message>, a: nat, b: nat)
    requires Chronological(messages)
    ensures Chronological(Thread(messages, a, b))
  {
    if |messages| > 0 {
      var tail := messages[1..];
      ThreadChronological(tail, a, b);
      var rest := Thread(tail, a, b);
      if Between(messages[0], a, b) {
        forall x | x in rest ensures messages[0].timestamp <= x.timestamp {
          var k :| 0 <= k < |tail| && tail[k] == x;
          assert messages[k + 1] == x;
        }
        PrependChronological(messages[0], rest);
      }
    }
  }

  /** The inbox is newest first whenever the table is oldest first. */
  lemma {:induction false} InboxNewestFirst(messages: seq<Message>, me: nat)
    requires Chronological(messages)
    ensures NewestFirst(Inbox(messages, me))
  {
    if |messages| > 0 {
      var n := |messages| - 1;
      var prefix := messages[..n];
      assert Chronological(prefix) by {
        forall i, j | 0 <= i < j < |prefix| ensures prefix[i].timestamp <= prefix[j].timestamp {
          assert prefix[i] == messages[i] && prefix[j] == messages[j];
        }
      }
      InboxNewestFirst(prefix, me);
      var rest := Inbox(prefix, me);
      if messages[n].recipient == me {
        forall x | x in rest ensures messages[n].timestamp >= x.timestamp {
          var k :| 0 <= k < |prefix| && prefix[k] == x;
          assert messages[k] == x;
        }
        PrependNewestFirst(messages[n], rest);
      }
    }
  }

  /** The messages addressed to `me`, oldest first: the recipient filter of
      the inbox query before its descending order is applied. */
  function Received(messages: seq<Message>, me: nat): (r: seq<Message>)
    ensures forall m :: m in r <==> m in messages && m.recipient == me
  {
    if |messages| == 0 then []
    else if messages[0].recipient == me then [messages[0]] + Received(messages[1..], me)
    else Received(messages[1..], me)
  }

  /** `s` read from its last element to its first. */
  function Reversed(s: seq<Message>): (r: seq<Message>)
    ensures |r| == |s|
  {
    if |s| == 0 then [] else Reversed(s[1..]) + [s[0]]
  }

  /** Reversing a sequence with one more element at its end puts that
      element first. */
  lemma {:induction false} ReversedAppend(s: seq<Message>, m: Message)
    ensures Reversed(s + [m]) == [m] + Reversed(s)
  {
    if |s| == 0 {
      assert [m][1..] == [];
    } else {
      assert (s + [m])[1..] == s[1..] + [m];
      ReversedAppend(s[1..], m);
    }
  }

  /** Appending one more message adds it to the end of its recipient's
      received messages and leaves everyone else's as they were. */
  lemma {:induction false} ReceivedAfterSend(messages: seq<Message>, m: Message, me: nat)
    ensures Received(messages + [m], me) == if m.recipient == me then Received(messages, me) + [m] else Received(messages, me)
  {
    if |messages| == 0 {
      assert [m][1..] == [];
    } else {
      assert (messages + [m])[1..] == messages[1..] + [m];
      ReceivedAfterSend(messages[1..], m, me);
    }
  }

  /** The inbox is exactly the order-preserving recipient filter read
      backwards: every message to `me` appears once, newest first. */
  lemma {:induction false} InboxIsReversedReceived(messages: seq<Message>, me: nat)
    ensures Inbox(messages, me) == Reversed(Received(messages, me))
  {
    if |messages| > 0 {
      var n := |messages| - 1;
      var prefix := messages[..n];
      assert messages == prefix + [messages[n]];
      InboxIsReversedReceived(prefix, me);
      ReceivedAfterSend(prefix, messages[n], me);
      if messages[n].recipient == me {
        ReversedAppend(Received(prefix, me), messages[n]);
      }
    }
  }

  /** Appending one more message adds it to the end of the thread of its two
      participants and leaves every other thread as it was. */
  lemma {:induction false} ThreadAfterSend(messages: seq<Message>, m: Message, a: nat, b: nat)
    ensures Thread(messages + [m], a, b) == if Between(m, a, b) then Thread(messages, a, b) + [m] else Thread(messages, a, b)
  {
    if |messages| == 0 {
      assert [m][1..] == [];
    } else {
      assert (messages + [m])[1..] == messages[1..] + [m];
      ThreadAfterSend(messages[1..], m, a, b);
    }
  }

  /** Sending one more message can only add its counterparty to the partner
      sets of its sender and its recipient, and never makes anyone their own
      partner. */
  lemma PartnersAfterSend(messages: seq<Message>, m: Message, me: nat)
    ensures Partners(messages + [m], me)
         == Partners(messages, me) + (if m.sender == me then {m.recipient} - {me} else {})
                                   + (if m.recipient == me then {m.sender} - {me} else {})
  {
  }
}
