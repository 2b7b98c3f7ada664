/** The direct-message endpoints: `GET /messages` (the caller's inbox),
    `POST /messages` (send), `GET /users/<id>/messages` (a two-party
    conversation) and `DELETE /messages/<id>`. `caller` is the identity
    carried by the request's access token. */
module Messages {
  import opened Seqs
  import opened Models
  import opened Http
  import opened Chronology

  datatype SendRequest = SendRequest(recipientId: Field<Id>, content: Field<string>)

  datatype InboxEntry = InboxEntry(
    id: Id,
    senderId: Id,
    senderUsername: string,
    recipientId: Id,
    recipientUsername: string,
    content: string,
    timestamp: Timestamp,
    isRead: bool,
    isMine: bool)

  datatype ConversationEntry = ConversationEntry(
    id: Id,
    senderId: Id,
    content: string,
    timestamp: Timestamp,
    isMine: bool)

  datatype Peer = Peer(id: Id, username: string)

  datatype SentData = SentData(id: Id, senderId: Id, recipientId: Id, content: string, timestamp: Timestamp)

  datatype MessagePayload =
    | Inbox(inboxMessages: seq<InboxEntry>)
    | Sent(message: string, data: SentData)
    | Conversation(conversationWith: Peer, conversationMessages: seq<ConversationEntry>)

  const MISSING_FIELDS := "Missing required fields"
  const RECIPIENT_NOT_FOUND := "Recipient not found"
  const SELF_MESSAGE := "Cannot message yourself"
  const SENT := "Message sent successfully"
  const USER_NOT_FOUND := "User not found"
  const NOT_SENDER := "Unauthorized"
  const DELETED := "Message deleted successfully"

  predicate Involves(m: Message, u: Id) {
    m.senderId == u || m.recipientId == u
  }

  /** `m` went from `u` to `o` or from `o` to `u`. */
  predicate Between(m: Message, u: Id, o: Id) {
    (m.senderId == u && m.recipientId == o) || (m.senderId == o && m.recipientId == u)
  }

  /** The rows the inbox query selects, in table order. */
  function InboxMessages(st: Store, u: Id): seq<Message> {
    Filter(st.messages, (m: Message) => Involves(m, u))
  }

  /** The rows the conversation query selects, in table order. */
  function ConversationMessages(st: Store, u: Id, o: Id): seq<Message> {
    Filter(st.messages, (m: Message) => Between(m, u, o))
  }

  /** Both users a message names exist, so `m.sender` and `m.recipient` load. */
  predicate Referenced(st: Store, m: Message) {
    UserById(st, m.senderId).Some? && UserById(st, m.recipientId).Some?
  }

  /** Every message `u` sent or received is `Referenced`: what rendering the
      rows of `u`'s inbox needs. Unlike `MessagesReferenced`, rows between
      two other users are not constrained. */
  predicate InboxReferenced(st: Store, u: Id) {
    forall m :: m in st.messages && Involves(m, u) ==> Referenced(st, m)
  }

  function InboxEntryOf(st: Store, m: Message, caller: Id): InboxEntry
    requires Referenced(st, m)
  {
    InboxEntry(m.id, m.senderId, UserById(st, m.senderId).value.username,
               m.recipientId, UserById(st, m.recipientId).value.username,
               m.content, m.timestamp, m.isRead, m.senderId == caller)
  }

  function ConversationEntryOf(m: Message, caller: Id): ConversationEntry {
    ConversationEntry(m.id, m.senderId, m.content, m.timestamp, m.senderId == caller)
  }


  /** `filter(p).order_by(timestamp)`: the rows of `msgs` satisfying `p`, each
      kept as often as the table holds it, ordered by timestamp in direction `d`.
      Both message queries have this shape. */
  function Selected(msgs: seq<Message>, p: Message -> bool, d: Direction): (r: seq<Message>)
    ensures forall m :: m in r <==> m in msgs && p(m)
    ensures multiset(r) == multiset(Filter(msgs, p))
    ensures Chronological(r, d)
  {
    var selected := Filter(msgs, p);
    var ordered := SortByTime(selected, d);
    assert forall m :: m in ordered <==> m in msgs && p(m) by {
      forall m ensures m in ordered <==> m in msgs && p(m) {
        SortedMembership(selected, d, m);
        FilterMembership(msgs, p, m);
      }
    }
    ordered
  }

  /** A reply that renders each selected row through `f`, in order, has one
      entry per selected row and an entry for every row the filter admits. */
  lemma EntriesCover<E>(msgs: seq<Message>, p: Message -> bool, d: Direction, ordered: seq<Message>,
                            f: Message --> E, es: seq<E>)
    requires ordered == Selected(msgs, p, d)
    requires forall m :: m in msgs && p(m) ==> f.requires(m)
    requires |es| == |ordered|
    requires forall i :: 0 <= i < |ordered| ==> es[i] == f(ordered[i])
    ensures |es| == |Filter(msgs, p)|
    ensures forall i :: 0 <= i < |es| ==> exists m :: m in msgs && p(m) && es[i] == f(m)
    ensures forall m :: m in msgs && p(m) ==> f(m) in es
  {
    assert |multiset(ordered)| == |multiset(Filter(msgs, p))|;
    forall m | m in msgs && p(m) ensures f(m) in es {
      var i :| 0 <= i < |ordered| && ordered[i] == m;
      assert es[i] == f(m);
    }
    forall i | 0 <= i < |es| ensures exists m :: m in msgs && p(m) && es[i] == f(m) {
      assert ordered[i] in ordered;
    }
  }

  /** The inbox query: exactly the messages the caller sent or received, each
      once, newest first. */
  function InboxOrder(st: Store, u: Id): (r: seq<Message>)
    ensures forall m :: m in r <==> m in st.messages && Involves(m, u)
    ensures multiset(r) == multiset(InboxMessages(st, u))
    ensures Chronological(r, NewestFirst)
  {
    Selected(st.messages, (m: Message) => Involves(m, u), NewestFirst)
  }

  /** The rows of the caller's inbox, rendered in order. */
  function InboxEntries(st: Store, caller: Id): seq<InboxEntry>
    requires InboxReferenced(st, caller)
  {
    var ordered := InboxOrder(st, caller);
    InboxRowsReferenced(st, caller);
    seq(|ordered|, i requires 0 <= i < |ordered| => InboxEntryOf(st, ordered[i], caller))
  }

  lemma InboxRowsReferenced(st: Store, caller: Id)
    requires InboxReferenced(st, caller)
    ensures forall i :: 0 <= i < |InboxOrder(st, caller)| ==> Referenced(st, InboxOrder(st, caller)[i])
  {
    var ordered := InboxOrder(st, caller);
    forall i | 0 <= i < |ordered| ensures Referenced(st, ordered[i]) {
      assert ordered[i] in ordered;
    }
  }

  /** GET /messages: one entry per message the caller sent or received, newest
      first, flagged `isMine` when the caller sent it. Loading the sender's
      and recipient's usernames needs both rows to exist, but only for the
      rows the query selects. Nothing is written. */
  function ListMessages(st: Store, caller: Id): (r: Reply<MessagePayload>)
    requires InboxReferenced(st, caller)
    ensures r.status == OK && r.store == st && r.body.Payload? && r.body.data.Inbox?
    ensures var es := r.body.data.inboxMessages;
      && |es| == |InboxMessages(st, caller)|
      && (forall i :: 0 <= i < |es| ==>
            exists m :: m in st.messages && Involves(m, caller) && es[i] == InboxEntryOf(st, m, caller))
      && (forall m :: m in st.messages && Involves(m, caller) ==> InboxEntryOf(st, m, caller) in es)
      && (forall i, j :: 0 <= i < j < |es| ==> es[i].timestamp >= es[j].timestamp)
      && (forall i :: 0 <= i < |es| ==> (es[i].isMine <==> es[i].senderId == caller))
  {
    var es := InboxEntries(st, caller);
    InboxEntriesCover(st, caller, InboxOrder(st, caller), es);
    Reply(OK, Payload(Inbox(es)), st)
  }

  /** `EntriesCover` for the inbox, whose entries load both users' rows. */
  lemma InboxEntriesCover(st: Store, caller: Id, ordered: seq<Message>, es: seq<InboxEntry>)
    requires InboxReferenced(st, caller)
    requires ordered == InboxOrder(st, caller)
    requires |es| == |ordered|
    requires forall i :: 0 <= i < |ordered| ==> es[i] == InboxEntryOf(st, ordered[i], caller)
    ensures |es| == |InboxMessages(st, caller)|
    ensures forall i :: 0 <= i < |es| ==>
      exists m :: m in st.messages && Involves(m, caller) && es[i] == InboxEntryOf(st, m, caller)
    ensures forall m :: m in st.messages && Involves(m, caller) ==> InboxEntryOf(st, m, caller) in es
    ensures forall i, j :: 0 <= i < j < |es| ==> es[i].timestamp >= es[j].timestamp
  {
    var entry := (m: Message) requires Referenced(st, m) => InboxEntryOf(st, m, caller);
    EntriesCover(st.messages, (m: Message) => Involves(m, caller), NewestFirst, ordered, entry, es);
    forall i, j | 0 <= i < j < |es| ensures es[i].timestamp >= es[j].timestamp {
      assert Precedes(ordered[i], ordered[j], NewestFirst);
    }
  }

  /** In a valid store every user's inbox can be rendered. */
  lemma ValidServesInbox(st: Store, u: Id)
    requires Valid(st)
    ensures InboxReferenced(st, u)
  {
  }

  /** The inbox needs references only for the caller's own rows: a store
      with a dangling message between two other users still serves it. */
  lemma DanglingElsewhereServesInbox()
    ensures var st := Store([User(1, "ann", "ann@example.com", "h", 0)], [], {},
                            [Message(1, 7, 8, "hi", 0, false)], 2, 1, 2);
            !MessagesReferenced(st) && InboxReferenced(st, 1)
  {
    var st := Store([User(1, "ann", "ann@example.com", "h", 0)], [], {},
                    [Message(1, 7, 8, "hi", 0, false)], 2, 1, 2);
    assert st.messages[0] in st.messages;
    assert UserById(st, 7).None?;
  }

  predicate Complete(req: SendRequest) {
    TruthyNumber(req.recipientId) && TruthyText(req.content)
  }

  /** The row a successful send inserts: a fresh id, unread, stamped `now`. */
  function NewMessage(st: Store, caller: Id, req: SendRequest, now: Timestamp): Message
    requires Complete(req)
  {
    Message(st.nextMessageId, caller, req.recipientId.v, req.content.v, now, false)
  }

  /** POST /messages. The checks run in a fixed order: missing fields (before
      any lookup), unknown recipient, then a message to oneself. Only a
      request passing all three writes to the store. */
  function Send(st: Store, caller: Id, req: SendRequest, now: Timestamp): (r: Reply<MessagePayload>)
    ensures r.body == Note(MISSING_FIELDS) <==> !Complete(req)
    ensures !Complete(req) ==> r.status == BAD_REQUEST
    ensures r.status == NOT_FOUND <==> Complete(req) && UserById(st, req.recipientId.v).None?
    ensures r.status == NOT_FOUND ==> r.body == Note(RECIPIENT_NOT_FOUND)
    ensures r.body == Note(SELF_MESSAGE) <==>
      Complete(req) && UserById(st, req.recipientId.v).Some? && req.recipientId.v == caller
    ensures r.body == Note(SELF_MESSAGE) ==> r.status == BAD_REQUEST
    ensures r.status == CREATED <==>
      Complete(req) && UserById(st, req.recipientId.v).Some? && req.recipientId.v != caller
    ensures r.status != CREATED ==> r.store == st
    ensures r.status == CREATED ==>
      var m := NewMessage(st, caller, req, now);
      && m.senderId == caller && m.recipientId == req.recipientId.v && m.content == req.content.v
      && !m.isRead && m.timestamp == now
      && r.store == st.(messages := st.messages + [m], nextMessageId := st.nextMessageId + 1)
      && r.body == Payload(Sent(SENT, SentData(m.id, caller, req.recipientId.v, req.content.v, now)))
  {
    if !Complete(req) then
      Reply(BAD_REQUEST, Note(MISSING_FIELDS), st)
    else if UserById(st, req.recipientId.v).None? then
      Reply(NOT_FOUND, Note(RECIPIENT_NOT_FOUND), st)
    else if caller == req.recipientId.v then
      Reply(BAD_REQUEST, Note(SELF_MESSAGE), st)
    else
      var m := NewMessage(st, caller, req, now);
      Reply(CREATED, Payload(Sent(SENT, SentData(m.id, m.senderId, m.recipientId, m.content, m.timestamp))),
            st.(messages := st.messages + [m], nextMessageId := st.nextMessageId + 1))
  }

  /** The conversation query: exactly the messages exchanged between `u` and
      `o` in either direction, each once, oldest first. */
  function ConversationOrder(st: Store, u: Id, o: Id): (r: seq<Message>)
    ensures forall m :: m in r <==> m in st.messages && Between(m, u, o)
    ensures multiset(r) == multiset(ConversationMessages(st, u, o))
    ensures Chronological(r, OldestFirst)
  {
    Selected(st.messages, (m: Message) => Between(m, u, o), OldestFirst)
  }

  /** GET /users/<other>/messages: an unknown `other` is a 404; otherwise one
      entry per message exchanged with `other`, oldest first. Nothing is written. */
  function GetConversation(st: Store, caller: Id, other: Id): (r: Reply<MessagePayload>)
    ensures r.store == st
    ensures UserById(st, other).None? <==> r.status == NOT_FOUND
    ensures UserById(st, other).None? ==> r.body == Note(USER_NOT_FOUND)
    ensures UserById(st, other).Some? ==>
      && r.status == OK && r.body.Payload? && r.body.data.Conversation?
      && r.body.data.conversationWith == Peer(other, UserById(st, other).value.username)
    ensures r.status == OK && r.body.Payload? && r.body.data.Conversation? ==>
      var es := r.body.data.conversationMessages;
      && |es| == |ConversationMessages(st, caller, other)|
      && (forall i :: 0 <= i < |es| ==>
            exists m :: m in st.messages && Between(m, caller, other) && es[i] == ConversationEntryOf(m, caller))
      && (forall m :: m in st.messages && Between(m, caller, other) ==> ConversationEntryOf(m, caller) in es)
      && (forall i, j :: 0 <= i < j < |es| ==> es[i].timestamp <= es[j].timestamp)
      && (forall i :: 0 <= i < |es| ==> (es[i].isMine <==> es[i].senderId == caller))
  {
    match UserById(st, other)
    case None => Reply(NOT_FOUND, Note(USER_NOT_FOUND), st)
    case Some(o) =>
      var es := ConversationEntries(st, caller, other);
      ConversationEntriesCover(st, caller, other, ConversationOrder(st, caller, other), es);
      Reply(OK, Payload(Conversation(Peer(o.id, o.username), es)), st)
  }

  /** The rows of the conversation, rendered in order for `caller`. */
  function ConversationEntries(st: Store, caller: Id, other: Id): seq<ConversationEntry> {
    var ordered := ConversationOrder(st, caller, other);
    seq(|ordered|, i requires 0 <= i < |ordered| => ConversationEntryOf(ordered[i], caller))
  }

  /** `EntriesCover` for a conversation. */
  lemma ConversationEntriesCover(st: Store, caller: Id, other: Id, ordered: seq<Message>, es: seq<ConversationEntry>)
    requires ordered == ConversationOrder(st, caller, other)
    requires |es| == |ordered|
    requires forall i :: 0 <= i < |ordered| ==> es[i] == ConversationEntryOf(ordered[i], caller)
    ensures |es| == |ConversationMessages(st, caller, other)|
    ensures forall i :: 0 <= i < |es| ==>
      exists m :: m in st.messages && Between(m, caller, other) && es[i] == ConversationEntryOf(m, caller)
    ensures forall m :: m in st.messages && Between(m, caller, other) ==> ConversationEntryOf(m, caller) in es
    ensures forall i, j :: 0 <= i < j < |es| ==> es[i].timestamp <= es[j].timestamp
  {
    EntriesCover(st.messages, (m: Message) => Between(m, caller, other), OldestFirst, ordered,
                 (m: Message) => ConversationEntryOf(m, caller), es);
    forall i, j | 0 <= i < j < |es| ensures es[i].timestamp <= es[j].timestamp {
      assert Precedes(ordered[i], ordered[j], OldestFirst);
    }
  }

  /** DELETE /messages/<id>: only the sender may delete; anything else leaves
      the store as it was. */
  function Delete(st: Store, caller: Id, id: Id): (r: Reply<MessagePayload>)
    ensures MessageById(st, id).None? ==> r == NotFound(st)
    ensures MessageById(st, id).Some? && MessageById(st, id).value.senderId != caller ==>
      r == Reply(FORBIDDEN, Note(NOT_SENDER), st)
    ensures MessageById(st, id).Some? && MessageById(st, id).value.senderId == caller ==>
      && r.status == OK && r.body == Note(DELETED)
      && r.store == st.(messages := r.store.messages)
      && (forall m :: m in r.store.messages <==> m in st.messages && m.id != id)
  {
    match MessageById(st, id)
    case None => NotFound(st)
    case Some(m) =>
      if m.senderId != caller then
        Reply(FORBIDDEN, Note(NOT_SENDER), st)
      else
        var kept := Filter(st.messages, (x: Message) => x.id != id);
        assert forall x :: x in kept <==> x in st.messages && x.id != id by {
          forall x ensures x in kept <==> x in st.messages && x.id != id {
            FilterMembership(st.messages, (x: Message) => x.id != id, x);
          }
        }
        Reply(OK, Note(DELETED), st.(messages := kept))
  }

  // Properties relating the endpoints to each other and to the store invariant.

  /** Conversation entries with the caller-relative `isMine` flag cleared. */
  function Unflagged(es: seq<ConversationEntry>): seq<ConversationEntry> {
    seq(|es|, i requires 0 <= i < |es| => es[i].(isMine := false))
  }

  /** The conversation between `u` and `o` holds the same messages as the one
      between `o` and `u`, and its entries agree once `isMine` is set aside.
      Each reply names the other party. Rows with equal timestamps may come
      back in either order, so the lists are compared as multisets. */
  lemma {:induction false} ConversationSymmetric(st: Store, u: Id, o: Id)
    requires UserById(st, u).Some? && UserById(st, o).Some?
    ensures multiset(ConversationOrder(st, u, o)) == multiset(ConversationOrder(st, o, u))
    ensures var a := GetConversation(st, u, o);
            var b := GetConversation(st, o, u);
            && a.status == OK && b.status == OK
            && a.body.Payload? && a.body.data.Conversation? && b.body.Payload? && b.body.data.Conversation?
            && a.body.data.conversationWith.id == o && b.body.data.conversationWith.id == u
            && multiset(Unflagged(a.body.data.conversationMessages)) == multiset(Unflagged(b.body.data.conversationMessages))
  {
    FilterCongruent(st.messages, (m: Message) => Between(m, u, o), (m: Message) => Between(m, o, u));
    var x := ConversationOrder(st, u, o);
    assert x == ConversationOrder(st, o, u);
    var ea := GetConversation(st, u, o).body.data.conversationMessages;
    var eb := GetConversation(st, o, u).body.data.conversationMessages;
    assert |ea| == |x| == |eb|;
    forall i | 0 <= i < |x| ensures Unflagged(ea)[i] == Unflagged(eb)[i] {
      assert ea[i] == ConversationEntryOf(x[i], u) && eb[i] == ConversationEntryOf(x[i], o);
    }
    assert Unflagged(ea) == Unflagged(eb);
  }

  /** Every message of a conversation is in both parties' inboxes. */
  lemma ConversationWithinInboxes(st: Store, u: Id, o: Id, m: Message)
    requires m in ConversationOrder(st, u, o)
    ensures m in InboxOrder(st, u) && m in InboxOrder(st, o)
  {
  }

  /** A successful send inserts a row under a key no existing message has, and
      keeps the store valid when the caller is a registered user. */
  lemma SendPreservesValid(st: Store, caller: Id, req: SendRequest, now: Timestamp)
    requires Valid(st) && UserById(st, caller).Some?
    ensures Send(st, caller, req, now).status == CREATED ==> MessageById(st, st.nextMessageId).None?
    ensures Valid(Send(st, caller, req, now).store)
  {
    var r := Send(st, caller, req, now);
    if r.status == CREATED {
      var m := NewMessage(st, caller, req, now);
      AppendKeysAllocated(st.messages, m, (m: Message) => m.id, st.nextMessageId);
      assert r.store.users == st.users && r.store.groups == st.groups;
    }
  }

  /** A successful send makes the new message visible to both parties: in the
      sender's inbox, the recipient's inbox and their conversation. No other
      user's inbox changes. */
  lemma SendReachesBothParties(st: Store, caller: Id, req: SendRequest, now: Timestamp, w: Id)
    requires Send(st, caller, req, now).status == CREATED
    ensures var after := Send(st, caller, req, now).store;
            var m := NewMessage(st, caller, req, now);
            && m in InboxOrder(after, caller)
            && m in InboxOrder(after, req.recipientId.v)
            && m in ConversationOrder(after, caller, req.recipientId.v)
            && (w != caller && w != req.recipientId.v ==> InboxMessages(after, w) == InboxMessages(st, w))
  {
    var m := NewMessage(st, caller, req, now);
    assert m in Send(st, caller, req, now).store.messages;
    FilterSnoc(st.messages, m, (x: Message) => Involves(x, w));
  }

  /** Deleting the message one has just sent undoes the send; only the id
      counter stays advanced. */
  lemma SendThenDelete(st: Store, caller: Id, req: SendRequest, now: Timestamp)
    requires Valid(st)
    requires Send(st, caller, req, now).status == CREATED
    ensures Delete(Send(st, caller, req, now).store, caller, st.nextMessageId)
         == Reply(OK, Note(DELETED), st.(nextMessageId := st.nextMessageId + 1))
  {
    var after := Send(st, caller, req, now).store;
    var m := NewMessage(st, caller, req, now);
    var n := st.nextMessageId;
    FindAppended(st.messages, m, (x: Message) => x.id == n);
    FilterSnoc(st.messages, m, (x: Message) => x.id != n);
    FilterKeepsAll(st.messages, (x: Message) => x.id != n);
  }

  /** A successful delete removes exactly one row and keeps the store valid. */
  lemma DeleteRemovesOne(st: Store, caller: Id, id: Id)
    requires Valid(st)
    ensures var r := Delete(st, caller, id);
            r.status == OK ==> |r.store.messages| == |st.messages| - 1 && Valid(r.store)
  {
    var r := Delete(st, caller, id);
    if r.status == OK {
      var p := (x: Message) => x.id != id;
      var k := FindIndex(st.messages, (x: Message) => x.id == id);
      FilterDropsOne(st.messages, p, k);
      DropMessagesKeepsValid(st, p);
    }
  }

  /** Messages are referenced by no other table, so dropping any of them keeps
      the store valid. */
  lemma DropMessagesKeepsValid(st: Store, p: Message -> bool)
    requires Valid(st)
    ensures Valid(st.(messages := Filter(st.messages, p)))
  {
    var kept := Filter(st.messages, p);
    FilterKeysAllocated(st.messages, p, (m: Message) => m.id, st.nextMessageId);
    forall m | m in kept ensures m in st.messages {
      FilterMembership(st.messages, p, m);
    }
  }

}
