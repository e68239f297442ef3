/** The contact-message store of `src/hooks/useMessages.ts`. */
module Messages {
  import opened Wrappers
  import Text

  datatype Status = New | Read | Replied

  datatype SenderRole = DonorSender | VisitorSender

  /** A stored contact message. `createdAt` is the clock reading behind the
      ISO timestamp. */
  datatype ContactMessage = ContactMessage(
    id: string, name: string, email: string, subject: string, message: string,
    createdAt: nat, status: Status,
    senderRole: Option<SenderRole>, senderId: Option<string>)

  /** What `saveMessage` is given: a message without id, time and status. */
  datatype Draft = Draft(
    name: string, email: string, subject: string, message: string,
    senderRole: Option<SenderRole>, senderId: Option<string>)

  /** `messages` is the hook's state, `persisted` the array under the
      'aidconnect-messages' storage key (None while the key is absent). */
  datatype Store = Store(messages: seq<ContactMessage>, persisted: Option<seq<ContactMessage>>)

  datatype Saved = Saved(store: Store, record: ContactMessage)

  /** The state agrees with storage: the stored list, or nothing stored and
      nothing held. */
  ghost predicate Synced(s: Store) {
    s.persisted == Some(s.messages) || (s.persisted.None? && s.messages == [])
  }

  /** The state once the loading effect has run: the stored list if there
      is one, else empty. */
  function Load(stored: Option<seq<ContactMessage>>): (s: Store)
    ensures stored.Some? ==> s.messages == stored.value
    ensures stored.None? ==> s.messages == []
    ensures s.persisted == stored && Synced(s)
  {
    Store(stored.GetOr([]), stored)
  }

  /** The id `saveMessage` gives a message saved at time `now`. */
  function MessageId(now: nat): (id: string)
    ensures id == "MSG-" + Text.NatToString(now)
    ensures "MSG-" <= id && |id| > 4
  {
    "MSG-" + Text.NatToString(now)
  }

  /** Messages saved at different times get different ids. */
  lemma MessageIdInjective(a: nat, b: nat)
    ensures MessageId(a) == MessageId(b) ==> a == b
  {
    if MessageId(a) == MessageId(b) {
      assert Text.NatToString(a) == MessageId(a)[4..];
      Text.NatToStringInjective(a, b);
    }
  }

  /** `saveMessage(draft)`: appends one new record with the draft's fields,
      status New and the id and time of `now`, writes the list through, and
      returns the record. */
  function SaveMessage(s: Store, d: Draft, now: nat): (r: Saved)
    ensures r.record.name == d.name && r.record.email == d.email
    ensures r.record.subject == d.subject && r.record.message == d.message
    ensures r.record.senderRole == d.senderRole && r.record.senderId == d.senderId
    ensures r.record.id == MessageId(now) && r.record.createdAt == now && r.record.status == New
    ensures |r.store.messages| == |s.messages| + 1
    ensures r.store.messages[..|s.messages|] == s.messages
    ensures r.store.messages[|s.messages|] == r.record
    ensures r.store.persisted == Some(r.store.messages)
  {
    var m := ContactMessage(MessageId(now), d.name, d.email, d.subject, d.message,
                            now, New, d.senderRole, d.senderId);
    var updated := s.messages + [m];
    Saved(Store(updated, Some(updated)), m)
  }

  /** The `map` of `updateMessageStatus`: every record with the id gets the
      status, all others are kept. */
  function SetStatus(ms: seq<ContactMessage>, id: string, status: Status): (r: seq<ContactMessage>)
    ensures |r| == |ms|
    ensures forall i :: 0 <= i < |ms| ==>
      r[i] == if ms[i].id == id then ms[i].(status := status) else ms[i]
  {
    seq(|ms|, i requires 0 <= i < |ms| => if ms[i].id == id then ms[i].(status := status) else ms[i])
  }

  /** `updateMessageStatus(id, status)`. No lifecycle is enforced: any
      status may replace any other. */
  function UpdateMessageStatus(s: Store, id: string, status: Status): (r: Store)
    ensures |r.messages| == |s.messages|
    ensures forall i :: 0 <= i < |s.messages| && s.messages[i].id == id ==>
      r.messages[i].status == status && r.messages[i].(status := s.messages[i].status) == s.messages[i]
    ensures forall i :: 0 <= i < |s.messages| && s.messages[i].id != id ==> r.messages[i] == s.messages[i]
    ensures r.persisted == Some(r.messages)
  {
    var updated := SetStatus(s.messages, id, status);
    Store(updated, Some(updated))
  }

  /** `getAllMessages()`: the in-memory list, oldest first; once anything
      has been written, storage holds the same list. */
  function GetAllMessages(s: Store): (r: seq<ContactMessage>)
    ensures r == s.messages
    ensures Synced(s) && s.persisted.Some? ==> Some(r) == s.persisted
  {
    s.messages
  }

  /** The `filter` of `getMessagesForUser`: keeps, in order, the records
      sent by `userId`. */
  function FilterBySender(ms: seq<ContactMessage>, userId: string): (r: seq<ContactMessage>)
    ensures forall m :: m in r <==> m in ms && m.senderId == Some(userId)
    ensures |r| <= |ms|
  {
    if ms == [] then []
    else
      var rest := FilterBySender(ms[..|ms| - 1], userId);
      var last := ms[|ms| - 1];
      assert ms == ms[..|ms| - 1] + [last];
      if last.senderId == Some(userId) then rest + [last] else rest
  }

  /** `getMessagesForUser(userId)`. */
  function GetMessagesForUser(s: Store, userId: string): (r: seq<ContactMessage>)
    ensures forall m :: m in r <==> m in s.messages && m.senderId == Some(userId)
  {
    FilterBySender(s.messages, userId)
  }

  // ---------------------------------------------------------------------------
  // Properties
  // ---------------------------------------------------------------------------

  /** Every mutation leaves storage equal to the state. */
  lemma MutationsKeepSynced(s: Store, d: Draft, now: nat, id: string, status: Status)
    ensures Synced(SaveMessage(s, d, now).store)
    ensures Synced(UpdateMessageStatus(s, id, status))
  {
  }

  /** After a save the whole list is the old list plus the returned record. */
  lemma SaveThenGetAll(s: Store, d: Draft, now: nat)
    ensures var r := SaveMessage(s, d, now);
      GetAllMessages(r.store) == GetAllMessages(s) + [r.record]
  {
  }

  /** Updating an id that is not present changes nothing in the list. */
  lemma UpdateAbsentIsNoop(s: Store, id: string, status: Status)
    requires forall i :: 0 <= i < |s.messages| ==> s.messages[i].id != id
    ensures UpdateMessageStatus(s, id, status).messages == s.messages
  {
  }

  /** There is no lifecycle check: a replied message can go back to new. */
  lemma RepliedCanReturnToNew(s: Store, i: nat)
    requires i < |s.messages| && s.messages[i].status == Replied
    ensures UpdateMessageStatus(s, s.messages[i].id, New).messages[i].status == New
  {
  }

  /** The filter distributes over concatenation, so it keeps the relative
      order of the records it keeps. */
  lemma {:induction false} FilterAppend(a: seq<ContactMessage>, b: seq<ContactMessage>, userId: string)
    ensures FilterBySender(a + b, userId) == FilterBySender(a, userId) + FilterBySender(b, userId)
    decreases |b|
  {
    if b == [] {
      assert a + b == a;
    } else {
      var b' := b[..|b| - 1];
      assert (a + b)[..|a + b| - 1] == a + b';
      FilterAppend(a, b', userId);
    }
  }

  /** The ascending positions of the records sent by `userId`. */
  function SenderPositions(ms: seq<ContactMessage>, userId: string): (p: seq<nat>)
    ensures forall k :: 0 <= k < |p| ==> p[k] < |ms| && ms[p[k]].senderId == Some(userId)
    ensures forall k, l :: 0 <= k < l < |p| ==> p[k] < p[l]
    ensures forall i :: 0 <= i < |ms| && ms[i].senderId == Some(userId) ==> i in p
  {
    if ms == [] then []
    else
      var rest := SenderPositions(ms[..|ms| - 1], userId);
      if ms[|ms| - 1].senderId == Some(userId) then rest + [|ms| - 1] else rest
  }

  /** Filtering and the position list both grow by the last record exactly
      when it is the user's. */
  lemma FilterSnoc(ms: seq<ContactMessage>, userId: string)
    requires ms != []
    ensures var front := ms[..|ms| - 1];
      var mine := ms[|ms| - 1].senderId == Some(userId);
      && FilterBySender(ms, userId)
         == FilterBySender(front, userId) + (if mine then [ms[|ms| - 1]] else [])
      && SenderPositions(ms, userId)
         == SenderPositions(front, userId) + (if mine then [|ms| - 1] else [])
  {
  }

  /** `getMessagesForUser` is the order-preserving subsequence of exactly
      the records sent by the user: its k-th entry is the record at the
      k-th position that holds one of theirs. */
  lemma {:induction false} FilterIsSubsequence(ms: seq<ContactMessage>, userId: string)
    ensures var r := FilterBySender(ms, userId);
      var p := SenderPositions(ms, userId);
      |r| == |p| && forall k :: 0 <= k < |r| ==> r[k] == ms[p[k]]
  {
    if ms != [] {
      var front := ms[..|ms| - 1];
      FilterIsSubsequence(front, userId);
      FilterSnoc(ms, userId);
      var r := FilterBySender(ms, userId);
      var p := SenderPositions(ms, userId);
      var r0 := FilterBySender(front, userId);
      var p0 := SenderPositions(front, userId);
      assert |r| == |p|;
      forall k | 0 <= k < |r| ensures r[k] == ms[p[k]] {
        if k < |r0| {
          assert r[k] == r0[k] && p[k] == p0[k];
          assert ms[p0[k]] == front[p0[k]];
        }
      }
    }
  }

  /** A save adds the record to the sender's list exactly when it is theirs. */
  lemma SaveThenForUser(s: Store, d: Draft, now: nat, userId: string)
    ensures var r := SaveMessage(s, d, now);
      GetMessagesForUser(r.store, userId)
        == GetMessagesForUser(s, userId) + (if d.senderId == Some(userId) then [r.record] else [])
  {
  }
}
