/**
 * The records the message admin and the inbox tag share: users, groups and
 * messages, as the admin form lists their fields, and the two filters the
 * ORM applies to a user's received messages.
 */
module Models {

  datatype Option<+T> = None | Some(value: T)

  datatype Result<+R, +E> = Success(value: R) | Failure(error: E)

  /** Primary keys of users and messages. */
  type UserId = nat
  type MessageId = nat

  /** A point in time; only whether a timestamp is set matters here. */
  type Timestamp = int

  /**
   * One row of the message table. `pk` is None for an object that has not
   * been saved yet; the recipient and the parent message are nullable
   * foreign keys, the sender is not.
   */
  datatype Message = Message(
    pk: Option<MessageId>,
    sender: UserId,
    recipient: Option<UserId>,
    parentMsg: Option<MessageId>,
    subject: string,
    body: string,
    sentAt: Option<Timestamp>,
    readAt: Option<Timestamp>,
    repliedAt: Option<Timestamp>,
    senderDeletedAt: Option<Timestamp>,
    recipientDeletedAt: Option<Timestamp>)

  /** A named set of users; `members` is the group's `user_set` in table order. */
  datatype Group = Group(pk: nat, name: string, members: seq<UserId>)

  predicate Distinct<T(==)>(s: seq<T>) {
    forall i, j :: 0 <= i < j < |s| ==> s[i] != s[j]
  }

  /** Two messages agree on every field except the primary key and the recipient. */
  predicate SameContent(a: Message, b: Message) {
    a.(pk := None, recipient := None) == b.(pk := None, recipient := None)
  }

  /** Neither read nor hidden by its recipient. */
  predicate IsUnread(m: Message) {
    m.readAt.None? && m.recipientDeletedAt.None?
  }

  /** `user.received_messages`: the rows addressed to `u`, in table order. */
  function ReceivedBy(rows: seq<Message>, u: UserId): (r: seq<Message>)
    ensures |r| <= |rows|
    ensures forall m :: m in r <==> m in rows && m.recipient == Some(u)
  {
    if rows == [] then []
    else
      var last := rows[|rows| - 1];
      ReceivedBy(rows[..|rows| - 1], u) + (if last.recipient == Some(u) then [last] else [])
  }

  /** `.filter(read_at__isnull=True, recipient_deleted_at__isnull=True)`. */
  function UnreadOf(msgs: seq<Message>): (r: seq<Message>)
    ensures |r| <= |msgs|
    ensures forall m :: m in r <==> m in msgs && IsUnread(m)
  {
    if msgs == [] then []
    else
      var last := msgs[|msgs| - 1];
      UnreadOf(msgs[..|msgs| - 1]) + (if IsUnread(last) then [last] else [])
  }

  lemma {:induction false} ReceivedByAppend(a: seq<Message>, b: seq<Message>, u: UserId)
    ensures ReceivedBy(a + b, u) == ReceivedBy(a, u) + ReceivedBy(b, u)
    decreases |b|
  {
    if b == [] {
      assert a + b == a;
    } else {
      var b' := b[..|b| - 1];
      assert (a + b)[..|a + b| - 1] == a + b';
      assert (a + b)[|a + b| - 1] == b[|b| - 1];
      ReceivedByAppend(a, b', u);
    }
  }

  lemma {:induction false} UnreadOfAppend(a: seq<Message>, b: seq<Message>)
    ensures UnreadOf(a + b) == UnreadOf(a) + UnreadOf(b)
    decreases |b|
  {
    if b == [] {
      assert a + b == a;
    } else {
      var b' := b[..|b| - 1];
      assert (a + b)[..|a + b| - 1] == a + b';
      assert (a + b)[|a + b| - 1] == b[|b| - 1];
      UnreadOfAppend(a, b');
    }
  }
}
