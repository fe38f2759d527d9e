/**
 * The admin fan-out and the inbox tag read and write the same message table:
 * what a fan-out does to each user's unread count.
 */
module FanOutInbox {
  import opened Models
  import opened Store
  import opened Admin
  import opened Inbox

  lemma UnreadOfSingle(m: Message)
    ensures UnreadOf([m]) == if IsUnread(m) then [m] else []
  {
    assert [m][..0] == [];
  }

  lemma ReceivedBySingle(m: Message, u: UserId)
    ensures ReceivedBy([m], u) == if m.recipient == Some(u) then [m] else []
  {
    assert [m][..0] == [];
  }

  /** The unread messages among a user's copies: one if they get a copy and the message is unread. */
  lemma {:induction false} UnreadCopies(saved: Message, recips: seq<UserId>, firstId: nat, u: UserId)
    requires Distinct(recips)
    ensures |UnreadOf(ReceivedBy(FanOutCopies(saved, recips, firstId), u))|
            == if u in recips && IsUnread(saved) then 1 else 0
  {
    var got := ReceivedBy(FanOutCopies(saved, recips, firstId), u);
    CopiesPerRecipient(saved, recips, firstId, u);
    if |got| == 1 {
      assert got == [got[0]];
      assert got[0] in got;
      UnreadOfSingle(got[0]);
    }
  }

  /**
   * Saving a new message with extra recipients `recips` (no repeats) raises,
   * when the message is unread, the entered recipient's unread count and each
   * extra recipient's by one, and leaves every other count as it was.
   */
  lemma {:induction false} NewMessageUnreadCounts(t: Table, obj: Message, selection: ChoiceValue,
                                                  users: seq<UserId>, groups: seq<Group>, recips: seq<UserId>, u: UserId)
    requires obj.pk.None? && obj.recipient.Some?
    requires Recipients(users, groups, selection, obj.recipient.value) == Success(recips)
    requires Distinct(recips)
    ensures UnreadCount(AfterSaveModel(t, obj, selection, users, groups).table.rows, u)
            == UnreadCount(t.rows, u)
               + if IsUnread(obj)
                 then (if obj.recipient == Some(u) then 1 else 0) + (if u in recips then 1 else 0)
                 else 0
  {
    var first := SaveInto(t, obj);
    var copies := FanOutCopies(first.row, recips, first.table.nextId);
    AfterSaveModelFanOut(t, obj, selection, users, groups, recips);
    assert first.table.rows == t.rows + [first.row];
    UnreadCountAppend(t.rows + [first.row], copies, u);
    UnreadCountAppend(t.rows, [first.row], u);
    ReceivedBySingle(first.row, u);
    UnreadOfSingle(first.row);
    UnreadCopies(first.row, recips, first.table.nextId, u);
  }
}
