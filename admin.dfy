/**
 * The message admin: the form's group selector, its validation of the
 * recipient and group fields, and `save_model`, which saves the submitted
 * message and then copies it to every user or to every member of a group.
 */
module Admin {
  import opened Models
  import opened Store

  // ---------------------------------------------------------------------
  // The group selector
  // ---------------------------------------------------------------------

  /** The value of a selector choice: '' (no group), 'all', or a group's key. */
  datatype ChoiceValue = Blank | AllUsers | GroupPk(pk: nat)

  datatype Choice = Choice(value: ChoiceValue, caption: string)

  const BlankLabel: string := "---------"
  const AllUsersLabel: string := "All users"

  /** `_get_group_choices`: the blank choice, 'All users', then one choice per group. */
  function GroupChoices(groups: seq<Group>): (r: seq<Choice>)
    ensures |r| == 2 + |groups|
    ensures r[0] == Choice(Blank, BlankLabel) && r[1] == Choice(AllUsers, AllUsersLabel)
    ensures forall i :: 0 <= i < |groups| ==> r[2 + i] == Choice(GroupPk(groups[i].pk), groups[i].name)
  {
    [Choice(Blank, BlankLabel), Choice(AllUsers, AllUsersLabel)]
      + seq(|groups|, i requires 0 <= i < |groups| => Choice(GroupPk(groups[i].pk), groups[i].name))
  }

  predicate Offered(choices: seq<Choice>, v: ChoiceValue) {
    exists i :: 0 <= i < |choices| && choices[i].value == v
  }

  /** `Group.objects.get(pk=pk)`, with None for a key no group has. */
  function FindGroup(groups: seq<Group>, pk: nat): (r: Option<Group>)
    ensures r.Some? <==> exists i :: 0 <= i < |groups| && groups[i].pk == pk
    ensures r.Some? ==> r.value in groups && r.value.pk == pk
  {
    if groups == [] then None
    else if groups[0].pk == pk then Some(groups[0])
    else FindGroup(groups[1..], pk)
  }

  /** The selector offers exactly '', 'all' and the keys of existing groups. */
  lemma {:induction false} OfferedChoices(groups: seq<Group>, v: ChoiceValue)
    ensures Offered(GroupChoices(groups), v)
            <==> v.Blank? || v.AllUsers? || (v.GroupPk? && FindGroup(groups, v.pk).Some?)
  {
    var choices := GroupChoices(groups);
    if v.GroupPk? {
      if FindGroup(groups, v.pk).Some? {
        var i :| 0 <= i < |groups| && groups[i].pk == v.pk;
        assert choices[2 + i].value == v;
      }
      if Offered(choices, v) {
        var k :| 0 <= k < |choices| && choices[k].value == v;
        assert groups[k - 2].pk == v.pk;
      }
    } else if v.Blank? {
      assert choices[0].value == v;
    } else {
      assert choices[1].value == v;
    }
  }

  // ---------------------------------------------------------------------
  // The form
  // ---------------------------------------------------------------------

  datatype FormField = RecipientField | GroupField

  datatype CleanedData = CleanedData(recipient: Option<UserId>, group: ChoiceValue)

  /**
   * `MessageAdminForm`: the constructor fills the selector from the groups and
   * makes the recipient required. Only the recipient and group fields are
   * modelled; the other fields' validation comes from the Message model.
   */
  class MessageAdminForm {
    var recipientRequired: bool
    const groupRequired: bool
    var groupChoices: seq<Choice>

    constructor (groups: seq<Group>)
      ensures recipientRequired && !groupRequired
      ensures groupChoices == GroupChoices(groups)
    {
      groupRequired := false;
      recipientRequired := false;
      groupChoices := [];
      new;
      groupChoices := GroupChoices(groups);
      recipientRequired := true;
    }

    /**
     * Field validation against the users in the table: a required field left
     * empty is an error, the recipient (a foreign key) must be an existing
     * user, and a non-empty selector value must be one of the offered choices.
     */
    function Clean(users: seq<UserId>, recipient: Option<UserId>, group: ChoiceValue)
      : (r: Result<CleanedData, set<FormField>>)
      reads this
      ensures r.Success? ==> r.value == CleanedData(recipient, group)
      ensures r.Failure? ==> r.error != {}
      ensures (r.Failure? && RecipientField in r.error)
              <==> if recipient.None? then recipientRequired else recipient.value !in users
      ensures (r.Failure? && GroupField in r.error)
              <==> if group.Blank? then groupRequired else !Offered(groupChoices, group)
    {
      var errors :=
        (if (if recipient.None? then recipientRequired else recipient.value !in users) then {RecipientField} else {})
        + (if (if group.Blank? then groupRequired else !Offered(groupChoices, group)) then {GroupField} else {});
      if errors == {} then Success(CleanedData(recipient, group)) else Failure(errors)
    }
  }

  /**
   * What a freshly built form accepts is what `save_model` can use: the
   * recipient is an existing user, and the selected group (if any) exists, so the
   * recipient lookup cannot fail on the same groups.
   */
  lemma {:induction false} CleanedFormResolves(form: MessageAdminForm, groups: seq<Group>, users: seq<UserId>,
                                               recipient: Option<UserId>, group: ChoiceValue)
    requires form.recipientRequired && !form.groupRequired
    requires form.groupChoices == GroupChoices(groups)
    ensures form.Clean(users, recipient, group).Success?
            <==> recipient.Some? && recipient.value in users && (group.GroupPk? ==> FindGroup(groups, group.pk).Some?)
    ensures form.Clean(users, recipient, group).Success? ==> Recipients(users, groups, group, recipient.value).Success?
  {
    OfferedChoices(groups, group);
  }

  // ---------------------------------------------------------------------
  // save_model
  // ---------------------------------------------------------------------

  /** `Group.DoesNotExist`, raised by the lookup of a selected group. */
  datatype AdminError = GroupDoesNotExist(pk: nat)

  /** `.exclude(pk=r)` over a user list: the same users in order, without `r`. */
  function Exclude(users: seq<UserId>, r: UserId): (xs: seq<UserId>)
    ensures |xs| <= |users|
    ensures forall u :: u in xs <==> u in users && u != r
    ensures Distinct(users) ==> Distinct(xs)
  {
    if users == [] then []
    else
      var rest := Exclude(users[1..], r);
      assert Distinct(users) ==> Distinct(users[1..]) && users[0] !in users[1..];
      (if users[0] == r then [] else [users[0]]) + rest
  }

  /**
   * The users who get a copy besides `r`: every user for 'all', the group's
   * members for a group key, nobody for the blank choice.
   */
  function Recipients(users: seq<UserId>, groups: seq<Group>, selection: ChoiceValue, r: UserId)
    : (res: Result<seq<UserId>, AdminError>)
    ensures res.Failure? <==> selection.GroupPk? && FindGroup(groups, selection.pk).None?
    ensures res.Failure? ==> res.error == GroupDoesNotExist(selection.pk)
    ensures res.Success? ==> r !in res.value
    ensures selection.Blank? ==> res == Success([])
    ensures selection.AllUsers? ==>
              && (forall u :: u in res.value <==> u in users && u != r)
              && (Distinct(users) ==> Distinct(res.value))
    ensures selection.GroupPk? && res.Success? ==>
              var group := FindGroup(groups, selection.pk).value;
              && (forall u :: u in res.value <==> u in group.members && u != r)
              && (Distinct(group.members) ==> Distinct(res.value))
  {
    match selection
    case AllUsers => Success(Exclude(users, r))
    case Blank => Success([])
    case GroupPk(g) =>
      match FindGroup(groups, g)
      case None => Failure(GroupDoesNotExist(g))
      case Some(group) => Success(Exclude(group.members, r))
  }

  /** The rows the fan-out loop inserts: one per recipient, keys from `firstId` on. */
  function FanOutCopies(saved: Message, recips: seq<UserId>, firstId: nat): (copies: seq<Message>)
    ensures |copies| == |recips|
    ensures forall k :: 0 <= k < |recips| ==>
              && copies[k].pk == Some(firstId + k)
              && copies[k].recipient == Some(recips[k])
              && SameContent(copies[k], saved)
  {
    seq(|recips|, k requires 0 <= k < |recips| => saved.(pk := Some(firstId + k), recipient := Some(recips[k])))
  }

  lemma FanOutSnoc(saved: Message, recips: seq<UserId>, i: nat, firstId: nat)
    requires i < |recips|
    ensures FanOutCopies(saved, recips[..i + 1], firstId)
            == FanOutCopies(saved, recips[..i], firstId) + [FanOutCopies(saved, recips, firstId)[i]]
  {
    var a := FanOutCopies(saved, recips[..i + 1], firstId);
    var b := FanOutCopies(saved, recips[..i], firstId) + [FanOutCopies(saved, recips, firstId)[i]];
    assert |a| == |b|;
    forall k | 0 <= k < |a| ensures a[k] == b[k] {
    }
  }

  /** The table after `save_model`, and the admin's object as the loop leaves it. */
  datatype Outcome = Outcome(table: Table, result: Result<Message, AdminError>)

  function AfterSaveModel(t: Table, obj: Message, selection: ChoiceValue, users: seq<UserId>, groups: seq<Group>)
    : (o: Outcome)
    requires obj.recipient.Some?
    ensures o.result.Failure? <==> selection.GroupPk? && FindGroup(groups, selection.pk).None?
    ensures o.result.Failure? ==> o.result.error == GroupDoesNotExist(selection.pk) && o.table == SaveInto(t, obj).table
    ensures o.result.Success? ==> SameContent(o.result.value, obj) && o.result.value.pk.Some?
  {
    var first := SaveInto(t, obj);
    match Recipients(users, groups, selection, obj.recipient.value)
    case Failure(e) => Outcome(first.table, Failure(e))
    case Success(recips) =>
      var copies := FanOutCopies(first.row, recips, first.table.nextId);
      Outcome(Table(first.table.rows + copies, first.table.nextId + |recips|),
              Success(if recips == [] then first.row else copies[|copies| - 1]))
  }

  /** `AfterSaveModel` once the recipient lookup has succeeded. */
  lemma AfterSaveModelFanOut(t: Table, obj: Message, selection: ChoiceValue, users: seq<UserId>, groups: seq<Group>,
                             recips: seq<UserId>)
    requires obj.recipient.Some?
    requires Recipients(users, groups, selection, obj.recipient.value) == Success(recips)
    ensures var first := SaveInto(t, obj);
            var copies := FanOutCopies(first.row, recips, first.table.nextId);
            AfterSaveModel(t, obj, selection, users, groups)
              == Outcome(Table(first.table.rows + copies, first.table.nextId + |recips|),
                         Success(if recips == [] then first.row else copies[|copies| - 1]))
  {
  }

  /** `save_model` keeps the table's keys distinct and below the counter. */
  lemma SaveModelKeepsTableValid(t: Table, obj: Message, selection: ChoiceValue, users: seq<UserId>, groups: seq<Group>)
    requires ValidTable(t) && obj.recipient.Some?
    ensures ValidTable(AfterSaveModel(t, obj, selection, users, groups).table)
  {
    var first := SaveInto(t, obj);
    SaveIntoKeepsValid(t, obj);
    var recips := Recipients(users, groups, selection, obj.recipient.value);
    if recips.Success? {
      AfterSaveModelFanOut(t, obj, selection, users, groups, recips.value);
      CopiesKeepTableValid(first.table, first.row, recips.value);
    }
  }

  lemma CopiesKeepTableValid(t: Table, saved: Message, recips: seq<UserId>)
    ensures ValidTable(t) ==>
              ValidTable(Table(t.rows + FanOutCopies(saved, recips, t.nextId), t.nextId + |recips|))
  {
    var copies := FanOutCopies(saved, recips, t.nextId);
    var rows := t.rows + copies;
    if ValidTable(t) {
      forall i, j | 0 <= i < j < |rows| ensures rows[i].pk != rows[j].pk {
        if j >= |t.rows| {
          assert rows[j] == copies[j - |t.rows|];
          if i >= |t.rows| {
            assert rows[i] == copies[i - |t.rows|];
          }
        }
      }
    }
  }

  /**
   * `MessageAdmin.save_model`: save the submitted object, then for each extra
   * recipient clear the key, set the recipient and save again.
   */
  method SaveModel(store: MessageStore, obj: Message, selection: ChoiceValue,
                   users: seq<UserId>, groups: seq<Group>)
    returns (result: Result<Message, AdminError>)
    requires store.Valid()
    requires obj.recipient.Some?
    modifies store
    ensures store.Valid()
    ensures store.State() == AfterSaveModel(old(store.State()), obj, selection, users, groups).table
    ensures result == AfterSaveModel(old(store.State()), obj, selection, users, groups).result
  {
    var current := store.Save(obj);
    var recipients := Recipients(users, groups, selection, obj.recipient.value);
    if recipients.Failure? {
      return Failure(recipients.error);
    }
    AfterSaveModelFanOut(old(store.State()), obj, selection, users, groups, recipients.value);
    current := SendCopies(store, current, recipients.value);
    result := Success(current);
  }

  /**
   * The `for user in recipients` loop of `save_model`: each round clears the
   * object's key, sets its recipient and saves it, which inserts a new row.
   */
  method SendCopies(store: MessageStore, obj: Message, recipients: seq<UserId>) returns (last: Message)
    requires store.Valid()
    modifies store
    ensures store.Valid()
    ensures store.rows == old(store.rows) + FanOutCopies(obj, recipients, old(store.nextId))
    ensures store.nextId == old(store.nextId) + |recipients|
    ensures last == if recipients == [] then obj else FanOutCopies(obj, recipients, old(store.nextId))[|recipients| - 1]
  {
    ghost var first := store.State();
    last := obj;
    for i := 0 to |recipients|
      invariant store.Valid()
      invariant store.rows == first.rows + FanOutCopies(obj, recipients[..i], first.nextId)
      invariant store.nextId == first.nextId + i
      invariant SameContent(last, obj)
      invariant last == if i == 0 then obj else FanOutCopies(obj, recipients, first.nextId)[i - 1]
    {
      last := last.(pk := None, recipient := Some(recipients[i]));
      last := store.Save(last);
      FanOutSnoc(obj, recipients, i, first.nextId);
    }
    assert recipients[..|recipients|] == recipients;
  }

  // ---------------------------------------------------------------------
  // Properties of save_model
  // ---------------------------------------------------------------------

  /** Each user in a list without repeats receives exactly one of the copies. */
  lemma {:induction false} CopiesPerRecipient(saved: Message, recips: seq<UserId>, firstId: nat, u: UserId)
    requires Distinct(recips)
    ensures var got := ReceivedBy(FanOutCopies(saved, recips, firstId), u);
            && |got| == (if u in recips then 1 else 0)
            && forall m :: m in got ==> SameContent(m, saved)
    decreases |recips|
  {
    var copies := FanOutCopies(saved, recips, firstId);
    if recips != [] {
      var n := |recips| - 1;
      var init := recips[..n];
      assert copies == FanOutCopies(saved, init, firstId) + [copies[n]];
      assert Distinct(init);
      CopiesPerRecipient(saved, init, firstId, u);
      ReceivedByAppend(FanOutCopies(saved, init, firstId), [copies[n]], u);
      assert [copies[n]][..0] == [];
      assert u in recips <==> u in init || u == recips[n];
      assert u == recips[n] ==> u !in init;
    }
  }

  /** The submitted message is saved first, as entered, whatever the selector says. */
  lemma SubmittedSavedFirst(t: Table, obj: Message, selection: ChoiceValue, users: seq<UserId>, groups: seq<Group>)
    requires obj.recipient.Some?
    ensures var first := SaveInto(t, obj);
            var o := AfterSaveModel(t, obj, selection, users, groups);
            && |first.table.rows| <= |o.table.rows|
            && o.table.rows[..|first.table.rows|] == first.table.rows
            && first.row in o.table.rows
            && SameContent(first.row, obj) && first.row.recipient == obj.recipient
  {
    var first := SaveInto(t, obj);
    var o := AfterSaveModel(t, obj, selection, users, groups);
    SavedRowStored(t, obj);
    if Recipients(users, groups, selection, obj.recipient.value).Success? {
      var recips := Recipients(users, groups, selection, obj.recipient.value).value;
      var copies := FanOutCopies(first.row, recips, first.table.nextId);
      assert o.table.rows == first.table.rows + copies;
      assert (first.table.rows + copies)[..|first.table.rows|] == first.table.rows;
    }
  }

  /** With the blank choice the only write is the first save. */
  lemma BlankSelectionSavesOnce(t: Table, obj: Message, users: seq<UserId>, groups: seq<Group>)
    requires obj.recipient.Some?
    ensures AfterSaveModel(t, obj, Blank, users, groups) == Outcome(SaveInto(t, obj).table, Success(SaveInto(t, obj).row))
  {
    assert FanOutCopies(SaveInto(t, obj).row, [], SaveInto(t, obj).table.nextId) == [];
    assert SaveInto(t, obj).table.rows + [] == SaveInto(t, obj).table.rows;
  }

  /** A selected group that no longer exists fails after the first save. */
  lemma MissingGroupFailsAfterFirstSave(t: Table, obj: Message, pk: nat, users: seq<UserId>, groups: seq<Group>)
    requires obj.recipient.Some?
    requires FindGroup(groups, pk).None?
    ensures AfterSaveModel(t, obj, GroupPk(pk), users, groups)
            == Outcome(SaveInto(t, obj).table, Failure(GroupDoesNotExist(pk)))
  {
  }

  /**
   * For a new message: the old rows stay as they were, the submitted message
   * is inserted under the next key, then one copy per extra recipient follows
   * under the keys after it, and none of those keys was in use before.
   */
  lemma NewMessageFanOut(t: Table, obj: Message, selection: ChoiceValue,
                         users: seq<UserId>, groups: seq<Group>, recips: seq<UserId>)
    requires ValidTable(t) && obj.pk.None? && obj.recipient.Some?
    requires Recipients(users, groups, selection, obj.recipient.value) == Success(recips)
    ensures var row := obj.(pk := Some(t.nextId));
            var o := AfterSaveModel(t, obj, selection, users, groups);
            && o.table.rows == t.rows + [row] + FanOutCopies(row, recips, t.nextId + 1)
            && o.table.nextId == t.nextId + 1 + |recips|
    ensures forall id :: t.nextId <= id ==> !HasPk(t.rows, id)
  {
    AfterSaveModelFanOut(t, obj, selection, users, groups, recips);
    forall id | t.nextId <= id ensures !HasPk(t.rows, id) {
      assert forall i :: 0 <= i < |t.rows| ==> t.rows[i].pk != Some(id);
    }
  }

  /**
   * For a new message with extra recipients `recips` (no repeats): every
   * user's received rows grow by one if they are the entered recipient and
   * by one if they are an extra recipient, so nobody gets two copies and the
   * entered recipient never gets a second one.
   */
  lemma {:induction false} NewMessageReceivedOnce(t: Table, obj: Message, selection: ChoiceValue,
                                                  users: seq<UserId>, groups: seq<Group>, recips: seq<UserId>, u: UserId)
    requires obj.pk.None? && obj.recipient.Some?
    requires Recipients(users, groups, selection, obj.recipient.value) == Success(recips)
    requires Distinct(recips)
    ensures var o := AfterSaveModel(t, obj, selection, users, groups);
            |ReceivedBy(o.table.rows, u)|
              == |ReceivedBy(t.rows, u)| + (if obj.recipient == Some(u) then 1 else 0) + (if u in recips then 1 else 0)
    ensures obj.recipient == Some(u) ==>
              |ReceivedBy(AfterSaveModel(t, obj, selection, users, groups).table.rows, u)| == |ReceivedBy(t.rows, u)| + 1
  {
    var first := SaveInto(t, obj);
    var copies := FanOutCopies(first.row, recips, first.table.nextId);
    assert first.table.rows == t.rows + [first.row];
    ReceivedByAppend(t.rows + [first.row], copies, u);
    ReceivedByAppend(t.rows, [first.row], u);
    assert [first.row][..0] == [];
    CopiesPerRecipient(first.row, recips, first.table.nextId, u);
  }
}
