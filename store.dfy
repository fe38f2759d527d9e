/**
 * The message table as the admin's `obj.save()` sees it: a sequence of rows,
 * each with a distinct primary key, and the next key the table hands out.
 */
module Store {
  import opened Models

  datatype Table = Table(rows: seq<Message>, nextId: nat)

  /** Every row is saved, keys are distinct and below the next key. */
  predicate ValidTable(t: Table) {
    && (forall i :: 0 <= i < |t.rows| ==> t.rows[i].pk.Some? && t.rows[i].pk.value < t.nextId)
    && (forall i, j :: 0 <= i < j < |t.rows| ==> t.rows[i].pk != t.rows[j].pk)
  }

  predicate HasPk(rows: seq<Message>, id: MessageId) {
    exists i :: 0 <= i < |rows| && rows[i].pk == Some(id)
  }

  function Max(a: nat, b: nat): nat { if a < b then b else a }

  /** The table after a save, and the saved object as it then stands. */
  datatype Saved = Saved(table: Table, row: Message)

  /**
   * `Model.save()`: with no primary key, insert the object under a fresh key;
   * with a key some row has, overwrite that row; with a key no row has,
   * insert the object under that key.
   */
  function SaveInto(t: Table, m: Message): (s: Saved)
    ensures s.row.pk.Some? && SameContent(s.row, m) && s.row.recipient == m.recipient
    ensures m.pk.Some? ==> s.row == m
    ensures m.pk.None? ==> s.row.pk == Some(t.nextId) && s.table.rows == t.rows + [s.row]
    ensures m.pk.Some? && !HasPk(t.rows, m.pk.value) ==> s.table.rows == t.rows + [m]
  {
    match m.pk
    case None =>
      var row := m.(pk := Some(t.nextId));
      Saved(Table(t.rows + [row], t.nextId + 1), row)
    case Some(id) =>
      if HasPk(t.rows, id) then
        var rows := seq(|t.rows|, i requires 0 <= i < |t.rows| =>
                          if t.rows[i].pk == m.pk then m else t.rows[i]);
        Saved(Table(rows, t.nextId), m)
      else
        Saved(Table(t.rows + [m], Max(t.nextId, id + 1)), m)
  }

  /** A save keeps the table valid, and a new object's key is one no row has. */
  lemma SaveIntoKeepsValid(t: Table, m: Message)
    ensures var s := SaveInto(t, m);
            ValidTable(t) ==> ValidTable(s.table) && (m.pk.None? ==> !HasPk(t.rows, t.nextId))
  {
    if ValidTable(t) && m.pk.Some? && HasPk(t.rows, m.pk.value) {
      SaveIntoUpdate(t, m);
    }
  }

  lemma SavedRowStored(t: Table, m: Message)
    ensures SaveInto(t, m).row in SaveInto(t, m).table.rows
  {
    var s := SaveInto(t, m);
    if m.pk.Some? && HasPk(t.rows, m.pk.value) {
      SaveIntoUpdate(t, m);
      var i :| 0 <= i < |t.rows| && t.rows[i].pk == m.pk;
      assert s.table.rows[i] == m;
    } else {
      assert s.table.rows[|t.rows|] == s.row;
    }
  }

  /** Saving an object whose key some row has replaces that row and nothing else. */
  lemma SaveIntoUpdate(t: Table, m: Message)
    requires m.pk.Some? && HasPk(t.rows, m.pk.value)
    ensures var s := SaveInto(t, m);
            && s.table.nextId == t.nextId
            && |s.table.rows| == |t.rows|
            && forall i :: 0 <= i < |t.rows| ==>
                 s.table.rows[i] == if t.rows[i].pk == m.pk then m else t.rows[i]
  {
  }

  lemma {:induction false} InsertKeepsRows(t: Table, m: Message)
    requires m.pk.None?
    ensures var s := SaveInto(t, m);
            |s.table.rows| == |t.rows| + 1 && s.table.rows[..|t.rows|] == t.rows
            && s.table.rows[|t.rows|] == m.(pk := Some(t.nextId))
            && s.table.nextId == t.nextId + 1
  {
    var s := SaveInto(t, m);
    assert s.table.rows == t.rows + [s.row];
    assert (t.rows + [s.row])[..|t.rows|] == t.rows;
  }

  class MessageStore {
    var rows: seq<Message>
    var nextId: nat

    function State(): Table
      reads this
    {
      Table(rows, nextId)
    }

    predicate Valid()
      reads this
    {
      ValidTable(State())
    }

    constructor ()
      ensures Valid() && rows == [] && nextId == 1
    {
      rows, nextId := [], 1;
    }

    /** `obj.save()` on this table. */
    method Save(m: Message) returns (saved: Message)
      requires Valid()
      modifies this
      ensures Valid()
      ensures State() == SaveInto(old(State()), m).table
      ensures saved == SaveInto(old(State()), m).row
      ensures m.pk.None? ==>
                saved == m.(pk := Some(old(nextId))) && rows == old(rows) + [saved] && nextId == old(nextId) + 1
    {
      var s := SaveInto(State(), m);
      SaveIntoKeepsValid(State(), m);
      rows, nextId := s.table.rows, s.table.nextId;
      saved := s.row;
    }
  }
}
