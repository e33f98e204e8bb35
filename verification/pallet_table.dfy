/** The pallet-check table and its row counter (js/script.js: `palletCount`,
    `addPalletRow`, `removePalletRow`, `setRowOK` and the change handlers of a
    row's inputs). Rows are found by id the way `document.getElementById`
    finds them: the first row carrying the id. */
module PalletTable {
  import opened Options
  import opened Scoring

  /** The rows in table order and `palletCount`, the last id handed out. */
  datatype Table = Table(rows: seq<Row>, counter: nat)

  /** The table a session starts with, and the one submission resets to
      before adding its first row. */
  const Empty: Table := Table([], 0)

  /** The ids of the rows, in table order. */
  function Ids(rows: seq<Row>): (s: seq<nat>)
    ensures |s| == |rows|
    ensures forall i :: 0 <= i < |rows| ==> s[i] == rows[i].id
  {
    seq(|rows|, i requires 0 <= i < |rows| => rows[i].id)
  }

  /** Ids strictly increase in table order, so no two rows share one. */
  predicate IdsIncrease(rows: seq<Row>) {
    forall i, j :: 0 <= i < j < |rows| ==> rows[i].id < rows[j].id
  }

  /** The table invariant: ids strictly increase in table order, every id
      lies between 1 and the counter, and every row is consistent. */
  predicate Valid(t: Table) {
    && IdsIncrease(t.rows)
    && (forall i :: 0 <= i < |t.rows| ==> 1 <= t.rows[i].id <= t.counter)
    && (forall i :: 0 <= i < |t.rows| ==> RowConsistent(t.rows[i]))
  }

  /** Position of the first row with this id, if any. */
  function Find(rows: seq<Row>, id: nat): (k: Option<nat>)
    ensures k.None? <==> id !in Ids(rows)
    ensures k.Some? ==> k.value < |rows| && rows[k.value].id == id
    ensures k.Some? ==> forall j :: 0 <= j < k.value ==> rows[j].id != id
  {
    if |rows| == 0 then None
    else if rows[0].id == id then Some(0)
    else
      match Find(rows[1..], id)
      case None => None
      case Some(j) =>
        assert Ids(rows[1..])[j] == Ids(rows)[j + 1];
        Some(j + 1)
  }

  /** `addPalletRow`: the counter goes up by one and a blank row carrying the
      new counter value is appended after the existing rows. */
  function AddRow(t: Table): (r: Table)
    ensures r.counter == t.counter + 1
    ensures |r.rows| == |t.rows| + 1 && r.rows[..|t.rows|] == t.rows
    ensures r.rows[|t.rows|] == BlankRow(r.counter)
  {
    Table(t.rows + [BlankRow(t.counter + 1)], t.counter + 1)
  }

  /** Adding a row keeps the table invariant: the new id is above every id
      in the table, and a blank row is consistent. */
  lemma AddRowKeepsValid(t: Table)
    requires Valid(t)
    ensures Valid(AddRow(t))
  {
    BlankRowConsistent(t.counter + 1);
    AppendKeepsOrder(t.rows, BlankRow(t.counter + 1));
    var rows := AddRow(t).rows;
    forall i | 0 <= i < |rows|
      ensures 1 <= rows[i].id <= t.counter + 1 && RowConsistent(rows[i])
    {
      if i < |t.rows| {
        assert rows[i] == t.rows[i];
      }
    }
  }

  /** Appending a row whose id is above every id keeps ids increasing. */
  lemma AppendKeepsOrder(rows: seq<Row>, row: Row)
    requires IdsIncrease(rows)
    requires forall i :: 0 <= i < |rows| ==> rows[i].id < row.id
    ensures IdsIncrease(rows + [row])
  {
    var r := rows + [row];
    forall i, j | 0 <= i < j < |r|
      ensures r[i].id < r[j].id
    {
      assert r[i] == rows[i];
    }
  }

  /** The rows with position `k` taken out; the others keep their order. */
  function RemoveAt(rows: seq<Row>, k: nat): (r: seq<Row>)
    requires k < |rows|
    ensures |r| == |rows| - 1
    ensures forall i :: 0 <= i < k ==> r[i] == rows[i]
    ensures forall i :: k < i < |rows| ==> r[i - 1] == rows[i]
  {
    seq(|rows| - 1, i requires 0 <= i < |rows| - 1 => if i < k then rows[i] else rows[i + 1])
  }

  /** `removePalletRow`: the first row with this id leaves the table; the
      other rows keep their order, contents and ids, and the counter stays.
      With no such row nothing happens. */
  function RemoveRow(t: Table, id: nat): (r: Table)
    ensures r.counter == t.counter
    ensures id !in Ids(t.rows) ==> r == t
    ensures id in Ids(t.rows) ==>
              exists k :: 0 <= k < |t.rows| && t.rows[k].id == id && r.rows == RemoveAt(t.rows, k)
    ensures id in Ids(t.rows) ==> Find(t.rows, id).Some? && r.rows == RemoveAt(t.rows, Find(t.rows, id).value)
  {
    match Find(t.rows, id)
    case None => t
    case Some(k) => Table(RemoveAt(t.rows, k), t.counter)
  }

  /** Replacing the row at position `k` by a row with the same id keeps the
      ids. */
  lemma ReplaceRowKeepsIds(rows: seq<Row>, k: nat, row: Row)
    requires k < |rows| && row.id == rows[k].id
    ensures Ids(rows[k := row]) == Ids(rows)
  {
  }

  /** Replacing the row at position `k` by a consistent row with the same id
      keeps the table invariant. */
  lemma ReplaceRowKeepsValid(t: Table, k: nat, row: Row)
    requires k < |t.rows| && row.id == t.rows[k].id
    requires Valid(t) && RowConsistent(row)
    ensures Valid(t.(rows := t.rows[k := row]))
  {
  }

  /** `setRowOK`: the row with this id gets all five checks "OK", 100%, and no
      highlight; every other row is untouched. With no such row nothing
      changes (the source's rescoring call then fails on the missing inputs). */
  function SetRowOk(t: Table, id: nat): (r: Table)
    ensures r.counter == t.counter && |r.rows| == |t.rows| && Ids(r.rows) == Ids(t.rows)
    ensures forall i :: 0 <= i < |t.rows| && t.rows[i].id != id ==> r.rows[i] == t.rows[i]
    ensures forall i :: Find(t.rows, id) == Some(i) ==>
              && r.rows[i].checks == AllOk && r.rows[i].percent == Shown(100)
              && r.rows[i].flagged == {} && !r.rows[i].warning
              && r.rows[i].quantity == t.rows[i].quantity && r.rows[i].notes == t.rows[i].notes
  {
    match Find(t.rows, id)
    case None => t
    case Some(k) =>
      var row := MarkAllOk(t.rows[k]);
      ReplaceRowKeepsIds(t.rows, k, row);
      t.(rows := t.rows[k := row])
  }

  /** "All OK" keeps the table invariant. */
  lemma SetRowOkKeepsValid(t: Table, id: nat)
    requires Valid(t)
    ensures Valid(SetRowOk(t, id))
  {
    var k := Find(t.rows, id);
    if k.Some? {
      MarkAllOkConsistent(t.rows[k.value]);
      ReplaceRowKeepsValid(t, k.value, MarkAllOk(t.rows[k.value]));
    }
  }

  /** The change handler of check `f` in the row with this id. */
  function ChangeCheck(t: Table, id: nat, f: Field, v: Check): (r: Table)
    ensures r.counter == t.counter && |r.rows| == |t.rows| && Ids(r.rows) == Ids(t.rows)
    ensures forall i :: 0 <= i < |t.rows| && t.rows[i].id != id ==> r.rows[i] == t.rows[i]
    ensures forall i :: Find(t.rows, id) == Some(i) ==> r.rows[i].checks.Get(f) == v
    ensures forall i :: Find(t.rows, id) == Some(i) ==> r.rows[i] == SetCheck(t.rows[i], f, v)
  {
    match Find(t.rows, id)
    case None => t
    case Some(k) =>
      var row := SetCheck(t.rows[k], f, v);
      ReplaceRowKeepsIds(t.rows, k, row);
      t.(rows := t.rows[k := row])
  }

  /** A select change keeps the table invariant. */
  lemma ChangeCheckKeepsValid(t: Table, id: nat, f: Field, v: Check)
    requires Valid(t)
    ensures Valid(ChangeCheck(t, id, f, v))
  {
    var k := Find(t.rows, id);
    if k.Some? {
      SetCheckKeepsConsistent(t.rows[k.value], f, v);
      ReplaceRowKeepsValid(t, k.value, SetCheck(t.rows[k.value], f, v));
    }
  }

  /** The change handler of the total-inspected input in the row with this id. */
  function ChangeQuantity(t: Table, id: nat, q: string): (r: Table)
    ensures r.counter == t.counter && |r.rows| == |t.rows| && Ids(r.rows) == Ids(t.rows)
    ensures forall i :: 0 <= i < |t.rows| && t.rows[i].id != id ==> r.rows[i] == t.rows[i]
    ensures forall i :: Find(t.rows, id) == Some(i) ==>
              r.rows[i].quantity == q && r.rows[i].percent == Rescore(t.rows[i]).percent
    ensures forall i :: Find(t.rows, id) == Some(i) ==> r.rows[i] == SetQuantity(t.rows[i], q)
  {
    match Find(t.rows, id)
    case None => t
    case Some(k) =>
      var row := SetQuantity(t.rows[k], q);
      ReplaceRowKeepsIds(t.rows, k, row);
      t.(rows := t.rows[k := row])
  }

  /** A quantity change keeps the table invariant. */
  lemma ChangeQuantityKeepsValid(t: Table, id: nat, q: string)
    requires Valid(t)
    ensures Valid(ChangeQuantity(t, id, q))
  {
    var k := Find(t.rows, id);
    if k.Some? {
      SetQuantityKeepsConsistent(t.rows[k.value], q);
      ReplaceRowKeepsValid(t, k.value, SetQuantity(t.rows[k.value], q));
    }
  }

  /** A user edit of the notes text area in the row with this id: only that
      row's notes change; its checks, marks and percentage stay. */
  function ChangeNotes(t: Table, id: nat, text: string): (r: Table)
    ensures r.counter == t.counter && |r.rows| == |t.rows| && Ids(r.rows) == Ids(t.rows)
    ensures forall i :: 0 <= i < |t.rows| && t.rows[i].id != id ==> r.rows[i] == t.rows[i]
    ensures forall i :: Find(t.rows, id) == Some(i) ==>
              r.rows[i].notes == text && r.rows[i].(notes := t.rows[i].notes) == t.rows[i]
  {
    match Find(t.rows, id)
    case None => t
    case Some(k) =>
      var row := t.rows[k].(notes := text);
      ReplaceRowKeepsIds(t.rows, k, row);
      t.(rows := t.rows[k := row])
  }

  /** A notes edit keeps the table invariant. */
  lemma ChangeNotesKeepsValid(t: Table, id: nat, text: string)
    requires Valid(t)
    ensures Valid(ChangeNotes(t, id, text))
  {
    var k := Find(t.rows, id);
    if k.Some? {
      var row := t.rows[k.value];
      assert FilledCount(row.(notes := text).checks) == FilledCount(row.checks);
      ReplaceRowKeepsValid(t, k.value, row.(notes := text));
    }
  }

  /** `n` rows added one after another. */
  function AddRows(t: Table, n: nat): (r: Table)
    ensures r.counter == t.counter + n
    decreases n
  {
    if n == 0 then t else AddRows(AddRow(t), n - 1)
  }

  /** Row `i` after removing position `k` is the row that followed it in the
      original table from position `k` on. */
  lemma RemoveAtSource(rows: seq<Row>, k: nat, i: nat)
    requires k < |rows| && i < |rows| - 1
    ensures RemoveAt(rows, k)[i] == rows[if i < k then i else i + 1]
  {
  }

  /** Taking a row out keeps the remaining ids strictly increasing. */
  lemma RemoveAtKeepsOrder(rows: seq<Row>, k: nat)
    requires k < |rows|
    requires IdsIncrease(rows)
    ensures IdsIncrease(RemoveAt(rows, k))
  {
    var r := RemoveAt(rows, k);
    forall i, j | 0 <= i < j < |r|
      ensures r[i].id < r[j].id
    {
      RemoveAtSource(rows, k, i);
      RemoveAtSource(rows, k, j);
    }
  }

  /** Every row left after taking one out was a row of the table before. */
  lemma RemoveAtKeepsRows(rows: seq<Row>, k: nat, counter: nat)
    requires k < |rows|
    requires forall i :: 0 <= i < |rows| ==> 1 <= rows[i].id <= counter && RowConsistent(rows[i])
    ensures forall i :: 0 <= i < |RemoveAt(rows, k)| ==>
              1 <= RemoveAt(rows, k)[i].id <= counter && RowConsistent(RemoveAt(rows, k)[i])
  {
    var r := RemoveAt(rows, k);
    forall i | 0 <= i < |r|
      ensures 1 <= r[i].id <= counter && RowConsistent(r[i])
    {
      RemoveAtSource(rows, k, i);
    }
  }

  /** Removing a row keeps the table invariant. */
  lemma RemoveRowKeepsValid(t: Table, id: nat)
    requires Valid(t)
    ensures Valid(RemoveRow(t, id))
  {
    var k := Find(t.rows, id);
    if k.Some? {
      RemoveAtKeepsOrder(t.rows, k.value);
      RemoveAtKeepsRows(t.rows, k.value, t.counter);
    }
  }

  /** In a valid table, removal takes away exactly the id asked for: every
      other id stays. */
  lemma RemoveRowIds(t: Table, id: nat)
    requires Valid(t)
    ensures forall x :: x in Ids(RemoveRow(t, id).rows) <==> x in Ids(t.rows) && x != id
  {
    var k := Find(t.rows, id);
    if k.Some? {
      RemoveAtIds(t.rows, k.value);
    }
  }

  /** With increasing ids, taking out position `k` removes exactly the id of
      that row from the ids. */
  lemma RemoveAtIds(rows: seq<Row>, k: nat)
    requires k < |rows| && IdsIncrease(rows)
    ensures forall x :: x in Ids(RemoveAt(rows, k)) <==> x in Ids(rows) && x != rows[k].id
  {
    RemoveAtKeepsOtherIds(rows, k);
    RemoveAtDropsId(rows, k);
  }

  /** Every id other than the removed row's survives the removal. */
  lemma RemoveAtKeepsOtherIds(rows: seq<Row>, k: nat)
    requires k < |rows|
    ensures forall x :: x in Ids(rows) && x != rows[k].id ==> x in Ids(RemoveAt(rows, k))
  {
    var r := RemoveAt(rows, k);
    forall x | x in Ids(rows) && x != rows[k].id
      ensures x in Ids(r)
    {
      var i :| 0 <= i < |rows| && rows[i].id == x;
      var i' := if i < k then i else i - 1;
      RemoveAtSource(rows, k, i');
      assert Ids(r)[i'] == x;
    }
  }

  /** With increasing ids, the removed row's id is gone and no id is new. */
  lemma RemoveAtDropsId(rows: seq<Row>, k: nat)
    requires k < |rows| && IdsIncrease(rows)
    ensures forall x :: x in Ids(RemoveAt(rows, k)) ==> x in Ids(rows) && x != rows[k].id
  {
    var r := RemoveAt(rows, k);
    forall x | x in Ids(r)
      ensures x in Ids(rows) && x != rows[k].id
    {
      var i :| 0 <= i < |r| && r[i].id == x;
      RemoveAtSource(rows, k, i);
      var i' := if i < k then i else i + 1;
      assert Ids(rows)[i'] == x;
    }
  }

  /** Adding a row and then removing it gives back the rows there were before;
      only the counter stays advanced. */
  lemma AddThenRemoveRestoresRows(t: Table)
    requires Valid(t)
    ensures RemoveRow(AddRow(t), t.counter + 1) == Table(t.rows, t.counter + 1)
  {
    var a := AddRow(t);
    var n := |t.rows|;
    assert Ids(a.rows)[n] == t.counter + 1;
    var k := Find(a.rows, t.counter + 1);
    assert k.Some?;
    assert forall j :: 0 <= j < n ==> a.rows[j] == t.rows[j];
    assert k.value == n;
    var rows := RemoveAt(a.rows, n);
    assert rows == t.rows by {
      forall i | 0 <= i < n
        ensures rows[i] == t.rows[i]
      {
        assert a.rows[i] == t.rows[i];
      }
    }
  }

  /** Rows added later carry ids above every id handed out before them. */
  lemma {:induction false} AddRowsIdsAreFresh(t: Table, n: nat)
    ensures |AddRows(t, n).rows| == |t.rows| + n
    ensures AddRows(t, n).rows[..|t.rows|] == t.rows
    ensures forall i :: |t.rows| <= i < |AddRows(t, n).rows| ==> AddRows(t, n).rows[i].id > t.counter
    decreases n
  {
    if n > 0 {
      var a := AddRow(t);
      AddRowsIdsAreFresh(a, n - 1);
      var r := AddRows(t, n);
      assert r == AddRows(a, n - 1);
      var m := |t.rows|;
      forall i | 0 <= i < m
        ensures r.rows[i] == t.rows[i]
      {
        assert r.rows[i] == r.rows[..m + 1][i] == a.rows[i];
      }
      assert r.rows[m] == r.rows[..m + 1][m] == a.rows[m];
    }
  }

  /** A removed id is never handed out again, however many rows are added
      afterwards: the counter is not wound back by a removal. */
  lemma RemovedIdNeverReissued(t: Table, id: nat, n: nat)
    requires Valid(t) && id in Ids(t.rows)
    ensures id !in Ids(AddRows(RemoveRow(t, id), n).rows)
  {
    var u := RemoveRow(t, id);
    RemoveRowIds(t, id);
    AddRowsIdsAreFresh(u, n);
    var r := AddRows(u, n);
    var i :| 0 <= i < |t.rows| && t.rows[i].id == id;
    assert id <= u.counter;
    forall j | 0 <= j < |r.rows|
      ensures r.rows[j].id != id
    {
      if j < |u.rows| {
        assert r.rows[j] == u.rows[j];
        assert Ids(u.rows)[j] == r.rows[j].id;
      }
    }
  }
}
