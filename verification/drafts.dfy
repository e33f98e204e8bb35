/** The draft: what `saveDraft` writes and `restoreDraft` reads back
    (js/script.js). The draft keeps the seven header fields, the markup of the
    table body and `palletCount`. Of the table markup the model keeps what
    serialised markup carries: each row's id and its highlight classes. The
    live values of selects, inputs and text areas are properties, not
    attributes, so they are not in the markup and come back empty. */
module Drafts {
  import opened Options
  import opened Scoring
  import opened PalletTable
  import opened FormHeader

  /** What the saved markup keeps of one row. */
  datatype Shell = Shell(id: nat, flagged: set<Field>, warning: bool)

  /** A saved draft. `palletCount` is `None` for a stored record that lacks
      the field. The capture timestamp is not modelled. */
  datatype Draft = Draft(section1: Header, tableRows: seq<Shell>, palletCount: Option<nat>)

  function ShellOf(row: Row): Shell {
    Shell(row.id, row.flagged, row.warning)
  }

  /** `saveDraft`: the header, the row skeleton and the counter. */
  function Snapshot(h: Header, t: Table): (d: Draft)
    ensures d.section1 == h && d.palletCount == Some(t.counter)
    ensures |d.tableRows| == |t.rows|
    ensures forall i :: 0 <= i < |t.rows| ==> d.tableRows[i].id == t.rows[i].id
  {
    Draft(h, seq(|t.rows|, i requires 0 <= i < |t.rows| => ShellOf(t.rows[i])), Some(t.counter))
  }

  /** A draft that a valid table can have produced: row ids strictly increase
      and lie between 1 and the saved counter. */
  predicate DraftConsistent(d: Draft) {
    && (forall i, j :: 0 <= i < j < |d.tableRows| ==> d.tableRows[i].id < d.tableRows[j].id)
    && (forall i :: 0 <= i < |d.tableRows| ==> 1 <= d.tableRows[i].id <= d.palletCount.GetOr(0))
  }

  /** One restored row: the markup gives the id and the saved highlight
      classes, every control is back at its default, and `updateVisuals` is
      re-applied to the five selects. The result is a new blank row. */
  function RestoredRow(s: Shell): (r: Row)
    ensures r == BlankRow(s.id)
  {
    RevisualisedUnsetRowIsBlank(s.id, s.flagged, s.warning);
    Revisualise(Row(s.id, "", NoChecks, Blank, "", s.flagged, s.warning), Fields)
  }

  /** The table `restoreDraft` rebuilds from non-empty saved markup: the saved
      rows, blank, in their saved order, and the saved counter, where a
      missing or zero counter gives 0. */
  function RestoredTable(d: Draft): (t: Table)
    ensures t.counter == d.palletCount.GetOr(0)
    ensures d.palletCount == None || d.palletCount == Some(0) ==> t.counter == 0
    ensures |t.rows| == |d.tableRows|
    ensures forall i :: 0 <= i < |t.rows| ==> t.rows[i] == BlankRow(d.tableRows[i].id)
  {
    Table(seq(|d.tableRows|, i requires 0 <= i < |d.tableRows| => RestoredRow(d.tableRows[i])),
          d.palletCount.GetOr(0))
  }

  /** The table rebuilt from a consistent draft satisfies the table invariant. */
  lemma RestoredTableValid(d: Draft)
    requires DraftConsistent(d)
    ensures Valid(RestoredTable(d))
  {
    var t := RestoredTable(d);
    forall i | 0 <= i < |t.rows|
      ensures RowConsistent(t.rows[i])
    {
      BlankRowConsistent(d.tableRows[i].id);
    }
  }

  /** The header `restoreDraft` writes back. Six fields are copied; the
      product is set on its select, which keeps it only if it is one of the
      select's options. */
  function RestoredHeader(d: Draft, matrix: Matrix): (h: Header)
    ensures h.(productItem := d.section1.productItem) == d.section1
    ensures Selectable(h.productItem, matrix)
    ensures Selectable(d.section1.productItem, matrix) ==> h == d.section1
  {
    d.section1.(productItem := SelectValue(d.section1.productItem, matrix))
  }

  /** A snapshot of a valid table is a consistent draft. */
  lemma SnapshotConsistent(h: Header, t: Table)
    requires Valid(t)
    ensures DraftConsistent(Snapshot(h, t))
  {
  }

  /** Saving and restoring the table gives back its rows' ids in order and its
      counter; the rows themselves come back blank. */
  lemma TableRoundTrip(h: Header, t: Table)
    ensures RestoredTable(Snapshot(h, t)).counter == t.counter
    ensures Ids(RestoredTable(Snapshot(h, t)).rows) == Ids(t.rows)
    ensures forall i :: 0 <= i < |t.rows| ==> RestoredTable(Snapshot(h, t)).rows[i] == BlankRow(t.rows[i].id)
  {
  }

  /** Saving and restoring the header gives back all seven fields, provided the
      saved product is still one the select offers. */
  lemma HeaderRoundTrip(h: Header, t: Table, matrix: Matrix)
    requires Selectable(h.productItem, matrix)
    ensures RestoredHeader(Snapshot(h, t), matrix) == h
  {
  }

  /** A product the select no longer offers (the matrix at restore time lacks
      it) comes back as no product at all. */
  lemma UnknownProductIsDropped(h: Header, t: Table, matrix: Matrix)
    requires h.productItem !in matrix
    ensures RestoredHeader(Snapshot(h, t), matrix).productItem == ""
  {
  }
}
