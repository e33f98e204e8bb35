/** The whole form as one state: header, pallet table with its counter, and
    the draft held in browser storage (js/script.js: `saveDraft`,
    `addPalletRow`, `removePalletRow`, the change handlers, `restoreDraft`,
    `checkSavedDraft`, the start-up handler and `submitForm`).

    Every change event inside the form bubbles to the form's change listener,
    which saves the draft; values set by script fire no change event. */
module Session {
  import opened Options
  import opened Scoring
  import opened PalletTable
  import opened FormHeader
  import opened Drafts

  /** `stored` is the draft in browser storage, `None` when there is none. */
  datatype Form = Form(header: Header, table: Table, stored: Option<Draft>)

  /** The stored draft describes the form exactly as it is. */
  predicate InStep(f: Form) {
    f.stored == Some(Snapshot(f.header, f.table))
  }

  /** The state invariant: the table invariant, a product the select can show,
      and a stored draft that a valid table can have produced. */
  predicate FormValid(f: Form, matrix: Matrix) {
    && Valid(f.table)
    && Selectable(f.header.productItem, matrix)
    && (f.stored.Some? ==> DraftConsistent(f.stored.value))
  }

  /** `saveDraft`: the stored draft is overwritten with the current form. */
  function SaveDraft(f: Form): (r: Form)
    ensures r.header == f.header && r.table == f.table
    ensures InStep(r)
  {
    f.(stored := Some(Snapshot(f.header, f.table)))
  }

  /** `addPalletRow`, which saves the draft once the row is in. */
  function AddPalletRow(f: Form): (r: Form)
    ensures r.header == f.header && r.table == AddRow(f.table)
    ensures InStep(r)
  {
    SaveDraft(f.(table := AddRow(f.table)))
  }

  /** `removePalletRow`: saves the draft only when a row was removed. */
  function RemovePalletRow(f: Form, id: nat): (r: Form)
    ensures id in Ids(f.table.rows) ==> r.header == f.header && r.table == RemoveRow(f.table, id) && InStep(r)
    ensures id !in Ids(f.table.rows) ==> r == f
  {
    if id in Ids(f.table.rows) then SaveDraft(f.(table := RemoveRow(f.table, id))) else f
  }

  /** A user edit of the production date: the expiry listener runs, then the
      form's change listener saves the draft. */
  function ChangeProdDate(f: Form, v: DateValue, matrix: Matrix): (r: Form)
    ensures r.header == FormHeader.ChangeProdDate(f.header, v, matrix) && r.table == f.table
    ensures InStep(r)
  {
    SaveDraft(f.(header := FormHeader.ChangeProdDate(f.header, v, matrix)))
  }

  /** A user edit of one other header field, followed by the autosave. The
      production date and the table stay as they were. */
  function EditHeader(f: Form, e: HeaderEdit): (r: Form)
    ensures r.header == ApplyEdit(f.header, e) && r.table == f.table
    ensures r.header.prodDate == f.header.prodDate
    ensures InStep(r)
  {
    SaveDraft(f.(header := ApplyEdit(f.header, e)))
  }

  /** A user choice in one check select of a row, followed by the autosave. */
  function ChangeCheck(f: Form, id: nat, fld: Field, v: Check): (r: Form)
    ensures r.header == f.header && r.table == PalletTable.ChangeCheck(f.table, id, fld, v)
    ensures InStep(r)
  {
    SaveDraft(f.(table := PalletTable.ChangeCheck(f.table, id, fld, v)))
  }

  /** A user edit of a row's total-inspected quantity, followed by the autosave. */
  function ChangeQuantity(f: Form, id: nat, q: string): (r: Form)
    ensures r.header == f.header && r.table == PalletTable.ChangeQuantity(f.table, id, q)
    ensures InStep(r)
  {
    SaveDraft(f.(table := PalletTable.ChangeQuantity(f.table, id, q)))
  }

  /** A user edit of a row's notes, followed by the autosave. */
  function ChangeNotes(f: Form, id: nat, text: string): (r: Form)
    ensures r.header == f.header && r.table == PalletTable.ChangeNotes(f.table, id, text)
    ensures forall i :: 0 <= i < |f.table.rows| ==>
              r.table.rows[i].checks == f.table.rows[i].checks && r.table.rows[i].percent == f.table.rows[i].percent
    ensures InStep(r)
  {
    SaveDraft(f.(table := PalletTable.ChangeNotes(f.table, id, text)))
  }

  /** The "All OK" button: values are set by script, so no change event fires
      and the stored draft stays as it was. */
  function SetRowOk(f: Form, id: nat): (r: Form)
    ensures r.header == f.header && r.stored == f.stored
    ensures r.table == PalletTable.SetRowOk(f.table, id)
  {
    f.(table := PalletTable.SetRowOk(f.table, id))
  }

  /** `restoreDraft`: the header is written back; non-empty saved markup
      replaces the table and restores the counter (a missing or zero counter
      gives 0); empty markup leaves the counter as it is and adds one row. */
  function RestoreDraft(f: Form, d: Draft, matrix: Matrix): (r: Form)
    ensures r.header == RestoredHeader(d, matrix)
    ensures |d.tableRows| > 0 ==> r.table == RestoredTable(d) && r.stored == f.stored
    ensures |d.tableRows| == 0 ==> r.table == AddRow(f.table) && InStep(r)
  {
    var f' := f.(header := RestoredHeader(d, matrix));
    if |d.tableRows| > 0 then f'.(table := RestoredTable(d))
    else AddPalletRow(f')
  }

  /** `checkSavedDraft`: with no stored draft, a first row is added when none
      has been issued yet; with one, the user either restores it or discards
      it and starts with one new row. */
  function CheckSavedDraft(f: Form, restore: bool, matrix: Matrix): (r: Form)
    ensures f.stored.None? && f.table.counter == 0 ==> r == AddPalletRow(f)
    ensures f.stored.None? && f.table.counter != 0 ==> r == f
    ensures f.stored.Some? && restore ==> r == RestoreDraft(f, f.stored.value, matrix)
    ensures f.stored.Some? && !restore ==> r.header == f.header && r.table == AddRow(f.table) && InStep(r)
  {
    match f.stored
    case None => if f.table.counter == 0 then AddPalletRow(f) else f
    case Some(d) => if restore then RestoreDraft(f, d, matrix) else AddPalletRow(f.(stored := None))
  }

  /** Page start-up on day `today` with `stored` in browser storage: both
      dates default to today, the table is empty, then the saved draft is
      checked. */
  function Startup(today: int, stored: Option<Draft>, restore: bool, matrix: Matrix): (r: Form)
    ensures stored.None? ==> r.table == Table([BlankRow(1)], 1) && r.header == FreshHeader(today)
  {
    CheckSavedDraft(Form(FreshHeader(today), Empty, stored), restore, matrix)
  }

  /** What `submitForm` sends: the header and every row, in table order. The
      form number, the approvers and the item code are not modelled. */
  datatype Payload = Payload(header: Header, palletChecks: seq<Row>)

  datatype Outcome =
    | Invalid                      // the browser's required-field check failed
    | NoRows                       // the table is empty
    | SendFailed(payload: Payload) // the request did not go through
    | Submitted(payload: Payload)  // the request went through

  datatype SubmitResult = SubmitResult(form: Form, outcome: Outcome)

  /** `submitForm`. `valid` is the outcome of the browser's required-field
      check, `delivered` whether the request went through, and `today` the
      date the reset form defaults to. A failed request leaves the form and
      its draft as they were. A delivered one removes the draft, empties the
      table, resets the counter and the header, and adds one row. */
  function Submit(f: Form, valid: bool, delivered: bool, today: int): (r: SubmitResult)
    ensures !valid ==> r == SubmitResult(f, Invalid)
    ensures valid && |f.table.rows| == 0 ==> r == SubmitResult(f, NoRows)
    ensures r.outcome.SendFailed? || r.outcome.Submitted? ==>
              valid && |f.table.rows| > 0 && r.outcome.payload == Payload(f.header, f.table.rows)
    ensures valid && |f.table.rows| > 0 && !delivered ==> r.form == f && r.outcome.SendFailed?
    ensures valid && |f.table.rows| > 0 && delivered ==>
              && r.outcome.Submitted?
              && r.form.table == Table([BlankRow(1)], 1)
              && r.form.header == FreshHeader(today)
              && InStep(r.form)
  {
    if !valid then SubmitResult(f, Invalid)
    else if |f.table.rows| == 0 then SubmitResult(f, NoRows)
    else
      var payload := Payload(f.header, f.table.rows);
      if !delivered then SubmitResult(f, SendFailed(payload))
      else
        var cleared := f.(stored := None);
        var reset := cleared.(table := Empty, header := FreshHeader(today));
        SubmitResult(AddPalletRow(reset), Submitted(payload))
  }

  /** Restoring a just-saved draft, in any later session, gives back all seven
      header fields (as long as the product is still on offer). When the saved
      table had rows, their ids come back in order, blank, together with the
      counter. When it had none, the session's own counter is kept and one
      row is added. */
  lemma DraftRoundTrip(f: Form, later: Form, matrix: Matrix)
    requires Selectable(f.header.productItem, matrix)
    ensures RestoreDraft(later, SaveDraft(f).stored.value, matrix).header == f.header
    ensures |f.table.rows| > 0 ==>
              && RestoreDraft(later, SaveDraft(f).stored.value, matrix).table.counter == f.table.counter
              && Ids(RestoreDraft(later, SaveDraft(f).stored.value, matrix).table.rows) == Ids(f.table.rows)
    ensures |f.table.rows| == 0 ==>
              RestoreDraft(later, SaveDraft(f).stored.value, matrix).table == AddRow(later.table)
  {
    HeaderRoundTrip(f.header, f.table, matrix);
    TableRoundTrip(f.header, f.table);
  }

  /** A draft with saved rows but a missing or zero counter restores the
      counter as 0. */
  lemma MissingCounterRestoresZero(f: Form, d: Draft, matrix: Matrix)
    requires |d.tableRows| > 0
    requires d.palletCount == None || d.palletCount == Some(0)
    ensures RestoreDraft(f, d, matrix).table.counter == 0
  {
  }

  /** After a delivered submission the form is exactly what a fresh start
      without a draft gives: one blank row with id 1, the counter at 1, today's
      dates, and a draft of that fresh form. */
  lemma SubmitResetIsFreshStart(f: Form, today: int, restore: bool, matrix: Matrix)
    requires |f.table.rows| > 0
    ensures Submit(f, true, true, today).form == Startup(today, None, restore, matrix)
  {
  }

  /** Every operation keeps the state invariant. */
  lemma SaveDraftKeepsValid(f: Form, matrix: Matrix)
    requires FormValid(f, matrix)
    ensures FormValid(SaveDraft(f), matrix)
  {
    SnapshotConsistent(f.header, f.table);
  }

  lemma AddPalletRowKeepsValid(f: Form, matrix: Matrix)
    requires FormValid(f, matrix)
    ensures FormValid(AddPalletRow(f), matrix)
  {
    AddRowKeepsValid(f.table);
    SaveDraftKeepsValid(f.(table := AddRow(f.table)), matrix);
  }

  lemma RemovePalletRowKeepsValid(f: Form, id: nat, matrix: Matrix)
    requires FormValid(f, matrix)
    ensures FormValid(RemovePalletRow(f, id), matrix)
  {
    RemoveRowKeepsValid(f.table, id);
    SaveDraftKeepsValid(f.(table := RemoveRow(f.table, id)), matrix);
  }

  lemma ChangeProdDateKeepsValid(f: Form, v: DateValue, matrix: Matrix)
    requires FormValid(f, matrix)
    ensures FormValid(ChangeProdDate(f, v, matrix), matrix)
  {
    SaveDraftKeepsValid(f.(header := FormHeader.ChangeProdDate(f.header, v, matrix)), matrix);
  }

  lemma EditHeaderKeepsValid(f: Form, e: HeaderEdit, matrix: Matrix)
    requires FormValid(f, matrix)
    requires e.EditProduct? ==> Selectable(e.product, matrix)
    ensures FormValid(EditHeader(f, e), matrix)
  {
    SaveDraftKeepsValid(f.(header := ApplyEdit(f.header, e)), matrix);
  }

  lemma ChangeNotesKeepsValid(f: Form, id: nat, text: string, matrix: Matrix)
    requires FormValid(f, matrix)
    ensures FormValid(ChangeNotes(f, id, text), matrix)
  {
    PalletTable.ChangeNotesKeepsValid(f.table, id, text);
    SaveDraftKeepsValid(f.(table := PalletTable.ChangeNotes(f.table, id, text)), matrix);
  }

  lemma ChangeCheckKeepsValid(f: Form, id: nat, fld: Field, v: Check, matrix: Matrix)
    requires FormValid(f, matrix)
    ensures FormValid(ChangeCheck(f, id, fld, v), matrix)
  {
    PalletTable.ChangeCheckKeepsValid(f.table, id, fld, v);
    SaveDraftKeepsValid(f.(table := PalletTable.ChangeCheck(f.table, id, fld, v)), matrix);
  }

  lemma ChangeQuantityKeepsValid(f: Form, id: nat, q: string, matrix: Matrix)
    requires FormValid(f, matrix)
    ensures FormValid(ChangeQuantity(f, id, q), matrix)
  {
    PalletTable.ChangeQuantityKeepsValid(f.table, id, q);
    SaveDraftKeepsValid(f.(table := PalletTable.ChangeQuantity(f.table, id, q)), matrix);
  }

  lemma SetRowOkKeepsValid(f: Form, id: nat, matrix: Matrix)
    requires FormValid(f, matrix)
    ensures FormValid(SetRowOk(f, id), matrix)
  {
    PalletTable.SetRowOkKeepsValid(f.table, id);
  }

  lemma CheckSavedDraftKeepsValid(f: Form, restore: bool, matrix: Matrix)
    requires FormValid(f, matrix)
    ensures FormValid(CheckSavedDraft(f, restore, matrix), matrix)
  {
    match f.stored
    case None =>
      AddPalletRowKeepsValid(f, matrix);
    case Some(d) =>
      if restore {
        var f' := f.(header := RestoredHeader(d, matrix));
        if |d.tableRows| > 0 {
          RestoredTableValid(d);
        } else {
          AddPalletRowKeepsValid(f', matrix);
        }
      } else {
        AddPalletRowKeepsValid(f.(stored := None), matrix);
      }
  }

  /** Start-up from a stored draft that a valid table can have produced ends
      in a valid state. */
  lemma StartupValid(today: int, stored: Option<Draft>, restore: bool, matrix: Matrix)
    requires stored.Some? ==> DraftConsistent(stored.value)
    ensures FormValid(Startup(today, stored, restore, matrix), matrix)
  {
    CheckSavedDraftKeepsValid(Form(FreshHeader(today), Empty, stored), restore, matrix);
  }

  lemma SubmitKeepsValid(f: Form, valid: bool, delivered: bool, today: int, matrix: Matrix)
    requires FormValid(f, matrix)
    ensures FormValid(Submit(f, valid, delivered, today).form, matrix)
  {
    if valid && |f.table.rows| > 0 && delivered {
      AddPalletRowKeepsValid(Form(FreshHeader(today), Empty, None), matrix);
    }
  }
}
