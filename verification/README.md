# QC pallet-check form: a Dafny model of its business logic

The system is a browser form for quality control on a packaging line. An
operator picks a product, enters the check, production and expiry dates, and
fills a table with one row per pallet. Each row has five pass/fail checks: box
print code, box content, box colour, sachet seal and sachet print code. The
row shows the share of checks that passed. A draft of the form is kept in
browser storage so that work survives a closed tab. Submission sends the form
to a remote service and starts a fresh form.

This project models the part of `js/script.js` that is logic rather than
wiring. That is four things, all held in one functional state (`Session.Form`):

- row scoring and NG highlighting (`Scoring`);
- the pallet table with its monotonic row counter (`PalletTable`);
- the expiry rule on the production date (`FormHeader`), over day numbers
  whose calendar meaning is proved in `Calendar`;
- the draft's save and restore (`Drafts`), the start-up check, the autosave on
  change events, and submission with its reset (`Session`).

Modules, one file each: `options.dfy` (Option), `calendar.dfy`,
`scoring.dfy`, `pallet_table.dfy`, `form_header.dfy`, `drafts.dfy` and
`session.dfy`.

Modelling decisions:

- **Finding rows.** A row is found by id the way `document.getElementById`
  finds an element: the first row with that id (`PalletTable.Find`). The
  table invariant (`PalletTable.Valid`) makes ids unique, so this is the row.
- **Percentage.** The percent field is `Blank` or `Shown(n)`, shown as
  "n%". The source computes `((okCount / 5) * 100).toFixed(0)` in floating
  point. For okCount in 0..5 that rounds to exactly okCount × 20, so the model
  uses exact arithmetic. `PercentOf` proves it equals the real-number formula.
- **Unfilled rows.** The source's comment says the percentage is computed
  only when all fields are filled in. The code computes it when at least one
  is filled in. The model follows the code. When every check goes back to
  unset, the old percentage stays on screen.
- **Dates.** A date field is empty or a day number, counted in days since
  1970-01-01. `Calendar.DayNumber` maps a civil date to its day number.
  `Calendar.AddDaysCountsDays` proves that adding n to a day number is
  stepping the calendar forward n days. That is the expiry rule "production
  date + shelf life, in calendar days".
- **What a draft keeps of the table.** The draft stores the table body's
  markup (`innerHTML`). Markup carries attributes: each row's id and its
  highlight classes. It does not carry the live values of selects, inputs
  and text areas. So the draft model keeps, per row, the id and the classes
  (`Drafts.Shell`). A restored row comes back with every control at its
  default. Re-running `updateVisuals` on its five selects clears the saved
  classes, so a restored row equals a freshly added blank row
  (`Drafts.RestoredRow`). The model does not claim that checks, quantities or
  notes survive a draft.
- **Empty table in a draft.** Markup counts as present when the saved table
  has at least one row. When the saved table is empty, `restoreDraft` does
  not restore the counter. It adds one row using the session's own counter.
  This rests on the table body holding nothing but rows (see "Left out").
- **Product select.** The product select's options are the matrix keys plus
  an empty placeholder. Setting a select to a value it does not offer leaves
  it empty. So a restored product survives only when the matrix at restore
  time still has it (`FormHeader.SelectValue`).
- **Header defaults.** The page markup is not part of this model. The model
  takes the markup's default header values to be empty; only the check date
  and production date are set to today.
- **Autosave.** Change events inside the form bubble up to the form's change
  listener, which saves the draft. Values set by script (the "All OK" button,
  a restore) fire no change event and so do not save.

## Model

| member | source | states |
|---|---|---|
| Calendar.NextDayCountsOneDay | js/script.js:294-295 | The calendar day after any valid date has the next day number, across month ends, year ends and leap days |
| Calendar.AddDaysCountsDays | js/script.js:294-295 | Stepping the calendar forward n days adds exactly n to the day number; so adding days past a month's end, as `setDate` does, is calendar addition |
| Calendar.MarchFirstStep | js/script.js:295 | Consecutive March 1sts are 366 days apart when the February between them is a leap February, and 365 days otherwise |
| Scoring.PercentOf | js/script.js:421 | For 0..5 passing checks, the whole percentage is at most 100 and equals (ok / 5) × 100 in exact real arithmetic |
| Scoring.Rescore | js/script.js:401-433 | Only the percent field can change. With at least one check filled in, it shows p with p × 5 = 100 × (number of OK checks). With none filled in, it keeps its previous value |
| Scoring.CalculatePercentOK | js/script.js:401-423 | The source's single pass over the five selects, counting filled and OK values, yields the same row as the counting definition |
| Scoring.PercentIsTwentyPerOk | js/script.js:410-421 | A scored row shows 20 × (number of OK checks): a multiple of 20 in 0..100, and 100 exactly when all five checks are OK |
| Scoring.ScoreIgnoresQuantity | js/script.js:402-421 | The total-inspected quantity is read but has no influence on the percentage |
| Scoring.EightyPercentExample | js/script.js:401-423 | A row checked OK, OK, NG, OK, OK scores 80%, whatever its quantity |
| Scoring.UpdateVisuals | js/script.js:174-192 | An NG value marks its select and the row; any other value unmarks its select, and the row loses its mark only when no select in it is still marked |
| Scoring.SetCheck | js/script.js:342-364 | A select change stores the new value for that check, leaves the other four checks, the id, the quantity and the notes alone |
| Scoring.SetCheckKeepsConsistent | js/script.js:174-192 | After any select change on a consistent row, exactly the NG selects are marked, the row is marked exactly when one is, and the percentage matches the checks |
| Scoring.SetQuantity | js/script.js:339 | A quantity change stores the text; besides the percentage, nothing else in the row changes |
| Scoring.SetQuantityKeepsConsistent | js/script.js:339 | A quantity change keeps the row consistent |
| Scoring.MarkOk | js/script.js:196-204 | The per-field loop of "All OK" leaves each visited check OK and unmarked, and leaves each unvisited check and its mark alone |
| Scoring.MarkAllOk | js/script.js:195-208 | After "All OK" a row has all five checks OK, shows 100%, carries no NG mark or row warning, and keeps its id, quantity and notes |
| Scoring.MarkAllOkConsistent | js/script.js:195-208 | A row after "All OK" satisfies the row invariant |
| Scoring.Revisualise | js/script.js:149-156 | Re-running `updateVisuals` over the selects marks exactly the visited selects that hold NG and keeps the marks of the others |
| Scoring.RevisualisedUnsetRowIsBlank | js/script.js:144-156 | A row rebuilt from markup, with unset checks and any saved marks, comes out of the re-run identical to a new blank row |
| Scoring.BlankRowConsistent | js/script.js:331-371 | A freshly added row satisfies the row invariant |
| PalletTable.Find | js/script.js:394 | Returns the position of the first row with the id, and none exactly when no row has it |
| PalletTable.AddRow | js/script.js:319-384 | The counter goes up by exactly 1; a blank row with the new counter as id is appended; earlier rows are unchanged |
| PalletTable.AddRowKeepsValid | js/script.js:319-384 | Adding a row keeps the table invariant: ids strictly increase, lie between 1 and the counter, and every row is consistent |
| PalletTable.RemoveRow | js/script.js:393-399 | Removal takes out exactly the first row with that id and keeps the order of the rest. The counter does not change. An absent id is a no-op |
| PalletTable.RemoveRowKeepsValid | js/script.js:393-399 | Removal keeps the table invariant: the survivors are not renumbered and their ids still increase |
| PalletTable.RemoveRowIds | js/script.js:393-399 | In a valid table, the ids after removal are exactly the ids before minus the removed one |
| PalletTable.AddThenRemoveRestoresRows | js/script.js:319-399 | Adding a row and then removing it gives back the previous rows; only the counter stays advanced |
| PalletTable.AddRowsIdsAreFresh | js/script.js:320-328 | Rows added later keep the existing rows as a prefix and carry ids above the counter they started from |
| PalletTable.RemovedIdNeverReissued | js/script.js:320 | Once a row is removed, no number of later additions hands its id out again |
| PalletTable.SetRowOk | js/script.js:195-208 | "All OK" on a row id leaves that row all OK, at 100% and unmarked. Every other row, the ids and the counter are untouched |
| PalletTable.SetRowOkKeepsValid | js/script.js:195-208 | "All OK" keeps the table invariant |
| PalletTable.ChangeCheck | js/script.js:342-364 | A select change sets that check in the first row with the id. That row changes exactly as `Scoring.SetCheck` changes it: other checks, quantity and notes kept, highlighting updated, rescored. The other rows, the ids and the counter are untouched |
| PalletTable.ChangeCheckKeepsValid | js/script.js:342-364 | A select change keeps the table invariant |
| PalletTable.ChangeQuantity | js/script.js:339 | A quantity change sets the quantity in the first row with the id and rescores it. That row changes exactly as `Scoring.SetQuantity` changes it: checks, marks and notes kept. The other rows are untouched |
| PalletTable.ChangeQuantityKeepsValid | js/script.js:339 | A quantity change keeps the table invariant |
| PalletTable.ChangeNotes | js/script.js:370 | A notes edit changes only the notes of the first row with the id; its checks, marks and percentage stay, and the other rows, the ids and the counter are untouched |
| PalletTable.ChangeNotesKeepsValid | js/script.js:370 | A notes edit keeps the table invariant |
| FormHeader.FreshHeader | js/script.js:44-46 | A new form has today as check date and production date, no expiry date and no product |
| FormHeader.SelectValue | js/script.js:137-138 | Setting the product select keeps the value when it is an option (the placeholder or a matrix product) and empties it otherwise |
| FormHeader.ApplyEdit | js/script.js:62-66 | A user edit of one header field sets that field and keeps every other one; the production date never changes this way |
| FormHeader.ChangeProdDate | js/script.js:285-303 | With a known product and a non-empty date, expiry becomes production date + shelf-life days. Otherwise expiry keeps its value. Only the production date and expiry change |
| FormHeader.ExpiryIsShelfLifeLater | js/script.js:289-298 | The expiry written is the civil date lying the product's shelf life, in calendar days, after the production date |
| FormHeader.CandyAppleExample | js/script.js:577 | Candy Apple (365 days) produced on 2025-01-01 expires on 2026-01-01; 2025-06-01 lies 151 days after 2025-01-01 |
| Drafts.Snapshot | js/script.js:72-87 | A draft holds the seven header fields, the counter, and one entry per row with that row's id, in table order |
| Drafts.RestoredRow | js/script.js:144-156 | Each row restored from markup is a blank row with the saved id |
| Drafts.RestoredTable | js/script.js:144-156 | Restored markup gives the saved rows in order, blank, and the saved counter. A missing or zero counter gives 0 |
| Drafts.RestoredTableValid | js/script.js:144-156 | A table restored from a consistent draft satisfies the table invariant |
| Drafts.RestoredHeader | js/script.js:128-138 | Six header fields are copied back as saved. The product comes back as saved when the select offers it, and empty otherwise |
| Drafts.SnapshotConsistent | js/script.js:72-87 | The draft of a valid table is consistent: ids strictly increase and lie between 1 and the saved counter |
| Drafts.TableRoundTrip | js/script.js:84-86 | Saving then restoring the table gives back the counter and the row ids in order, each row blank |
| Drafts.HeaderRoundTrip | js/script.js:75-83 | Saving then restoring gives back all seven header fields, provided the product is still on offer |
| Drafts.UnknownProductIsDropped | js/script.js:137-138 | A saved product missing from the matrix at restore time comes back as no product |
| Session.SaveDraft | js/script.js:72-89 | Saving overwrites the stored draft with a snapshot of the current header and table, and changes nothing else |
| Session.AddPalletRow | js/script.js:319-390 | Adding a row changes the table as `AddRow` does and leaves the stored draft describing the new form |
| Session.RemovePalletRow | js/script.js:393-399 | Removing a present id removes that row and saves the draft. An absent id changes nothing, the draft included |
| Session.ChangeProdDate | js/script.js:285-303 | A production-date edit applies the expiry rule and then saves the draft; the table is untouched |
| Session.EditHeader | js/script.js:62-66 | An edit to one header field other than the production date changes that field, keeps the production date and the table, and saves the draft |
| Session.ChangeCheck | js/script.js:342-364 | A check edit changes the table as `PalletTable.ChangeCheck` does, then saves the draft |
| Session.ChangeQuantity | js/script.js:339 | A quantity edit changes the table as `PalletTable.ChangeQuantity` does, then saves the draft |
| Session.ChangeNotes | js/script.js:62-66 | A notes edit changes the table as `PalletTable.ChangeNotes` does, so no row's checks or percentage change; the form's change listener then saves the draft |
| Session.SetRowOk | js/script.js:195-208 | "All OK" changes only the table; the stored draft is not rewritten |
| Session.RestoreDraft | js/script.js:127-159 | Restore writes the header back. Non-empty markup replaces the table and restores the counter. Empty markup keeps the session's counter and adds one row |
| Session.CheckSavedDraft | js/script.js:100-125 | No draft and counter 0: one row is added. A draft the user accepts is restored. A draft the user rejects is dropped, and the form starts with one new row |
| Session.Startup | js/script.js:22-56 | With no stored draft, start-up yields exactly one blank row with id 1, today's dates and no product |
| Session.Submit | js/script.js:439-524 | A failed validity check or an empty table stops before anything is sent. The payload is the header and the rows in table order. A failed send leaves the form and draft alone. A delivered send leaves one blank row with id 1, a fresh header, and a draft of that fresh form |
| Session.DraftRoundTrip | js/script.js:72-159 | A just-saved draft restored in any later session gives back all seven header fields, provided the saved product is still on offer in the later session's matrix. If the table had rows, it also gives back the counter and the row ids in order. If the table was empty, the later session's counter is kept and one row is added |
| Session.MissingCounterRestoresZero | js/script.js:146 | Saved rows with a missing or zero counter restore the counter as 0 |
| Session.SubmitResetIsFreshStart | js/script.js:505-518 | After a delivered submission, the form equals the one a start-up without a draft produces |
| Session.SaveDraftKeepsValid | js/script.js:72-89 | Saving keeps the state invariant: valid table, selectable product, consistent stored draft |
| Session.AddPalletRowKeepsValid | js/script.js:319-390 | Adding a row keeps the state invariant |
| Session.RemovePalletRowKeepsValid | js/script.js:393-399 | Removing a row keeps the state invariant |
| Session.ChangeProdDateKeepsValid | js/script.js:285-303 | A production-date edit keeps the state invariant |
| Session.EditHeaderKeepsValid | js/script.js:62-66 | A one-field header edit keeps the state invariant, provided a product edit picks a product the select offers |
| Session.ChangeCheckKeepsValid | js/script.js:342-364 | A check edit keeps the state invariant |
| Session.ChangeQuantityKeepsValid | js/script.js:339 | A quantity edit keeps the state invariant |
| Session.ChangeNotesKeepsValid | js/script.js:62-66 | A notes edit keeps the state invariant |
| Session.SetRowOkKeepsValid | js/script.js:195-208 | "All OK" keeps the state invariant |
| Session.CheckSavedDraftKeepsValid | js/script.js:100-125 | The start-up draft check keeps the state invariant, whichever way the user answers |
| Session.StartupValid | js/script.js:22-56 | Start-up from no draft, or from a consistent one, ends in a valid state |
| Session.SubmitKeepsValid | js/script.js:439-524 | Submission keeps the state invariant, whatever the validity check and the network do |

## Left out

- Loading the product, personnel and line matrices from the remote service, and the built-in fallback matrices: network I/O. The standard matrix is a parameter (`FormHeader.Matrix`). Only each product's item code and shelf life are kept.
- Populating dropdowns and datalists, filling the standard boxes (`populateStandards`), and the empty `validateDates` stub: display only. This script has no expiry check of its own, because `validateDates` (js/script.js:307-313) is an empty stub.
- Confirmation dialogs, the loading spinner, the "Draft Saved" indicator, scrolling and the percent field's colours: user interface. The user's answer to the restore prompt is the `restore` parameter.
- The 30-second autosave timer: timers are not modelled. `Session.SaveDraft` is the operation the timer runs. Interleavings of the timer with the asynchronous start-up and with the submission dialog are not modelled.
- Browser storage and JSON: the stored draft is an in-memory `Option<Draft>`. A corrupt stored record is not modelled. Neither is the capture timestamp.
- The browser's required-field check (`checkValidity`): it is the boolean parameter `valid` of `Session.Submit`. Whether the request went through is the parameter `delivered`. The no-cors request gives no server acknowledgment, so `delivered` means only that the network call resolved.
- The form number, the approver selects and the item code in the payload: they come from the wall clock or from DOM fields that no modelled logic reads.
- The default time of a new row, taken from the wall clock: the model's rows have no time field.
- Session.Startup: today's date is the parameter `today`. The time zone handling of `valueAsDate`, `new Date(string)` and `toISOString` is not modelled. Those conversions mix UTC and local time, and around a daylight-saving change they can shift a date by one day. The model assumes no such shift.
- FormHeader.ChangeProdDate: the shelf life is taken to be a whole number of days. A shelf life that reached the script as text would be concatenated by `getDate() + shelfLife` rather than added. The model does not cover that case.
- Scoring.Rescore: the floating-point evaluation of `(okCount / 5) * 100` followed by `toFixed(0)` is modelled by exact arithmetic, which gives the same whole number for every okCount from 0 to 5.
- Stray text in the table body: the model assumes the table body holds only rows. If it held whitespace or a comment with no rows, the saved markup would be non-empty text (js/script.js:144). Restore would then give an empty table with the saved counter and add no row. The model does not cover that outcome.
- FormHeader.ChangeProdDate: the expiry day number is unbounded. In the source, an expiry after year 9999 is written in the extended-year form `+0YYYYY-…`, which the date input rejects, leaving it empty. Beyond the range of a JavaScript `Date`, `toISOString` throws (js/script.js:298) and the expiry keeps its old value. The model covers neither case.
