/** One pallet-check row: its five pass/fail checks, the derived percent-OK,
    and the NG highlighting the row shows (js/script.js, `calculatePercentOK`,
    `updateVisuals` and the per-row part of `setRowOK`). */
module Scoring {

  /** The value of one check select: "" (not yet checked), "OK" or "NG". */
  datatype Check = Unset | Ok | Ng

  /** The five checks of a row: box print code, box content, box colour,
      sachet seal and sachet print code. */
  datatype Field = BoxPCode | BoxContent | BoxColor | SachetSeal | SachetPCode

  /** The checks in the order the row lays them out and the scorer reads them. */
  const Fields: seq<Field> := [BoxPCode, BoxContent, BoxColor, SachetSeal, SachetPCode]

  datatype Checks = Checks(boxPCode: Check, boxContent: Check, boxColor: Check,
                           sachetSeal: Check, sachetPCode: Check)
  {
    function Get(f: Field): Check {
      match f
      case BoxPCode => boxPCode
      case BoxContent => boxContent
      case BoxColor => boxColor
      case SachetSeal => sachetSeal
      case SachetPCode => sachetPCode
    }

    function Set(f: Field, v: Check): (c: Checks)
      ensures c.Get(f) == v
      ensures forall g :: g != f ==> c.Get(g) == Get(g)
    {
      match f
      case BoxPCode => this.(boxPCode := v)
      case BoxContent => this.(boxContent := v)
      case BoxColor => this.(boxColor := v)
      case SachetSeal => this.(sachetSeal := v)
      case SachetPCode => this.(sachetPCode := v)
    }

    /** The five values in `Fields` order. */
    function Values(): (s: seq<Check>)
      ensures |s| == |Fields|
      ensures forall i :: 0 <= i < |Fields| ==> s[i] == Get(Fields[i])
    {
      [boxPCode, boxContent, boxColor, sachetSeal, sachetPCode]
    }
  }

  const NoChecks: Checks := Checks(Unset, Unset, Unset, Unset, Unset)
  const AllOk: Checks := Checks(Ok, Ok, Ok, Ok, Ok)

  /** The percent field of a row: empty, or a whole percentage shown as "N%". */
  datatype PercentField = Blank | Shown(percent: nat)

  /** A row of the pallet table. `quantity` is the raw text of the
      total-inspected input; `flagged` holds the checks whose select carries
      the red NG class; `warning` is the row's yellow warning class. */
  datatype Row = Row(id: nat, quantity: string, checks: Checks, percent: PercentField,
                     notes: string, flagged: set<Field>, warning: bool)

  /** A freshly added row: every check unset, no percentage, no highlight. */
  function BlankRow(id: nat): Row {
    Row(id, "", NoChecks, Blank, "", {}, false)
  }

  /** Number of entries of `s` equal to `v`. */
  function Occurrences(s: seq<Check>, v: Check): (n: nat)
    ensures n <= |s|
    ensures n == |s| <==> forall i :: 0 <= i < |s| ==> s[i] == v
    ensures n == 0 <==> forall i :: 0 <= i < |s| ==> s[i] != v
  {
    if |s| == 0 then 0
    else Occurrences(s[..|s| - 1], v) + (if s[|s| - 1] == v then 1 else 0)
  }

  /** Number of the five checks that are "OK". */
  function OkCount(c: Checks): nat {
    Occurrences(c.Values(), Ok)
  }

  /** Number of the five checks that are not "" (filled in, either way). */
  function FilledCount(c: Checks): nat {
    |Fields| - Occurrences(c.Values(), Unset)
  }

  /** The percentage for `ok` passing checks out of five: (ok / 5) * 100,
      rounded to a whole number. For these inputs the quotient is exact. */
  function PercentOf(ok: nat): (p: nat)
    requires ok <= |Fields|
    ensures p <= 100
    ensures (ok as real / 5.0) * 100.0 == p as real
  {
    ok * 100 / 5
  }

  /** `calculatePercentOK` for one row. The percentage is rewritten only when
      at least one check is filled in; otherwise whatever the field showed
      before stays. Nothing else in the row changes, and the quantity is not
      part of the formula. */
  function Rescore(row: Row): (r: Row)
    ensures r.(percent := row.percent) == row
    ensures FilledCount(row.checks) == 0 ==> r.percent == row.percent
    ensures FilledCount(row.checks) > 0 ==>
              r.percent.Shown? && r.percent.percent * 5 == OkCount(row.checks) * 100
  {
    if FilledCount(row.checks) > 0 then row.(percent := Shown(PercentOf(OkCount(row.checks))))
    else row
  }

  /** `calculatePercentOK` as the source writes it: one pass over the five
      selects counting filled and passing ones, then the percentage. */
  method CalculatePercentOK(row: Row) returns (r: Row)
    ensures r == Rescore(row)
  {
    var values := row.checks.Values();
    var okCount := 0;
    var filledCount := 0;
    var i := 0;
    while i < |values|
      invariant 0 <= i <= |values|
      invariant okCount == Occurrences(values[..i], Ok)
      invariant filledCount == i - Occurrences(values[..i], Unset)
    {
      assert values[..i + 1][..i] == values[..i];
      if values[i] != Unset {
        filledCount := filledCount + 1;
      }
      if values[i] == Ok {
        okCount := okCount + 1;
      }
      i := i + 1;
    }
    assert values[..i] == values;
    if filledCount > 0 {
      r := row.(percent := Shown(okCount * 100 / 5));
    } else {
      r := row;
    }
  }

  /** `updateVisuals` for the select of check `f`: an NG value turns the select
      red and the row yellow; any other value clears the select, and the row
      loses its warning only when no other select of the row is still red. */
  function UpdateVisuals(row: Row, f: Field): (r: Row)
    ensures r.(flagged := row.flagged, warning := row.warning) == row
    ensures row.checks.Get(f) == Ng ==> r.flagged == row.flagged + {f} && r.warning
    ensures row.checks.Get(f) != Ng ==> r.flagged == row.flagged - {f}
    ensures row.checks.Get(f) != Ng ==> (r.warning <==> row.warning && r.flagged != {})
  {
    if row.checks.Get(f) == Ng then row.(flagged := row.flagged + {f}, warning := true)
    else
      var flagged := row.flagged - {f};
      row.(flagged := flagged, warning := if flagged == {} then false else row.warning)
  }

  /** The change handler of a check select: store the new value, update the
      highlighting, rescore the row. */
  function SetCheck(row: Row, f: Field, v: Check): (r: Row)
    ensures r.checks.Get(f) == v
    ensures forall g :: g != f ==> r.checks.Get(g) == row.checks.Get(g)
    ensures r.id == row.id && r.quantity == row.quantity && r.notes == row.notes
  {
    Rescore(UpdateVisuals(row.(checks := row.checks.Set(f, v)), f))
  }

  /** The change handler of the total-inspected input: store the text and
      rescore the row. */
  function SetQuantity(row: Row, q: string): (r: Row)
    ensures r.quantity == q
    ensures r.(quantity := row.quantity, percent := row.percent) == row
  {
    Rescore(row.(quantity := q))
  }

  /** The per-field loop of `setRowOK`: each listed select is set to "OK" and
      its highlighting updated, in order. */
  function MarkOk(row: Row, fs: seq<Field>): (r: Row)
    ensures r.id == row.id && r.quantity == row.quantity && r.notes == row.notes
    ensures r.percent == row.percent
    ensures forall g :: g in fs ==> r.checks.Get(g) == Ok && g !in r.flagged
    ensures forall g :: g !in fs ==> r.checks.Get(g) == row.checks.Get(g)
    ensures forall g :: g !in fs ==> (g in r.flagged <==> g in row.flagged)
    ensures |fs| > 0 && r.flagged == {} ==> !r.warning
    ensures |fs| == 0 ==> r == row
    decreases |fs|
  {
    if |fs| == 0 then row
    else MarkOk(UpdateVisuals(row.(checks := row.checks.Set(fs[0], Ok)), fs[0]), fs[1..])
  }

  /** The per-field loop of `restoreDraft`: `updateVisuals` re-applied to each
      listed select with its current value. */
  function Revisualise(row: Row, fs: seq<Field>): (r: Row)
    ensures r.(flagged := row.flagged, warning := row.warning) == row
    ensures forall g :: g in fs ==> (g in r.flagged <==> row.checks.Get(g) == Ng)
    ensures forall g :: g !in fs ==> (g in r.flagged <==> g in row.flagged)
    ensures |fs| > 0 && r.flagged == {} ==> !r.warning
    decreases |fs|
  {
    if |fs| == 0 then row
    else Revisualise(UpdateVisuals(row, fs[0]), fs[1..])
  }

  /** The highlighting agrees with the values: exactly the NG selects are red,
      and the row is yellow exactly when some select is red. */
  predicate HighlightsAgree(row: Row) {
    && (forall f :: f in row.flagged <==> row.checks.Get(f) == Ng)
    && (row.warning <==> row.flagged != {})
  }

  /** Once any check is filled in, the percentage shown is the one the
      formula gives; with nothing filled in, the field may show anything. */
  predicate PercentAgrees(row: Row) {
    FilledCount(row.checks) > 0 ==> row.percent == Shown(PercentOf(OkCount(row.checks)))
  }

  predicate RowConsistent(row: Row) {
    HighlightsAgree(row) && PercentAgrees(row)
  }

  /** Every check is one of the five listed fields. */
  lemma FieldListed(f: Field)
    ensures f in Fields
  {
  }

  /** A set of fields that misses every listed field is empty. */
  lemma NoneOfFieldsIsEmpty(s: set<Field>)
    requires forall g :: g in Fields ==> g !in s
    ensures s == {}
  {
    if s != {} {
      var g :| g in s;
      FieldListed(g);
    }
  }

  /** Two check records that agree on every field are equal. */
  lemma ChecksExtensional(a: Checks, b: Checks)
    requires forall g :: a.Get(g) == b.Get(g)
    ensures a == b
  {
    assert a.Get(BoxPCode) == b.Get(BoxPCode);
    assert a.Get(BoxContent) == b.Get(BoxContent);
    assert a.Get(BoxColor) == b.Get(BoxColor);
    assert a.Get(SachetSeal) == b.Get(SachetSeal);
    assert a.Get(SachetPCode) == b.Get(SachetPCode);
  }

  /** `setRowOK` on one row: all five checks become "OK", the highlighting is
      cleared, and the row is rescored. */
  function MarkAllOk(row: Row): (r: Row)
    ensures r.checks == AllOk
    ensures r.percent == Shown(100)
    ensures r.flagged == {} && !r.warning
    ensures r.id == row.id && r.quantity == row.quantity && r.notes == row.notes
  {
    var marked := MarkOk(row, Fields);
    MarkedOnAllFields(row);
    AllOkCounts();
    Rescore(marked)
  }

  /** All five checks of `AllOk` are filled in and pass. */
  lemma AllOkCounts()
    ensures OkCount(AllOk) == 5 && FilledCount(AllOk) == 5
  {
    assert AllOk.Values() == [Ok, Ok, Ok, Ok, Ok];
  }

  /** A row after "All OK" is consistent: no check is NG and nothing is
      highlighted, and the percentage is the formula's 100. */
  lemma MarkAllOkConsistent(row: Row)
    ensures RowConsistent(MarkAllOk(row))
  {
    AllOkCounts();
  }

  /** After the loop of `setRowOK` has visited all five selects, every check
      is "OK" and no highlight is left. */
  lemma MarkedOnAllFields(row: Row)
    ensures MarkOk(row, Fields).checks == AllOk
    ensures MarkOk(row, Fields).flagged == {} && !MarkOk(row, Fields).warning
  {
    var marked := MarkOk(row, Fields);
    assert forall g :: g in Fields ==> marked.checks.Get(g) == Ok && g !in marked.flagged;
    forall g
      ensures marked.checks.Get(g) == AllOk.Get(g)
    {
      FieldListed(g);
    }
    ChecksExtensional(marked.checks, AllOk);
    NoneOfFieldsIsEmpty(marked.flagged);
  }


  /** The percentage is 20 points per passing check: a whole multiple of 20
      between 0 and 100, and 100 exactly when all five checks pass. */
  lemma PercentIsTwentyPerOk(row: Row)
    requires FilledCount(row.checks) > 0
    ensures Rescore(row).percent == Shown(20 * OkCount(row.checks))
    ensures Rescore(row).percent.percent % 20 == 0
    ensures Rescore(row).percent.percent <= 100
    ensures Rescore(row).percent == Shown(100) <==> row.checks == AllOk
  {
    var values := row.checks.Values();
    if OkCount(row.checks) == 5 {
      assert forall i :: 0 <= i < |Fields| ==> row.checks.Get(Fields[i]) == Ok;
      assert forall g :: row.checks.Get(g) == Ok by {
        forall g ensures row.checks.Get(g) == Ok {
          FieldListed(g);
        }
      }
      ChecksExtensional(row.checks, AllOk);
    }
    if row.checks == AllOk {
      assert forall i :: 0 <= i < |values| ==> values[i] == Ok;
    }
  }

  /** The total-inspected quantity has no influence on the percentage. */
  lemma ScoreIgnoresQuantity(row: Row, q: string)
    ensures Rescore(row.(quantity := q)).percent == Rescore(row).percent
  {
  }

  /** Changing a check keeps the row consistent: the highlighting follows the
      new value and the percentage is recomputed. */
  lemma SetCheckKeepsConsistent(row: Row, f: Field, v: Check)
    requires RowConsistent(row)
    ensures RowConsistent(SetCheck(row, f, v))
  {
    var stored := row.(checks := row.checks.Set(f, v));
    var shown := UpdateVisuals(stored, f);
    assert HighlightsAgree(shown) by {
      if v != Ng && shown.flagged != {} {
        assert row.flagged != {};
      }
    }
  }

  /** Changing the quantity keeps the row consistent. */
  lemma SetQuantityKeepsConsistent(row: Row, q: string)
    requires RowConsistent(row)
    ensures RowConsistent(SetQuantity(row, q))
  {
  }

  /** A new row is consistent. */
  lemma BlankRowConsistent(id: nat)
    ensures RowConsistent(BlankRow(id))
  {
    assert NoChecks.Values() == [Unset, Unset, Unset, Unset, Unset];
  }

  /** A row rebuilt from saved markup has unset checks, an empty percentage and
      whatever highlight classes were saved; re-applying `updateVisuals` to its
      five selects clears them all, so it is indistinguishable from a new row. */
  lemma RevisualisedUnsetRowIsBlank(id: nat, flagged: set<Field>, warning: bool)
    ensures Revisualise(Row(id, "", NoChecks, Blank, "", flagged, warning), Fields) == BlankRow(id)
  {
    var r := Revisualise(Row(id, "", NoChecks, Blank, "", flagged, warning), Fields);
    NoneOfFieldsIsEmpty(r.flagged);
  }

  /** A row checked OK, OK, NG, OK, OK scores 80%, whatever its quantity. */
  lemma EightyPercentExample(row: Row)
    requires row.checks == Checks(Ok, Ok, Ng, Ok, Ok)
    ensures Rescore(row).percent == Shown(80)
  {
    var values := row.checks.Values();
    assert values == [Ok, Ok, Ng, Ok, Ok];
    assert [Ok, Ok][..1] == [Ok];
    assert [Ok, Ok, Ng][..2] == [Ok, Ok];
    assert [Ok, Ok, Ng, Ok][..3] == [Ok, Ok, Ng];
    assert values[..4] == [Ok, Ok, Ng, Ok];
    assert Occurrences([Ok], Ok) == 1 && Occurrences([Ok], Unset) == 0;
    assert Occurrences([Ok, Ok], Ok) == 2 && Occurrences([Ok, Ok], Unset) == 0;
    assert Occurrences([Ok, Ok, Ng], Ok) == 2;
    assert Occurrences([Ok, Ok, Ng, Ok], Ok) == 3;
    assert OkCount(row.checks) == 4;
    assert FilledCount(row.checks) == 5;
  }
}
