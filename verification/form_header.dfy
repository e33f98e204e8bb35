/** The form's header fields, the product standard matrix, and the expiry rule
    attached to the production date (js/script.js, the `prodDate` change
    listener in `setupDateValidation`). */
module FormHeader {
  import Calendar

  /** The value of a date input: empty, or a calendar day given by its day
      number (see `Calendar.DayNumber`). */
  datatype DateValue = NoDate | OnDay(day: int)

  /** The part of one product's standard that the modelled logic reads. */
  datatype ProductStandard = ProductStandard(itemCode: string, shelfLifeDays: nat)

  /** The standard matrix: product name to standard. Its keys are also the
      options of the product select. */
  type Matrix = map<string, ProductStandard>

  /** The seven header fields the draft saves. `productItem` is "" when no
      product is selected. */
  datatype Header = Header(checkDate: DateValue, prodDate: DateValue, expDate: DateValue,
                           productItem: string, shift: string, line: string, group: string)

  /** The header of a new form opened on day `today`: both the check date and
      the production date default to today, everything else is empty. */
  function FreshHeader(today: int): (h: Header)
    ensures h.checkDate == OnDay(today) && h.prodDate == OnDay(today)
    ensures h.expDate == NoDate && h.productItem == ""
  {
    Header(OnDay(today), OnDay(today), NoDate, "", "", "", "")
  }

  /** Whether the product select shows `p`: the empty placeholder or a
      product of the matrix. */
  predicate Selectable(p: string, matrix: Matrix) {
    p == "" || p in matrix
  }

  /** What a select ends up showing after its value is set to `p`: `p` when it
      is one of its options, and the empty placeholder otherwise. */
  function SelectValue(p: string, matrix: Matrix): (v: string)
    ensures Selectable(v, matrix)
    ensures Selectable(p, matrix) ==> v == p
    ensures !Selectable(p, matrix) ==> v == ""
  {
    if p in matrix then p else ""
  }

  /** A user edit of one header field other than the production date. The
      production date has its own listener (`ChangeProdDate`). */
  datatype HeaderEdit =
    | EditCheckDate(date: DateValue)
    | EditExpDate(date: DateValue)
    | EditProduct(product: string)
    | EditShift(text: string)
    | EditLine(text: string)
    | EditGroup(text: string)

  /** The header after one field edit: the edited field takes the new value,
      every other field, the production date included, keeps its value. */
  function ApplyEdit(h: Header, e: HeaderEdit): (r: Header)
    ensures r.prodDate == h.prodDate
    ensures e.EditCheckDate? ==> r.checkDate == e.date && r.(checkDate := h.checkDate) == h
    ensures e.EditExpDate? ==> r.expDate == e.date && r.(expDate := h.expDate) == h
    ensures e.EditProduct? ==> r.productItem == e.product && r.(productItem := h.productItem) == h
    ensures e.EditShift? ==> r.shift == e.text && r.(shift := h.shift) == h
    ensures e.EditLine? ==> r.line == e.text && r.(line := h.line) == h
    ensures e.EditGroup? ==> r.group == e.text && r.(group := h.group) == h
  {
    match e
    case EditCheckDate(d) => h.(checkDate := d)
    case EditExpDate(d) => h.(expDate := d)
    case EditProduct(p) => h.(productItem := p)
    case EditShift(s) => h.(shift := s)
    case EditLine(s) => h.(line := s)
    case EditGroup(s) => h.(group := s)
  }

  /** The production-date change listener: the new production date is stored,
      and when a known product is selected and the new date is not empty the
      expiry date becomes that date plus the product's shelf life. Otherwise
      the expiry date keeps its value. No other field changes. */
  function ChangeProdDate(h: Header, v: DateValue, matrix: Matrix): (r: Header)
    ensures r.prodDate == v
    ensures r.(expDate := h.expDate) == h.(prodDate := v)
    ensures h.productItem != "" && h.productItem in matrix && v.OnDay? ==>
              r.expDate.OnDay? && r.expDate.day - v.day == matrix[h.productItem].shelfLifeDays
    ensures !(h.productItem != "" && h.productItem in matrix && v.OnDay?) ==> r.expDate == h.expDate
  {
    var h' := h.(prodDate := v);
    if h.productItem != "" && h.productItem in matrix && v.OnDay? then
      h'.(expDate := OnDay(v.day + matrix[h.productItem].shelfLifeDays))
    else h'
  }

  /** The expiry written by the listener is the calendar date lying the
      product's shelf life after the production date. */
  lemma ExpiryIsShelfLifeLater(h: Header, prod: Calendar.Date, matrix: Matrix)
    requires Calendar.ValidDate(prod)
    requires h.productItem != "" && h.productItem in matrix
    ensures ChangeProdDate(h, OnDay(Calendar.DayNumber(prod)), matrix).expDate
            == OnDay(Calendar.DayNumber(Calendar.AddDays(prod, matrix[h.productItem].shelfLifeDays)))
  {
    Calendar.AddDaysCountsDays(prod, matrix[h.productItem].shelfLifeDays);
  }

  /** "Candy Apple", with its shelf life of 365 days, produced on 2025-01-01
      expires on 2026-01-01; 2025-06-01 lies 151 days after that production
      date. */
  lemma CandyAppleExample(h: Header, matrix: Matrix)
    requires h.productItem == "Candy Apple"
    requires h.productItem in matrix && matrix[h.productItem].shelfLifeDays == 365
    ensures ChangeProdDate(h, OnDay(Calendar.DayNumber(Calendar.Date(2025, 1, 1))), matrix).expDate
            == OnDay(Calendar.DayNumber(Calendar.Date(2026, 1, 1)))
    ensures Calendar.DayNumber(Calendar.Date(2025, 6, 1)) - Calendar.DayNumber(Calendar.Date(2025, 1, 1)) == 151
  {
  }
}
