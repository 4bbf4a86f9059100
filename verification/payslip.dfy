/**
 * `GET /payslip` (routes/payslip.js): the HTML payslip of a user listed in
 * `data/employees.csv`, read from `data/payslips.json`. The files are
 * parameters: `None` for a file that does not exist, `Err` for a failed read.
 */
module PayslipRoute {
  import opened Wrappers
  import opened Strings
  import opened JsValues
  import opened Http
  import opened Helpers
  import opened Template
  import opened EmployeesCsv

  /** The entry of one user in `data/payslips.json`: a list of monthly records or a single record. */
  datatype UserData = Many(records: seq<Record>) | Single(record: Record)

  /** `decodeURIComponent(req.query.month)`: a missing parameter becomes the text "undefined". */
  function SelectedMonth(month: Option<string>): (m: string)
    ensures month.Some? ==> m == month.value
    ensures month.None? ==> m == "undefined"
  {
    match month
    case None => "undefined"
    case Some(s) => s
  }

  /** `p.month === selectedMonth`: strict equality, so a numeric month never matches. */
  predicate HasMonth(p: Record, month: string) {
    Get(p, "month") == Some(Text(month))
  }

  /** `records.findIndex(p => p.month === month)`, with `None` for -1. */
  function FirstWithMonth(records: seq<Record>, month: string): (r: Option<nat>)
    ensures r.None? <==> forall j :: 0 <= j < |records| ==> !HasMonth(records[j], month)
    ensures r.Some? ==> r.value < |records| && HasMonth(records[r.value], month)
    ensures r.Some? ==> forall j :: 0 <= j < r.value ==> !HasMonth(records[j], month)
  {
    FirstWithMonthFrom(records, month, 0)
  }

  /** The search from position `k` on. */
  function FirstWithMonthFrom(records: seq<Record>, month: string, k: nat): (r: Option<nat>)
    requires k <= |records|
    ensures r.None? <==> forall j :: k <= j < |records| ==> !HasMonth(records[j], month)
    ensures r.Some? ==> k <= r.value < |records| && HasMonth(records[r.value], month)
    ensures r.Some? ==> forall j :: k <= j < r.value ==> !HasMonth(records[j], month)
    decreases |records| - k
  {
    if k == |records| then None
    else if HasMonth(records[k], month) then Some(k)
    else FirstWithMonthFrom(records, month, k + 1)
  }

  /** `Array.isArray(userData) ? userData.find(p => p.month === month) : userData`. */
  function ChoosePayslip(data: UserData, month: string): (p: Option<Record>)
    ensures data.Single? ==> p == Some(data.record)
    ensures data.Many? ==> (p.None? <==> forall j :: 0 <= j < |data.records| ==> !HasMonth(data.records[j], month))
    ensures data.Many? && p.Some? ==> HasMonth(p.value, month) && p.value in data.records
    // `find` returns the first record with the month.
    ensures data.Many? && p.Some? ==>
              exists i :: 0 <= i < |data.records| && p.value == data.records[i] && HasMonth(data.records[i], month)
                          && forall j :: 0 <= j < i ==> !HasMonth(data.records[j], month)
  {
    match data
    case Single(r) => Some(r)
    case Many(records) =>
      match FirstWithMonth(records, month)
      case None => None
      case Some(i) => Some(records[i])
  }

  /**
   * The handler. `employeesCsv` is `data/employees.csv` (`None` when it does
   * not exist) and `payslips` the parsed `data/payslips.json` (`Err` when it
   * cannot be read).
   */
  function HandlePayslip(userId: Option<string>, month: Option<string>, employeesCsv: Option<string>,
                         payslips: Result<Entries<UserData>>, template: string, names: DisplayNames): (r: Response)
    // Only an empty month is refused: a missing one reads as "undefined".
    ensures r == BadRequest <==> !Present(userId) || month == Some("")
    // 500 for a missing employee file, and for an unreadable payslip file once the user is listed.
    ensures r == ServerError <==> Present(userId) && month != Some("")
                                  && (employeesCsv.None?
                                      || (userId.value in EmployeeIds(employeesCsv.value) && payslips.Err?))
    // A user not listed in the employee file is refused before the payslips are read.
    ensures r == Forbidden <==> (Present(userId) && month != Some("") && employeesCsv.Some?
                                 && userId.value !in EmployeeIds(employeesCsv.value))
    ensures r.Html? ==> employeesCsv.Some? && userId.value in EmployeeIds(employeesCsv.value) && payslips.Ok?
    // The page shows the chosen record, with the download link for the same user and month.
    ensures r.Html? ==>
              var data := Get(payslips.value, userId.value);
              data.Some? && ChoosePayslip(data.value, SelectedMonth(month)).Some?
              && var p := ChoosePayslip(data.value, SelectedMonth(month)).value;
                 r.body == RenderView(template, p, ProcessPayslip(p, names), userId.value, SelectedMonth(month))
    // 404 exactly when a listed user has no entry, or no record of the month.
    ensures r == NotFound <==> Present(userId) && month != Some("") && employeesCsv.Some?
                               && userId.value in EmployeeIds(employeesCsv.value) && payslips.Ok?
                               && (Get(payslips.value, userId.value).None?
                                   || ChoosePayslip(Get(payslips.value, userId.value).value, SelectedMonth(month)).None?)
    ensures r in {BadRequest, ServerError, Forbidden, NotFound} || r.Html?
  {
    var selected := SelectedMonth(month);
    if !Present(userId) || selected == "" then BadRequest
    else if employeesCsv.None? then ServerError
    else if userId.value !in EmployeeIds(employeesCsv.value) then Forbidden
    else if payslips.Err? then ServerError
    else
      match Get(payslips.value, userId.value)
      case None => NotFound
      case Some(data) =>
        match ChoosePayslip(data, selected)
        case None => NotFound
        case Some(p) => Html(RenderView(template, p, ProcessPayslip(p, names), userId.value, selected))
  }

  /** For a list of monthly records, the page is about the month asked for. */
  lemma ShownMonthIsSelected(records: seq<Record>, month: string)
    requires ChoosePayslip(Many(records), month).Some?
    ensures FieldText(Get(ChoosePayslip(Many(records), month).value, "month")) == month
  {
  }

  /** A month stored as a number is never found: the lookup compares with `===` against the query text. */
  lemma NumericMonthNeverMatches(records: seq<Record>, month: string)
    requires forall j :: 0 <= j < |records| ==> Get(records[j], "month").Some? && Get(records[j], "month").value.Num?
    ensures ChoosePayslip(Many(records), month).None?
  {
  }
}
