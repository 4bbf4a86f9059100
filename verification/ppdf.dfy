/**
 * `GET /ppdf/pdf` (routes/ppdf.js): the payslip of a registered user as a
 * PDF. The two store queries and the PDF renderer are outside the model:
 * the handler receives their answers as parameters.
 */
module PdfRoute {
  import opened Wrappers
  import opened Strings
  import opened JsValues
  import opened Http
  import opened Helpers
  import opened Template

  /** `validUserIds.includes(userId)`: some employee row carries `userId` as its LINE id. */
  predicate Registered(employees: seq<Record>, userId: string) {
    Some(Text(userId)) in Column(employees, "line_user_id")
  }

  /**
   * The loop of routes/ppdf.js that builds the rows and totals in place
   * rather than calling `processPayslipData`: it collects exactly the rows
   * and totals that helper collects.
   */
  method AggregateInline(payslip: Record, names: DisplayNames)
    returns (allowanceRows: seq<string>, deductionRows: seq<string>, totalAllowance: int, totalDeduction: int)
    ensures var s := ProcessPayslip(payslip, names);
            allowanceRows == RowsHtml(s.allowances) && deductionRows == RowsHtml(s.deductions)
            && totalAllowance == s.totalAllowance && totalDeduction == s.totalDeduction
  {
    allowanceRows, deductionRows := [], [];
    totalAllowance, totalDeduction := 0, 0;
    var i := 0;
    while i < |payslip|
      invariant 0 <= i <= |payslip|
      invariant allowanceRows == RowsHtml(KeptLines(payslip[..i], AllowancePrefix, names))
      invariant deductionRows == RowsHtml(KeptLines(payslip[..i], DeductionPrefix, names))
      invariant totalAllowance == SumKept(payslip[..i], AllowancePrefix)
      invariant totalDeduction == SumKept(payslip[..i], DeductionPrefix)
    {
      var field := payslip[i];
      allowanceRows, totalAllowance := AddIfKept(allowanceRows, totalAllowance, field, AllowancePrefix, names);
      deductionRows, totalDeduction := AddIfKept(deductionRows, totalDeduction, field, DeductionPrefix, names);
      i := i + 1;
      KeptStep(payslip, i, AllowancePrefix, names);
      KeptStep(payslip, i, DeductionPrefix, names);
    }
    assert payslip[..i] == payslip;
    ProcessPayslipIsKeptLines(payslip, names);
    TotalsAreSumsOfKeptFields(payslip, names);
  }

  /**
   * One `if` of the loop body: a field whose key carries `prefix` and whose
   * `Number` value is non-zero adds its row and its amount.
   */
  method AddIfKept(rows: seq<string>, total: int, field: (string, Value), prefix: string, names: DisplayNames)
    returns (rows': seq<string>, total': int)
    ensures Kept(field, prefix) ==> rows' == rows + [RowHtml(LineOf(field, names))] && total' == total + ToNumber(field.1).value
    ensures !Kept(field, prefix) ==> rows' == rows && total' == total
  {
    rows', total' := rows, total;
    var amount := ToNumber(field.1);
    if StartsWith(field.0, prefix) && amount.Some? && amount.value != 0 {
      rows' := rows + [RowHtml(LineOf(field, names))];
      total' := total + amount.value;
    }
  }

  /** The rows and total of `prefix` over the first `i` fields extend those over the first `i - 1`. */
  lemma KeptStep(payslip: Record, i: nat, prefix: string, names: DisplayNames)
    requires 0 < i <= |payslip|
    ensures RowsHtml(KeptLines(payslip[..i], prefix, names))
            == RowsHtml(KeptLines(payslip[..i - 1], prefix, names))
               + (if Kept(payslip[i - 1], prefix) then [RowHtml(LineOf(payslip[i - 1], names))] else [])
    ensures SumKept(payslip[..i], prefix) == SumKept(payslip[..i - 1], prefix) + Contribution(payslip[i - 1], prefix)
  {
    assert payslip[..i][..i - 1] == payslip[..i - 1];
    assert payslip[..i] == payslip[..i - 1] + [payslip[i - 1]];
    SumKeptSnoc(payslip[..i - 1], payslip[i - 1], prefix);
  }

  /**
   * The handler. `employees` and `salaries` are the answers of the two store
   * queries (the second already filtered by user and month), `Err` when the
   * request failed; `rendered` says whether the PDF renderer succeeded.
   */
  function HandlePdf(userId: Option<string>, month: Option<string>,
                     employees: Result<seq<Record>>, salaries: Result<seq<Record>>,
                     template: string, names: DisplayNames, rendered: bool): (r: Response)
    // A missing parameter is refused before any store is asked.
    ensures r == BadRequest <==> !Present(userId) || !Present(month)
    // A user without an employee row never gets a document, whatever the salary store holds.
    ensures Present(userId) && Present(month) && employees.Ok? && !Registered(employees.value, userId.value)
            ==> r == Forbidden
    ensures r == Forbidden ==> employees.Ok? && !Registered(employees.value, userId.value)
    ensures r == NotFound <==> (Present(userId) && Present(month) && employees.Ok? && Registered(employees.value, userId.value)
                               && salaries.Ok? && |salaries.value| == 0)
    // A document is the first matching salary row, filled into the template without the download button.
    ensures r.PdfDocument? <==> (Present(userId) && Present(month) && employees.Ok? && Registered(employees.value, userId.value)
                                 && salaries.Ok? && |salaries.value| > 0 && rendered)
    ensures r.PdfDocument? ==> r.html == RenderPdf(template, salaries.value[0], ProcessPayslip(salaries.value[0], names))
    ensures r.Redirect? == false && r.Html? == false
  {
    if !Present(userId) || !Present(month) then BadRequest
    else if employees.Err? then ServerError
    else if !Registered(employees.value, userId.value) then Forbidden
    else if salaries.Err? then ServerError
    else if |salaries.value| == 0 then NotFound
    else if !rendered then ServerError
    else
      var payslip := salaries.value[0];
      PdfDocument(RenderPdf(template, payslip, ProcessPayslip(payslip, names)))
  }
}
