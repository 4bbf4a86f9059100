/**
 * `GET /select?u=…` (routes/select.js): the month selection of an
 * employee, reachable only by the LINE user the employee row belongs to.
 * The two store queries and the session are parameters: the employee
 * lookup is `Err` on a failed query and `Ok(None)` when no row has the
 * uuid, and the session user is `None` when nobody is logged in.
 */
module SelectRoute {
  import opened Wrappers
  import opened JsValues
  import opened Http
  import opened Helpers
  import opened Accumulate
  import opened PayslipRoute

  /**
   * `employee.line_user_id === req.session.userId`: strict equality, so an
   * absent session user only matches an absent column and a stored `null`
   * matches nobody.
   */
  predicate SameUser(lineUserId: Option<Value>, sessionUser: Option<string>) {
    match sessionUser
    case None => lineUserId.None?
    case Some(s) => lineUserId == Some(Text(s))
  }

  /** `<option value="${m}">${m}</option>`. */
  function OptionTag(m: Option<Value>): (tag: string)
    ensures |tag| > 0 && tag[0] == '<'
  {
    "<option value=\"" + FieldText(m) + "\">" + FieldText(m) + "</option>"
  }

  /** The option tags of a month list, one per month. */
  function Tags(ms: seq<Option<Value>>): (tags: seq<string>)
    ensures |tags| == |ms|
    ensures forall i :: 0 <= i < |ms| ==> tags[i] == OptionTag(ms[i])
  {
    seq(|ms|, i requires 0 <= i < |ms| => OptionTag(ms[i]))
  }

  /** `months.map(…).join('')`. */
  function OptionTags(ms: seq<Option<Value>>): string {
    Concat(Tags(ms))
  }

  /**
   * The options of a month list are the options of its parts, one after the
   * other: one tag per month, in list order.
   */
  lemma OptionTagsAppend(a: seq<Option<Value>>, b: seq<Option<Value>>)
    ensures OptionTags(a + b) == OptionTags(a) + OptionTags(b)
  {
    assert Tags(a + b) == Tags(a) + Tags(b);
    ConcatAppend(Tags(a), Tags(b));
  }

  /** A single month gives a single option. */
  lemma OneOptionPerMonth(m: Option<Value>)
    ensures OptionTags([m]) == OptionTag(m)
  {
    var tags := Tags([m]);
    assert tags == [OptionTag(m)] && tags[..0] == [];
    assert Concat(tags) == Concat(tags[..0]) + OptionTag(m);
    assert "" + OptionTag(m) == OptionTag(m);
  }

  /** The names of the month form's two fields. */
  const UuidField: string := "u"
  const MonthField: string := "month"

  /** The month form: it submits the fields `u` and `month` to `/payslip`. */
  function MonthForm(uuid: string, options: string): string {
    "\n    <h1>\U{7D66}\U{4E0E}\U{660E}\U{7D30}\U{306E}\U{6708}\U{3092}\U{9078}\U{629E}</h1>\n"
    + "    <form action=\"/payslip\" method=\"GET\">\n"
    + "      <input type=\"hidden\" name=\"" + UuidField + "\" value=\"" + uuid + "\" />\n"
    + "      <select name=\"" + MonthField + "\">\n"
    + "        " + options + "\n"
    + "      </select>\n"
    + "      <button type=\"submit\">\U{8868}\U{793A}</button>\n"
    + "    </form>\n  "
  }

  /** The handler. */
  function HandleSelect(u: Option<string>, employee: Result<Option<Record>>, sessionUser: Option<string>,
                        salaries: Result<seq<Record>>): (r: Response)
    ensures r == BadRequest <==> !Present(u)
    // An unknown uuid and a failed lookup look the same.
    ensures r == NotFound <==> Present(u) && (employee.Err? || employee.value.None?
                                             || (SameUser(Get(employee.value.value, "line_user_id"), sessionUser)
                                                 && salaries.Ok? && |salaries.value| == 0))
    // Only the LINE user the employee row belongs to gets past the ownership check.
    ensures r == Forbidden <==> Present(u) && employee.Ok? && employee.value.Some?
                                && !SameUser(Get(employee.value.value, "line_user_id"), sessionUser)
    ensures r == ServerError <==> Present(u) && employee.Ok? && employee.value.Some?
                                  && SameUser(Get(employee.value.value, "line_user_id"), sessionUser) && salaries.Err?
    // The owner with at least one salary row always gets the month form.
    ensures r.Html? <==> Present(u) && employee.Ok? && employee.value.Some?
                         && SameUser(Get(employee.value.value, "line_user_id"), sessionUser)
                         && salaries.Ok? && |salaries.value| > 0
    ensures r.Html? ==> r.body == MonthForm(u.value, OptionTags(Distinct(Column(salaries.value, "month"))))
    ensures r == NotFound || r.Html? || r in {BadRequest, Forbidden, ServerError}
  {
    if !Present(u) then BadRequest
    else if employee.Err? || employee.value.None? then NotFound
    else if !SameUser(Get(employee.value.value, "line_user_id"), sessionUser) then Forbidden
    else if salaries.Err? then ServerError
    else if |salaries.value| == 0 then NotFound
    else Html(MonthForm(u.value, OptionTags(Distinct(Column(salaries.value, "month")))))
  }

  /** Nobody logged in never sees the months of an employee whose row has a LINE id column. */
  lemma LoggedOutIsForbidden(u: string, e: Record, salaries: Result<seq<Record>>)
    requires u != "" && Get(e, "line_user_id").Some?
    ensures HandleSelect(Some(u), Ok(Some(e)), None, salaries) == Forbidden
  {
  }

  /**
   * The month list offers every month of the salary rows exactly once, and
   * in the order the months first appear.
   */
  lemma MonthListIsFirstOccurrences(salaries: seq<Record>)
    ensures var ms := Column(salaries, "month");
            var ds := Distinct(ms);
            (forall m :: m in ds <==> exists i :: 0 <= i < |salaries| && Get(salaries[i], "month") == m)
            && (forall i, j :: 0 <= i < j < |ds| ==> ds[i] != ds[j])
            && (forall i, j :: 0 <= i < j < |ds| ==> FirstIndex(ms, ds[i]) < FirstIndex(ms, ds[j]))
  {
    var ms := Column(salaries, "month");
    DistinctKeepsFirstOccurrenceOrder(ms);
    forall m ensures m in Distinct(ms) <==> exists i :: 0 <= i < |salaries| && Get(salaries[i], "month") == m {
      if m in ms {
        var i :| 0 <= i < |ms| && ms[i] == m;
        assert Get(salaries[i], "month") == m;
      }
    }
  }

  /**
   * The query a submission of `MonthForm` sends: each field under the name
   * `MonthForm` gives it, the uuid as `u` and the chosen month as `month`.
   */
  function FormQuery(uuid: string, month: string): (q: Entries<string>)
    ensures Get(q, "u") == Some(uuid) && Get(q, "month") == Some(month)
  {
    [(UuidField, uuid), (MonthField, month)]
  }

  /**
   * The payslip page reads `userId`, which the month form does not send, so
   * submitting the form is always answered with 400.
   */
  lemma MonthFormReachesPayslipWithoutUserId(uuid: string, month: string, employeesCsv: Option<string>,
                                            payslips: Result<Entries<UserData>>, template: string,
                                            names: DisplayNames)
    ensures var q := FormQuery(uuid, month);
            Get(q, "userId").None?
            && HandlePayslip(Get(q, "userId"), Get(q, "month"), employeesCsv, payslips, template, names) == BadRequest
  {
    var q := FormQuery(uuid, month);
    assert q[0].0 != "userId" && q[1].0 != "userId";
  }
}
