/**
 * `GET /register` and `POST /register` (routes/register.js): the sign-up of
 * a LINE user, which appends a line `userId,name,department` to
 * `data/employees.csv`. The file is a parameter (`None` when it does not
 * exist) and the POST handler returns the file content it leaves behind.
 */
module Register {
  import opened Wrappers
  import opened Strings
  import opened Http
  import opened EmployeesCsv

  /** The header line written when the employee file is created. */
  const Header := "userId,name,department\n"

  /** The page `GET /register` answers with. */
  datatype FormPage =
    | MissingUserId              // 400
    | AlreadyListed(location: string) // redirect to the month selection
    | SignUpForm(userId: string) // the registration form for `userId`

  /** `GET /register?userId=…`. */
  function RegisterGet(userId: Option<string>, file: Option<string>): (page: FormPage)
    ensures page == MissingUserId <==> !Present(userId)
    ensures page.AlreadyListed? <==> Present(userId) && file.Some? && userId.value in TrimmedIds(DataLines(file.value))
    ensures page.AlreadyListed? ==> page.location == "/select?userId=" + userId.value
    ensures page.SignUpForm? ==> page.userId == userId.value
  {
    if !Present(userId) then MissingUserId
    else if file.Some? && userId.value in TrimmedIds(DataLines(file.value)) then AlreadyListed("/select?userId=" + userId.value)
    else SignUpForm(userId.value)
  }

  /**
   * The registration form and the payslip page agree on who is registered:
   * a user is sent on to the month selection exactly when the payslip page
   * would find the user in the employee file.
   */
  lemma GetAgreesWithEmployeeIds(userId: string, content: string)
    requires userId != ""
    ensures RegisterGet(Some(userId), Some(content)).AlreadyListed? <==> userId in EmployeeIds(content)
  {
  }

  /** `lines.map(line => line.split(',')[0])`: the untrimmed first fields. */
  function FirstFields(lines: seq<string>): (ids: seq<string>)
    ensures |ids| == |lines|
    ensures forall k :: 0 <= k < |lines| ==> ids[k] == FirstField(lines[k])
  {
    seq(|lines|, k requires 0 <= k < |lines| => FirstField(lines[k]))
  }

  /** `${userId},${name},${department}\n`. */
  function NewLine(userId: string, name: string, department: string): (line: string)
    ensures |line| > 0 && line[|line| - 1] == '\n'
    ensures StartsWith(line, userId + ",")
  {
    userId + "," + name + "," + department + "\n"
  }

  /** What `POST /register` does. */
  datatype Outcome =
    | MissingFields       // 400: a form field is empty
    | Duplicate           // 400: the user id is already in the file
    | Saved(content: string) // the file now holds `content`; redirect to the success page

  /** The response the browser receives. */
  function PostResponse(o: Outcome): (r: Response)
    ensures r == BadRequest <==> !o.Saved?
    ensures o.Saved? ==> r == Redirect("/register/success")
  {
    if o.Saved? then Redirect("/register/success") else BadRequest
  }

  /** `POST /register` with the form fields `name`, `department` and `userId`. */
  function RegisterPost(name: Option<string>, department: Option<string>, userId: Option<string>,
                        file: Option<string>): (o: Outcome)
    ensures o == MissingFields <==> !Present(name) || !Present(department) || !Present(userId)
    // The duplicate check compares the first field untrimmed.
    ensures o == Duplicate <==> Present(name) && Present(department) && Present(userId)
                                && file.Some? && userId.value in FirstFields(DataLines(file.value))
    // The file is only ever appended to; a new file starts with the header.
    ensures o.Saved? && file.Some? ==> StartsWith(o.content, file.value)
    ensures o.Saved? && file.None? ==> StartsWith(o.content, Header)
    ensures o.Saved? ==> |o.content| > 0 && o.content[|o.content| - 1] == '\n'
  {
    if !Present(name) || !Present(department) || !Present(userId) then MissingFields
    else if file.Some? && userId.value in FirstFields(DataLines(file.value)) then Duplicate
    else
      var line := NewLine(userId.value, name.value, department.value);
      match file
      case None => Saved(Header + line)
      case Some(content) => Saved(content + line)
  }

  /**
   * A line `userId,…` appended after a newline is a data line whose first
   * field is `userId`, when the id holds no comma and no line break.
   */
  lemma AppendedLineFirstField(before: string, userId: string, rest: string)
    requires !Contains(userId, ",") && !Contains(userId, "\n")
    ensures var lines := Lines(before + "\n" + (userId + "," + rest));
            var k := |Lines(before)|;
            1 <= k < |lines| && FirstField(lines[k]) == userId
  {
    var x := userId + "," + rest;
    LineAfterNewline(before, x);
    FirstFieldOfIdLine(userId, rest);
  }

  /** The text after a newline starts the line that follows the lines before it. */
  lemma LineAfterNewline(before: string, x: string)
    ensures var k := |Lines(before)|;
            1 <= k < |Lines(before + "\n" + x)| && Lines(before + "\n" + x)[k] == Split(x, "\n")[0]
  {
    SplitAtSeparator(before, x, '\n');
  }

  /** The first line of `userId,…` has `userId` as its first field. */
  lemma FirstFieldOfIdLine(userId: string, rest: string)
    requires !Contains(userId, ",") && !Contains(userId, "\n")
    ensures FirstField(Split(userId + "," + rest, "\n")[0]) == userId
  {
    assert userId + "," + rest == userId + ("," + rest);
    FirstPieceExtends(userId, "," + rest, '\n');
    OtherCharWithout(',', '\n');
    FirstPieceExtends(",", rest, '\n');
    var line := Split(userId + "," + rest, "\n")[0];
    assert line == userId + "," + Split(rest, "\n")[0];
    FirstPieceBeforeSeparator(userId, Split(rest, "\n")[0], ',');
  }

  /** The id of a line appended after a newline is among the first fields of the data lines. */
  lemma AppendedIdListed(before: string, userId: string, rest: string)
    requires !Contains(userId, ",") && !Contains(userId, "\n")
    ensures userId in FirstFields(DataLines(before + "\n" + (userId + "," + rest)))
    ensures Trim(userId) == userId ==> userId in TrimmedIds(DataLines(before + "\n" + (userId + "," + rest)))
  {
    var content := before + "\n" + (userId + "," + rest);
    AppendedLineFirstField(before, userId, rest);
    var k := |Lines(before)|;
    assert DataLines(content)[k - 1] == Lines(content)[k];
    assert FirstFields(DataLines(content))[k - 1] == userId;
    assert TrimmedIds(DataLines(content))[k - 1] == Trim(userId);
  }

  /** A saved registration appends the new line to the file, or to the header when there is no file. */
  lemma SavedIsAppend(name: string, department: string, userId: string, file: Option<string>)
    requires RegisterPost(Some(name), Some(department), Some(userId), file).Saved?
    ensures RegisterPost(Some(name), Some(department), Some(userId), file).content
            == (if file.None? then Header else file.value) + NewLine(userId, name, department)
  {
  }

  /** The header is its column names and a line break. */
  lemma HeaderLine()
    ensures Header == "userId,name,department" + "\n"
  {
  }

  /** The content a registration leaves ends with the new line after a newline. */
  lemma SavedContentShape(name: string, department: string, userId: string, file: Option<string>)
    requires RegisterPost(Some(name), Some(department), Some(userId), file).Saved?
    requires file.None? || (|file.value| > 0 && file.value[|file.value| - 1] == '\n')
    ensures var before := if file.None? then "userId,name,department" else file.value[..|file.value| - 1];
            RegisterPost(Some(name), Some(department), Some(userId), file).content
              == before + "\n" + (userId + "," + (name + "," + department + "\n"))
  {
    SavedIsAppend(name, department, userId, file);
    var before := if file.None? then "userId,name,department" else file.value[..|file.value| - 1];
    if file.Some? {
      var f := file.value;
      assert f == f[..|f| - 1] + "\n";
    } else {
      HeaderLine();
    }
    var rest := name + "," + department + "\n";
    assert NewLine(userId, name, department) == userId + "," + rest;
  }

  /** A registration whose id is among the first fields of the file is a duplicate. */
  lemma ListedIsDuplicate(name: string, department: string, userId: string, content: string)
    requires name != "" && department != "" && userId != ""
    requires userId in FirstFields(DataLines(content))
    ensures RegisterPost(Some(name), Some(department), Some(userId), Some(content)) == Duplicate
  {
  }

  /**
   * Registering an id twice is refused the second time, whatever name and
   * department are sent, provided the file ended with a line break and the
   * id holds no comma and no line break.
   */
  lemma SecondRegistrationRejected(name: string, department: string, userId: string, file: Option<string>,
                                   name': string, department': string)
    requires RegisterPost(Some(name), Some(department), Some(userId), file).Saved?
    requires file.None? || (|file.value| > 0 && file.value[|file.value| - 1] == '\n')
    requires !Contains(userId, ",") && !Contains(userId, "\n")
    requires name' != "" && department' != ""
    ensures var content := RegisterPost(Some(name), Some(department), Some(userId), file).content;
            RegisterPost(Some(name'), Some(department'), Some(userId), Some(content)) == Duplicate
  {
    var content := RegisterPost(Some(name), Some(department), Some(userId), file).content;
    var before := if file.None? then "userId,name,department" else file.value[..|file.value| - 1];
    SavedContentShape(name, department, userId, file);
    AppendedIdListed(before, userId, name + "," + department + "\n");
    ListedIsDuplicate(name', department', userId, content);
  }

  /**
   * After a registration the new user counts as listed: the registration
   * form sends the user on and the payslip page no longer refuses the id,
   * provided the id has no surrounding white space.
   */
  lemma RegisteredUserIsListed(name: string, department: string, userId: string, file: Option<string>)
    requires RegisterPost(Some(name), Some(department), Some(userId), file).Saved?
    requires file.None? || (|file.value| > 0 && file.value[|file.value| - 1] == '\n')
    requires !Contains(userId, ",") && !Contains(userId, "\n") && Trim(userId) == userId
    ensures var content := RegisterPost(Some(name), Some(department), Some(userId), file).content;
            userId in EmployeeIds(content)
            && RegisterGet(Some(userId), Some(content)) == AlreadyListed("/select?userId=" + userId)
  {
    var before := if file.None? then "userId,name,department" else file.value[..|file.value| - 1];
    SavedContentShape(name, department, userId, file);
    AppendedIdListed(before, userId, name + "," + department + "\n");
  }

  /** A file of one unterminated line, once a line break is added, has one empty data line. */
  lemma SingleLineData(line: string)
    requires !Contains(line, "\n")
    ensures FirstFields(DataLines(line + "\n")) == [""]
  {
    assert line + "\n" == line + "\n" + "";
    SplitAtSeparator(line, "", '\n');
    SplitWithout(line, "\n");
    assert Split("", "\n") == [""];
    assert Lines(line + "\n") == [line] + [""];
    assert FirstField("") == "";
  }

  /** Appending a registration to a file without line breaks leaves a single line and a line break. */
  lemma AppendToSingleLine(file: string, userId: string, name: string, department: string)
    requires !Contains(file, "\n") && !Contains(userId, "\n") && !Contains(name, "\n") && !Contains(department, "\n")
    ensures var line := file + (userId + "," + name + "," + department);
            !Contains(line, "\n") && file + NewLine(userId, name, department) == line + "\n"
  {
    var comma := ",";
    OtherCharWithout(',', '\n');
    ConcatWithout(userId, comma, '\n');
    ConcatWithout(userId + comma, name, '\n');
    ConcatWithout(userId + comma + name, comma, '\n');
    ConcatWithout(userId + comma + name + comma, department, '\n');
    var fields := userId + comma + name + comma + department;
    ConcatWithout(file, fields, '\n');
    AppendAssociative(file, fields, "\n");
  }

  /** A registration whose id is not among the first fields of the file is saved. */
  lemma UnlistedIsSaved(name: string, department: string, userId: string, content: string)
    requires name != "" && department != "" && userId != ""
    requires userId !in FirstFields(DataLines(content))
    ensures RegisterPost(Some(name), Some(department), Some(userId), Some(content)).Saved?
  {
  }

  /**
   * A file whose last line has no line break swallows the next registration
   * into that line, so the same id is accepted again: the line the first
   * registration wrote is not a line of its own.
   */
  lemma UnterminatedFileAdmitsDuplicate(name: string, department: string, userId: string, file: string,
                                        name': string, department': string)
    requires RegisterPost(Some(name), Some(department), Some(userId), Some(file)).Saved?
    requires !Contains(file, "\n") && !Contains(userId, "\n") && !Contains(name, "\n") && !Contains(department, "\n")
    requires name' != "" && department' != ""
    ensures var content := RegisterPost(Some(name), Some(department), Some(userId), Some(file)).content;
            RegisterPost(Some(name'), Some(department'), Some(userId), Some(content)).Saved?
  {
    var content := RegisterPost(Some(name), Some(department), Some(userId), Some(file)).content;
    SavedIsAppend(name, department, userId, Some(file));
    AppendToSingleLine(file, userId, name, department);
    var line := file + (userId + "," + name + "," + department);
    SingleLineData(line);
    UnlistedIsSaved(name', department', userId, content);
  }
}
