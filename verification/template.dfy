/**
 * Filling `templates/payslip.html`: a fixed sequence of literal `{{token}}`
 * replacements. Every token but `{{downloadButton}}` is replaced at all of
 * its occurrences; `{{downloadButton}}` only at its first. The HTML view
 * (routes/payslip.js) and the PDF view (routes/ppdf.js) differ in how they
 * print the optional scalars and in what replaces the download button.
 */
module Template {
  import opened Wrappers
  import opened Strings
  import opened JsValues
  import opened Helpers

  /** The placeholder `{{name}}` of the template. */
  function Placeholder(name: string): (t: string)
    ensures StartsWith(t, "{{") && |t| == |name| + 4
  {
    "{{" + name + "}}"
  }

  const DownloadButton: string := "downloadButton"

  /** A placeholder name and the text that replaces it. */
  type Binding = (string, string)

  /** The chain `.replace(/{{a}}/g, x).replace(/{{b}}/g, y)...`, in order. */
  function SubstituteAll(template: string, bindings: seq<Binding>): string
    decreases |bindings|
  {
    if |bindings| == 0 then template
    else SubstituteAll(ReplaceAll(template, Placeholder(bindings[0].0), bindings[0].1), bindings[1..])
  }

  /** `Number(payslip.netPay)`: `undefined` gives NaN. */
  function FieldNumber(v: Option<Value>): Option<int> {
    match v
    case None => None
    case Some(x) => ToNumber(x)
  }

  /** How a view prints `daysWorked`, `workHours` and `overtimeH`. */
  datatype OptionalStyle =
    | Raw          // routes/payslip.js passes the value itself: `undefined` prints as "undefined"
    | EmptyIfFalsy // routes/ppdf.js passes `value || ''`

  function OptionalText(v: Option<Value>, style: OptionalStyle): string {
    match style
    case Raw => FieldText(v)
    case EmptyIfFalsy => FieldTextOrEmpty(v)
  }

  /** The texts the ten all-occurrence replacements put in. */
  datatype Fields = Fields(
    name: string, month: string,
    daysWorked: string, workHours: string, overtimeH: string,
    netPay: string,
    allowanceHtml: string, deductionHtml: string,
    totalAllowance: string, totalDeduction: string)

  /** What a view puts in for each placeholder, from the payslip and its aggregation. */
  function FieldsOf(p: Record, s: Summary, style: OptionalStyle): Fields {
    Fields(
      FieldText(Get(p, "name")), FieldText(Get(p, "month")),
      OptionalText(Get(p, "daysWorked"), style),
      OptionalText(Get(p, "workHours"), style),
      OptionalText(Get(p, "overtimeH"), style),
      FormatNumber(FieldNumber(Get(p, "netPay"))),
      Concat(RowsHtml(s.allowances)), Concat(RowsHtml(s.deductions)),
      FormatAmount(s.totalAllowance), FormatAmount(s.totalDeduction))
  }

  /** The replacements in the order both routes apply them. */
  function Bindings(p: Record, s: Summary, style: OptionalStyle): seq<Binding> {
    BindingsOf(FieldsOf(p, s, style))
  }

  function BindingsOf(f: Fields): seq<Binding> {
    [ ("name", f.name), ("month", f.month),
      ("daysWorked", f.daysWorked), ("workHours", f.workHours), ("overtimeH", f.overtimeH),
      ("netPay", f.netPay),
      ("allowanceHtml", f.allowanceHtml), ("deductionHtml", f.deductionHtml),
      ("totalAllowance", f.totalAllowance), ("totalDeduction", f.totalDeduction) ]
  }

  /** The download link of routes/payslip.js, pointing at the PDF route for the same user and month. */
  function DownloadLink(userId: string, month: string): (link: string)
    ensures IsInfix("/ppdf/pdf?userId=" + userId + "&month=" + month, link)
  {
    var prefix := "<div class=\"download-button\"><a href=\"";
    var target := "/ppdf/pdf?userId=" + userId + "&month=" + month;
    var suffix := "\" target=\"_blank\">\U{1F4C4} PDF\U{3068}\U{3057}\U{3066}\U{30C0}\U{30A6}\U{30F3}\U{30ED}\U{30FC}\U{30C9}</a></div>";
    InfixOfConcat(prefix, target, suffix);
    prefix + target + suffix
  }

  /** `.replace('{{downloadButton}}', replacement)`: only the leftmost button is replaced. */
  function ReplaceButton(m: string, replacement: string): (html: string)
    ensures match IndexOf(m, Placeholder(DownloadButton))
            case None => html == m
            case Some(i) => i + |Placeholder(DownloadButton)| <= |m|
                            && html == m[..i] + replacement + m[i + |Placeholder(DownloadButton)|..]
  {
    var t := Placeholder(DownloadButton);
    if IndexOf(m, t).Some? then
      ReplaceFirstAtIndexOf(m, t, replacement); ReplaceFirst(m, t, replacement)
    else ReplaceFirst(m, t, replacement)
  }

  /**
   * The page of routes/ppdf.js: the scalars with `|| ''`, and the first
   * `{{downloadButton}}` removed while later ones are kept.
   */
  function RenderPdf(template: string, p: Record, s: Summary): (html: string)
    ensures var m := SubstituteAll(template, Bindings(p, s, EmptyIfFalsy));
            match IndexOf(m, Placeholder(DownloadButton))
            case None => html == m
            case Some(i) => i + |Placeholder(DownloadButton)| <= |m| && html == m[..i] + m[i + |Placeholder(DownloadButton)|..]
  {
    var m := SubstituteAll(template, Bindings(p, s, EmptyIfFalsy));
    var html := ReplaceButton(m, "");
    if IndexOf(m, Placeholder(DownloadButton)).Some? then
      var i := IndexOf(m, Placeholder(DownloadButton)).value;
      assert m[..i] + "" == m[..i];
      html
    else html
  }

  /**
   * The page of routes/payslip.js: the scalars as they are, and the first
   * `{{downloadButton}}` replaced by the download link while later ones are kept.
   */
  function RenderView(template: string, p: Record, s: Summary, userId: string, month: string): (html: string)
    ensures var m := SubstituteAll(template, Bindings(p, s, Raw));
            match IndexOf(m, Placeholder(DownloadButton))
            case None => html == m
            case Some(i) => i + |Placeholder(DownloadButton)| <= |m| && html == m[..i] + DownloadLink(userId, month) + m[i + |Placeholder(DownloadButton)|..]
  {
    ReplaceButton(SubstituteAll(template, Bindings(p, s, Raw)), DownloadLink(userId, month))
  }

  /** A string without `{{` contains no placeholder. */
  lemma {:induction false} NoBracesNoPlaceholder(s: string, t: string)
    requires StartsWith(t, "{{")
    requires !Contains(s, "{{")
    ensures !Contains(s, t)
    decreases |s|
  {
    if |s| > 0 {
      NoBracesNoPlaceholder(s[1..], t);
    }
  }

  /** Substitution leaves text without placeholders alone: unmatched text stays as it is. */
  lemma {:induction false} SubstituteAllPlainText(template: string, bindings: seq<Binding>)
    requires !Contains(template, "{{")
    ensures SubstituteAll(template, bindings) == template
    decreases |bindings|
  {
    if |bindings| > 0 {
      NoBracesNoPlaceholder(template, Placeholder(bindings[0].0));
      SubstituteAllPlainText(template, bindings[1..]);
    }
  }

  /** A template without placeholders comes out of both views unchanged. */
  lemma PlainTemplateUnchanged(template: string, p: Record, s: Summary, userId: string, month: string)
    requires !Contains(template, "{{")
    ensures RenderPdf(template, p, s) == template
    ensures RenderView(template, p, s, userId, month) == template
  {
    SubstituteAllPlainText(template, Bindings(p, s, EmptyIfFalsy));
    SubstituteAllPlainText(template, Bindings(p, s, Raw));
    NoBracesNoPlaceholder(template, Placeholder(DownloadButton));
  }

  /**
   * When `daysWorked`, `workHours` and `overtimeH` are present and truthy the
   * two views fill every placeholder alike; they then differ only in what
   * replaces the first download button.
   */
  lemma ViewsAgreeOnPresentScalars(template: string, p: Record, s: Summary)
    requires Get(p, "daysWorked").Some? && Truthy(Get(p, "daysWorked").value)
    requires Get(p, "workHours").Some? && Truthy(Get(p, "workHours").value)
    requires Get(p, "overtimeH").Some? && Truthy(Get(p, "overtimeH").value)
    ensures SubstituteAll(template, Bindings(p, s, EmptyIfFalsy)) == SubstituteAll(template, Bindings(p, s, Raw))
  {
  }

  /** A placeholder holding a character that `s` lacks does not occur in `s`. */
  lemma {:induction false} MissingCharNoOccurrence(s: string, t: string, c: char)
    requires c in t && c !in s
    ensures !Contains(s, t)
    decreases |s|
  {
    if |s| > 0 {
      MissingCharNoOccurrence(s[1..], t, c);
    }
  }

  /**
   * The chain split at step `i`: the replacements before it, then every
   * occurrence of the `i`-th placeholder in the text built so far replaced
   * by its binding, then the replacements after it.
   */
  lemma {:induction false} SubstituteAllAt(template: string, bindings: seq<Binding>, i: nat)
    requires i < |bindings|
    ensures SubstituteAll(template, bindings)
            == SubstituteAll(ReplaceAll(SubstituteAll(template, bindings[..i]), Placeholder(bindings[i].0), bindings[i].1),
                             bindings[i + 1..])
    decreases i
  {
    if i == 0 {
      assert bindings[..0] == [];
    } else {
      var first := ReplaceAll(template, Placeholder(bindings[0].0), bindings[0].1);
      SubstituteAllAt(first, bindings[1..], i - 1);
      assert bindings[..i][0] == bindings[0] && bindings[..i][1..] == bindings[1..][..i - 1];
      assert bindings[1..][i - 1] == bindings[i] && bindings[1..][i..] == bindings[i + 1..];
    }
  }

  /** `daysWorked`, `workHours` and `overtimeH`: the scalars the two views print differently. */
  predicate OptionalScalar(k: string) {
    k == "daysWorked" || k == "workHours" || k == "overtimeH"
  }

  /** The step of the replacement chain that fills an optional scalar. */
  function ScalarStep(k: string): (i: nat)
    requires OptionalScalar(k)
    ensures forall f :: i < |BindingsOf(f)| && BindingsOf(f)[i].0 == k
  {
    if k == "daysWorked" then 2 else if k == "workHours" then 3 else 4
  }

  /**
   * A missing optional scalar, in any template: at its step of the chain
   * every occurrence of its placeholder is replaced by the empty string in
   * the PDF view and by the text `undefined` in the HTML view.
   */
  lemma MissingScalarRendering(template: string, p: Record, s: Summary, k: string)
    requires OptionalScalar(k) && Get(p, k).None?
    ensures var i := ScalarStep(k);
            var pdf, view := Bindings(p, s, EmptyIfFalsy), Bindings(p, s, Raw);
            i < |pdf| && i < |view|
            && SubstituteAll(template, pdf)
               == SubstituteAll(ReplaceAll(SubstituteAll(template, pdf[..i]), Placeholder(k), ""), pdf[i + 1..])
            && SubstituteAll(template, view)
               == SubstituteAll(ReplaceAll(SubstituteAll(template, view[..i]), Placeholder(k), "undefined"), view[i + 1..])
  {
    MissingScalarBindings(p, s, k);
    SubstituteAllAt(template, Bindings(p, s, EmptyIfFalsy), ScalarStep(k));
    SubstituteAllAt(template, Bindings(p, s, Raw), ScalarStep(k));
  }

  /** The text a view filled in for an optional scalar. */
  function ScalarField(f: Fields, k: string): string
    requires OptionalScalar(k)
  {
    if k == "daysWorked" then f.daysWorked else if k == "workHours" then f.workHours else f.overtimeH
  }

  /** The binding of an absent optional scalar: empty in the PDF view, `undefined` in the HTML view. */
  lemma MissingScalarBindings(p: Record, s: Summary, k: string)
    requires OptionalScalar(k) && Get(p, k).None?
    ensures ScalarStep(k) < |Bindings(p, s, EmptyIfFalsy)| && Bindings(p, s, EmptyIfFalsy)[ScalarStep(k)] == (k, "")
    ensures ScalarStep(k) < |Bindings(p, s, Raw)| && Bindings(p, s, Raw)[ScalarStep(k)] == (k, "undefined")
  {
    var pdf, view := FieldsOf(p, s, EmptyIfFalsy), FieldsOf(p, s, Raw);
    ScalarBinding(pdf, k);
    ScalarBinding(view, k);
    ScalarFieldOf(p, s, EmptyIfFalsy, k);
    ScalarFieldOf(p, s, Raw, k);
  }

  /** An optional scalar's step binds its name to the text filled in for it. */
  lemma ScalarBinding(f: Fields, k: string)
    requires OptionalScalar(k)
    ensures ScalarStep(k) < |BindingsOf(f)| && BindingsOf(f)[ScalarStep(k)] == (k, ScalarField(f, k))
  {
  }

  /** The text filled in for an optional scalar is the view's print of the record's field. */
  lemma ScalarFieldOf(p: Record, s: Summary, style: OptionalStyle, k: string)
    requires OptionalScalar(k)
    ensures ScalarField(FieldsOf(p, s, style), k) == OptionalText(Get(p, k), style)
  {
  }

  /**
   * The whole of both pages for the template `{{daysWorked}}` without that
   * field: nothing in the PDF, `undefined` in the HTML view.
   */
  lemma MissingDaysWorkedExample(p: Record, s: Summary, userId: string, month: string)
    requires Get(p, "daysWorked").None?
    ensures RenderPdf(Placeholder("daysWorked"), p, s) == ""
    ensures RenderView(Placeholder("daysWorked"), p, s, userId, month) == "undefined"
  {
    MissingScalarPdf(p, s);
    MissingScalarView(p, s, userId, month);
  }

  lemma MissingScalarPdf(p: Record, s: Summary)
    requires Get(p, "daysWorked").None?
    ensures RenderPdf(Placeholder("daysWorked"), p, s) == ""
  {
    assert FieldsOf(p, s, EmptyIfFalsy).daysWorked == "";
    DaysWorkedOnly(FieldsOf(p, s, EmptyIfFalsy));
    NoDownloadButton(Placeholder("daysWorked"), p, s, "", "", "");
  }

  lemma MissingScalarView(p: Record, s: Summary, userId: string, month: string)
    requires Get(p, "daysWorked").None?
    ensures RenderView(Placeholder("daysWorked"), p, s, userId, month) == "undefined"
  {
    var f := FieldsOf(p, s, Raw);
    assert f.daysWorked == "undefined";
    UndefinedHasNoBraces();
    DaysWorkedOnly(f);
    NoDownloadButton(Placeholder("daysWorked"), p, s, "undefined", userId, month);
  }

  /** When filling leaves no `{{`, neither view has a download button to replace. */
  lemma NoDownloadButton(template: string, p: Record, s: Summary, m: string, userId: string, month: string)
    requires !Contains(m, "{{")
    ensures SubstituteAll(template, Bindings(p, s, EmptyIfFalsy)) == m ==> RenderPdf(template, p, s) == m
    ensures SubstituteAll(template, Bindings(p, s, Raw)) == m ==> RenderView(template, p, s, userId, month) == m
  {
    NoBracesNoPlaceholder(m, Placeholder(DownloadButton));
  }

  lemma UndefinedHasNoBraces()
    ensures !Contains("undefined", "{{")
  {
    MissingCharNoOccurrence("undefined", "{{", '{');
  }

  /** Filling the bare `{{daysWorked}}` placeholder yields exactly its binding. */
  lemma DaysWorkedOnly(f: Fields)
    requires !Contains(f.daysWorked, "{{")
    ensures SubstituteAll(Placeholder("daysWorked"), BindingsOf(f)) == f.daysWorked
  {
    var t, b, text := Placeholder("daysWorked"), BindingsOf(f), f.daysWorked;
    EarlierPlaceholdersAbsent();
    assert SubstituteAll(t, b) == SubstituteAll(t, b[1..]);
    assert b[1..][0] == b[1] && b[1..][1..] == b[2..];
    assert SubstituteAll(t, b[1..]) == SubstituteAll(t, b[2..]);
    WholePlaceholder(t, b[2..], text);
  }

  /** Neither `{{name}}` nor `{{month}}` occurs in `{{daysWorked}}`: both hold an `n`. */
  lemma EarlierPlaceholdersAbsent()
    ensures !Contains(Placeholder("daysWorked"), Placeholder("name"))
    ensures !Contains(Placeholder("daysWorked"), Placeholder("month"))
  {
    DaysWorkedLacksN();
    assert Placeholder("name")[2] == 'n';
    MissingCharNoOccurrence(Placeholder("daysWorked"), Placeholder("name"), 'n');
    assert Placeholder("month")[4] == 'n';
    MissingCharNoOccurrence(Placeholder("daysWorked"), Placeholder("month"), 'n');
  }

  /** `{{daysWorked}}` holds no `n`. */
  lemma DaysWorkedLacksN()
    ensures 'n' !in Placeholder("daysWorked")
  {
    var t := Placeholder("daysWorked");
    assert t == "{{daysWorked}}";
    assert forall k :: 0 <= k < |t| ==> t[k] != 'n';
  }

  /** Filling a template that is exactly the first binding's placeholder. */
  lemma WholePlaceholder(t: string, b: seq<Binding>, text: string)
    requires |b| >= 1 && t == Placeholder(b[0].0) && b[0].1 == text
    requires !Contains(text, "{{")
    ensures SubstituteAll(t, b) == text
  {
    assert StartsWith(t, t) && t[|t|..] == "";
    assert ReplaceAll(t, t, text) == text + ReplaceAll(t[|t|..], t, text);
    assert ReplaceAll(t, t, text) == text;
    SubstituteAllPlainText(text, b[1..]);
  }
}
