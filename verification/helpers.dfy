/**
 * `processPayslipData` of utils/helpers.js: one pass over a payslip record
 * that keeps the non-zero `allowance_*` and `deduction_*` fields, labels each
 * with its display name, and sums each kind into a total.
 */
module Helpers {
  import opened Wrappers
  import opened Strings
  import opened JsValues

  const AllowancePrefix: string := "allowance_"
  const DeductionPrefix: string := "deduction_"

  /** The display-name map (`display-names.json`): raw field key to label. */
  type DisplayNames = map<string, string>

  /** One table row: the field it comes from, its caption (display label) and its amount. */
  datatype Line = Line(key: string, caption: string, amount: int)

  /** The result of `processPayslipData`, with the rows before HTML formatting. */
  datatype Summary = Summary(allowances: seq<Line>, deductions: seq<Line>, totalAllowance: int, totalDeduction: int)

  /** `displayNames[key] || key`: the label, or the raw key when there is no non-empty label. */
  function Label(key: string, names: DisplayNames): string {
    if key in names && names[key] != "" then names[key] else key
  }

  /** `key.startsWith(prefix) && Number(value)`: the field feeds the rows and total of `prefix`. */
  predicate Kept(f: (string, Value), prefix: string) {
    StartsWith(f.0, prefix) && ToNumber(f.1).Some? && ToNumber(f.1).value != 0
  }

  /** No key starts with both prefixes, so no field feeds both totals. */
  lemma PrefixesExclusive(f: (string, Value))
    ensures !(Kept(f, AllowancePrefix) && Kept(f, DeductionPrefix))
  {
    if StartsWith(f.0, AllowancePrefix) {
      assert f.0[0] == 'a';
    }
  }

  /** The row of a kept field. */
  function LineOf(f: (string, Value), names: DisplayNames): Line
    requires ToNumber(f.1).Some?
  {
    Line(f.0, Label(f.0, names), ToNumber(f.1).value)
  }

  /** The sum of the amounts of some rows. */
  function Total(lines: seq<Line>): int {
    if |lines| == 0 then 0 else Total(lines[..|lines| - 1]) + lines[|lines| - 1].amount
  }

  /** The row a field adds to the rows of `prefix`: one when it is kept, none otherwise. */
  function KeptRow(f: (string, Value), prefix: string, names: DisplayNames): seq<Line> {
    if Kept(f, prefix) then [LineOf(f, names)] else []
  }

  /** What a field adds to the total of `prefix`: its `Number` value when it is kept. */
  function Contribution(f: (string, Value), prefix: string): int {
    if Kept(f, prefix) then ToNumber(f.1).value else 0
  }

  /** One iteration of the `for (const key in payslip)` loop. */
  function Step(s: Summary, f: (string, Value), names: DisplayNames): Summary {
    Summary(
      s.allowances + KeptRow(f, AllowancePrefix, names),
      s.deductions + KeptRow(f, DeductionPrefix, names),
      s.totalAllowance + Contribution(f, AllowancePrefix),
      s.totalDeduction + Contribution(f, DeductionPrefix))
  }

  const Empty: Summary := Summary([], [], 0, 0)

  /** Rows that all carry `prefix` and a non-zero amount, with `total` their sum. */
  ghost predicate RowsOf(lines: seq<Line>, total: int, prefix: string) {
    && total == Total(lines)
    && forall l :: l in lines ==> StartsWith(l.key, prefix) && l.amount != 0
  }

  /** The loop invariant of `processPayslipData`. */
  ghost predicate Consistent(s: Summary) {
    RowsOf(s.allowances, s.totalAllowance, AllowancePrefix) && RowsOf(s.deductions, s.totalDeduction, DeductionPrefix)
  }

  /** The kept row of a field adds its contribution to the total of the rows. */
  lemma TotalAppendKeptRow(lines: seq<Line>, f: (string, Value), prefix: string, names: DisplayNames)
    ensures Total(lines + KeptRow(f, prefix, names)) == Total(lines) + Contribution(f, prefix)
  {
    if Kept(f, prefix) {
      var l := LineOf(f, names);
      assert (lines + [l])[..|lines|] == lines;
    } else {
      assert lines + [] == lines;
    }
  }

  /** Adding the kept row of a field and its contribution keeps rows and total in step. */
  lemma AppendKeptRow(lines: seq<Line>, total: int, f: (string, Value), prefix: string, names: DisplayNames)
    requires RowsOf(lines, total, prefix)
    ensures RowsOf(lines + KeptRow(f, prefix, names), total + Contribution(f, prefix), prefix)
  {
    TotalAppendKeptRow(lines, f, prefix, names);
  }

  /** One loop iteration keeps the invariant and adds at most one row. */
  lemma StepConsistent(s: Summary, f: (string, Value), names: DisplayNames)
    requires Consistent(s)
    ensures Consistent(Step(s, f, names))
    ensures |Step(s, f, names).allowances| + |Step(s, f, names).deductions| <= |s.allowances| + |s.deductions| + 1
  {
    PrefixesExclusive(f);
    AppendKeptRow(s.allowances, s.totalAllowance, f, AllowancePrefix, names);
    AppendKeptRow(s.deductions, s.totalDeduction, f, DeductionPrefix, names);
  }

  /**
   * `processPayslipData(payslip, displayNames)`: every row carries the prefix
   * of its list and a non-zero amount, and each total is the sum of its rows.
   * `for (const key in payslip)` visits each property once. Here that is each
   * entry of the record. A JavaScript object holds a key once, as every record
   * the import builds does (`CsvImport.PayslipOf` ensures `UniqueKeys`), so
   * the entries are the properties and `Get` reads the value aggregated here.
   */
  function ProcessPayslip(record: Record, names: DisplayNames): (s: Summary)
    ensures s.totalAllowance == Total(s.allowances)
    ensures s.totalDeduction == Total(s.deductions)
    ensures forall l :: l in s.allowances ==> StartsWith(l.key, AllowancePrefix) && l.amount != 0
    ensures forall l :: l in s.deductions ==> StartsWith(l.key, DeductionPrefix) && l.amount != 0
    ensures |s.allowances| + |s.deductions| <= |record|
    decreases |record|
  {
    if |record| == 0 then Empty
    else
      var prev := ProcessPayslip(record[..|record| - 1], names);
      StepConsistent(prev, record[|record| - 1], names);
      Step(prev, record[|record| - 1], names)
  }

  /** The rows `prefix` keeps, one per kept field in field order: a single-prefix view of the loop. */
  function KeptLines(record: Record, prefix: string, names: DisplayNames): seq<Line>
    decreases |record|
  {
    if |record| == 0 then []
    else
      var n := |record| - 1;
      KeptLines(record[..n], prefix, names) + KeptRow(record[n], prefix, names)
  }

  /** The combined pass is the two single-prefix passes side by side. */
  lemma {:induction false} ProcessPayslipIsKeptLines(record: Record, names: DisplayNames)
    ensures ProcessPayslip(record, names).allowances == KeptLines(record, AllowancePrefix, names)
    ensures ProcessPayslip(record, names).deductions == KeptLines(record, DeductionPrefix, names)
    decreases |record|
  {
    if |record| > 0 {
      ProcessPayslipIsKeptLines(record[..|record| - 1], names);
    }
  }

  /** The positions of the fields kept for `prefix`, in increasing order. */
  function KeptPositions(record: Record, prefix: string): (pos: seq<nat>)
    ensures forall k :: 0 <= k < |pos| ==> pos[k] < |record| && Kept(record[pos[k]], prefix)
    ensures forall k, l :: 0 <= k < l < |pos| ==> pos[k] < pos[l]
    ensures forall i :: 0 <= i < |record| && Kept(record[i], prefix) ==> i in pos
    decreases |record|
  {
    if |record| == 0 then []
    else
      var n := |record| - 1;
      var prev := KeptPositions(record[..n], prefix);
      assert forall i :: 0 <= i < n ==> record[..n][i] == record[i];
      if Kept(record[n], prefix) then prev + [n] else prev
  }

  /** Row `k` is the row of the field at position `pos[k]`, for every `k`. */
  predicate RowsAt(record: Record, ls: seq<Line>, pos: seq<nat>, names: DisplayNames) {
    |ls| == |pos| &&
    forall k :: 0 <= k < |pos| ==>
      pos[k] < |record| && ToNumber(record[pos[k]].1).Some? && ls[k] == LineOf(record[pos[k]], names)
  }

  /** One more field adds its row exactly when it adds its position. */
  lemma RowsAtSnoc(record: Record, ls: seq<Line>, pos: seq<nat>, prefix: string, names: DisplayNames)
    requires |record| > 0
    requires RowsAt(record[..|record| - 1], ls, pos, names)
    ensures var n := |record| - 1;
            RowsAt(record, ls + KeptRow(record[n], prefix, names), pos + (if Kept(record[n], prefix) then [n] else []), names)
  {
    var n := |record| - 1;
    assert forall k :: 0 <= k < |pos| ==> record[..n][pos[k]] == record[pos[k]];
    if !Kept(record[n], prefix) {
      assert ls + [] == ls && pos + [] == pos;
    }
  }

  /** The kept rows of `prefix` are the rows of the fields at the kept positions. */
  lemma {:induction false} KeptLinesAtKeptPositions(record: Record, prefix: string, names: DisplayNames)
    ensures RowsAt(record, KeptLines(record, prefix, names), KeptPositions(record, prefix), names)
    decreases |record|
  {
    if |record| > 0 {
      var n := |record| - 1;
      var ls, pos := KeptLines(record[..n], prefix, names), KeptPositions(record[..n], prefix);
      KeptLinesAtKeptPositions(record[..n], prefix, names);
      RowsAtSnoc(record, ls, pos, prefix, names);
      assert KeptLines(record, prefix, names) == ls + KeptRow(record[n], prefix, names);
      assert KeptPositions(record, prefix) == pos + (if Kept(record[n], prefix) then [n] else []);
    }
  }

  /**
   * Exactly one row per kept field, in field order: the allowance rows are
   * the rows of the fields at the allowance positions, and likewise for
   * deductions.
   */
  lemma RowsFollowKeptFields(record: Record, names: DisplayNames)
    ensures var s, pa := ProcessPayslip(record, names), KeptPositions(record, AllowancePrefix);
            |s.allowances| == |pa| &&
            forall k :: 0 <= k < |pa| ==> ToNumber(record[pa[k]].1).Some? && s.allowances[k] == LineOf(record[pa[k]], names)
    ensures var s, pd := ProcessPayslip(record, names), KeptPositions(record, DeductionPrefix);
            |s.deductions| == |pd| &&
            forall k :: 0 <= k < |pd| ==> ToNumber(record[pd[k]].1).Some? && s.deductions[k] == LineOf(record[pd[k]], names)
  {
    ProcessPayslipIsKeptLines(record, names);
    KeptLinesAtKeptPositions(record, AllowancePrefix, names);
    KeptLinesAtKeptPositions(record, DeductionPrefix, names);
  }

  /** The total of the kept fields of `prefix`, summed from the front: a reference for the running totals. */
  function SumKept(record: Record, prefix: string): int
    decreases |record|
  {
    if |record| == 0 then 0
    else Contribution(record[0], prefix) + SumKept(record[1..], prefix)
  }

  /** Adding a field at the end adds its amount when it is kept. */
  lemma {:induction false} SumKeptSnoc(record: Record, f: (string, Value), prefix: string)
    ensures SumKept(record + [f], prefix) == SumKept(record, prefix) + Contribution(f, prefix)
    decreases |record|
  {
    if |record| == 0 {
      assert [f][1..] == [];
    } else {
      assert (record + [f])[1..] == record[1..] + [f];
      SumKeptSnoc(record[1..], f, prefix);
    }
  }

  /** The kept rows of `prefix` add up to the front-to-back sum of the kept fields. */
  lemma {:induction false} TotalOfKeptLines(record: Record, prefix: string, names: DisplayNames)
    ensures Total(KeptLines(record, prefix, names)) == SumKept(record, prefix)
    decreases |record|
  {
    if |record| > 0 {
      var n := |record| - 1;
      TotalOfKeptLines(record[..n], prefix, names);
      TotalAppendKeptRow(KeptLines(record[..n], prefix, names), record[n], prefix, names);
      assert record == record[..n] + [record[n]];
      SumKeptSnoc(record[..n], record[n], prefix);
    }
  }

  /** Each total is the sum of the numeric values of exactly the kept fields of its kind. */
  lemma TotalsAreSumsOfKeptFields(record: Record, names: DisplayNames)
    ensures ProcessPayslip(record, names).totalAllowance == SumKept(record, AllowancePrefix)
    ensures ProcessPayslip(record, names).totalDeduction == SumKept(record, DeductionPrefix)
  {
    ProcessPayslipIsKeptLines(record, names);
    TotalOfKeptLines(record, AllowancePrefix, names);
    TotalOfKeptLines(record, DeductionPrefix, names);
  }

  /** A field kept for neither prefix does not change the kept rows of `prefix`. */
  lemma {:induction false} KeptLinesSkip(pre: Record, f: (string, Value), post: Record, prefix: string, names: DisplayNames)
    requires !Kept(f, prefix)
    ensures KeptLines(pre + [f] + post, prefix, names) == KeptLines(pre + post, prefix, names)
    decreases |post|
  {
    if |post| == 0 {
      assert pre + [f] + post == pre + [f];
      assert (pre + [f])[..|pre|] == pre;
      assert pre + post == pre;
    } else {
      var n := |post| - 1;
      KeptLinesSkip(pre, f, post[..n], prefix, names);
      assert (pre + [f] + post)[..|pre + [f] + post| - 1] == pre + [f] + post[..n];
      assert (pre + post)[..|pre + post| - 1] == pre + post[..n];
    }
  }

  /**
   * A field that is kept for neither prefix (another key, or a value whose
   * `Number` is 0 or NaN) can be removed without changing rows or totals.
   */
  lemma SkippedFieldIsIgnored(pre: Record, f: (string, Value), post: Record, names: DisplayNames)
    requires !Kept(f, AllowancePrefix) && !Kept(f, DeductionPrefix)
    ensures ProcessPayslip(pre + [f] + post, names) == ProcessPayslip(pre + post, names)
  {
    ProcessPayslipIsKeptLines(pre + [f] + post, names);
    ProcessPayslipIsKeptLines(pre + post, names);
    KeptLinesSkip(pre, f, post, AllowancePrefix, names);
    KeptLinesSkip(pre, f, post, DeductionPrefix, names);
  }

  /** A record with no kept field gives no rows and two zero totals. */
  lemma NothingKeptGivesEmpty(record: Record, names: DisplayNames)
    requires forall i :: 0 <= i < |record| ==> !Kept(record[i], AllowancePrefix) && !Kept(record[i], DeductionPrefix)
    ensures ProcessPayslip(record, names) == Summary([], [], 0, 0)
  {
    RowsFollowKeptFields(record, names);
  }

  // ----- HTML rows -----

  /** `<tr><th>label</th><td>¥amount</td></tr>` with the amount formatted by `toLocaleString`. */
  function RowHtml(l: Line): string {
    "<tr><th>" + l.caption + "</th><td>\U{00A5}" + FormatAmount(l.amount) + "</td></tr>"
  }

  /** The HTML rows of a list of rows. */
  function RowsHtml(lines: seq<Line>): (rows: seq<string>)
    ensures |rows| == |lines|
    ensures forall i :: 0 <= i < |lines| ==> rows[i] == RowHtml(lines[i])
  {
    seq(|lines|, i requires 0 <= i < |lines| => RowHtml(lines[i]))
  }

  /** `rows.join('')`. */
  function Concat(rows: seq<string>): string {
    if |rows| == 0 then "" else Concat(rows[..|rows| - 1]) + rows[|rows| - 1]
  }

  /** Joining two lists of fragments one after the other is joining their concatenation. */
  lemma {:induction false} ConcatAppend(a: seq<string>, b: seq<string>)
    ensures Concat(a + b) == Concat(a) + Concat(b)
    decreases |b|
  {
    if |b| == 0 {
      assert a + b == a;
    } else {
      var n := |b| - 1;
      var ab := a + b;
      ConcatAppend(a, b[..n]);
      assert ab[..|ab| - 1] == a + b[..n];
      assert ab[|ab| - 1] == b[n];
      assert Concat(ab) == Concat(a + b[..n]) + b[n];
      assert Concat(b) == Concat(b[..n]) + b[n];
      AppendAssociative(Concat(a), Concat(b[..n]), b[n]);
    }
  }

  /**
   * An amount stored as text with a thousands separator, such as "5,000",
   * is not a number to `Number`, so it adds no row and nothing to a total.
   */
  lemma SeparatedTextIsSkipped(key: string, t: string)
    ensures Contains(t, ",") ==> !Kept((key, Text(t)), AllowancePrefix) && !Kept((key, Text(t)), DeductionPrefix)
  {
    if Contains(t, ",") {
      CommaTextIsNaN(t);
    }
  }
}
