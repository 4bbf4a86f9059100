/**
 * The offline import convert-csv.js: the first line of the sheet holds the
 * display labels, the second the field keys, and every later row becomes a
 * payslip record filed under its user id. Decoding Shift_JIS and splitting
 * rows into cells happen outside the model: rows arrive as cell lists.
 */
module CsvImport {
  import opened Wrappers
  import opened Strings
  import opened JsValues
  import opened Accumulate
  import Helpers

  // ----- the two header lines -----

  /** `keys.map(k => k.trim())`: the keys the row objects are built with. */
  function HeaderKeys(keysLine: string): (hs: seq<string>)
    ensures |hs| == |Split(keysLine, ",")|
    ensures forall i :: 0 <= i < |hs| ==> hs[i] == Trim(Split(keysLine, ",")[i])
  {
    var keys := Split(keysLine, ",");
    seq(|keys|, i requires 0 <= i < |keys| => Trim(keys[i]))
  }

  /** `key && labels[i]`: column `i` has a non-empty key and a non-empty label. */
  predicate Labelled(keys: seq<string>, labels: seq<string>, i: int) {
    0 <= i < |keys| && keys[i] != "" && i < |labels| && labels[i] != ""
  }

  /** The assignments `displayNames[key.trim()] = labels[i].trim()` of the `keys.forEach` loop. */
  function LabelWrites(keys: seq<string>, labels: seq<string>): (ws: seq<(string, Option<string>)>)
    ensures |ws| == |keys|
    ensures forall i :: 0 <= i < |keys| ==> ws[i].0 == Trim(keys[i])
    ensures forall i :: 0 <= i < |keys| ==> ws[i].1 == if Labelled(keys, labels, i) then Some(Trim(labels[i])) else None
  {
    seq(|keys|, i requires 0 <= i < |keys| =>
      (Trim(keys[i]), if Labelled(keys, labels, i) then Some(Trim(labels[i])) else None))
  }

  /** `displayNames`, from the columns' keys and labels. */
  function NamesOf(keys: seq<string>, labels: seq<string>): map<string, string> {
    AssignMap(LabelWrites(keys, labels))
  }

  /** `displayNames`, from the label line and the key line. */
  function DisplayNamesOf(labelsLine: string, keysLine: string): map<string, string> {
    NamesOf(Split(keysLine, ","), Split(labelsLine, ","))
  }

  /**
   * The display name of a labelled column's trimmed key is the column's
   * trimmed label, unless a later labelled column has the same trimmed key.
   */
  lemma DisplayNameOfColumn(keys: seq<string>, labels: seq<string>, i: nat)
    requires Labelled(keys, labels, i)
    requires forall j :: i < j < |keys| && Labelled(keys, labels, j) ==> Trim(keys[j]) != Trim(keys[i])
    ensures Trim(keys[i]) in NamesOf(keys, labels) && NamesOf(keys, labels)[Trim(keys[i])] == Trim(labels[i])
  {
    var ws := LabelWrites(keys, labels);
    forall j | i < j < |ws| ensures !Assigns(ws, j, ws[i].0) {
      if Labelled(keys, labels, j) {
        assert Trim(keys[j]) != Trim(keys[i]);
      }
    }
    LastMapAssignmentWins(ws, i);
  }

  /** Every display name comes from a labelled column with that trimmed key. */
  lemma DisplayNamesFromColumns(keys: seq<string>, labels: seq<string>, k: string)
    requires k in NamesOf(keys, labels)
    ensures exists i :: Labelled(keys, labels, i) && Trim(keys[i]) == k
  {
    var ws := LabelWrites(keys, labels);
    assert Assigned(ws, k);
    var i :| Assigns(ws, i, k);
    assert ws[i].1.Some? && ws[i].0 == k;
    assert Labelled(keys, labels, i);
  }

  // ----- one data row -----

  /** `k.trim().toLowerCase() === 'userid'`. */
  predicate IsUserIdKey(k: string) {
    ToLower(Trim(k)) == "userid"
  }

  /** The user-id test on each key of a row, in key order. */
  function UserIdFlags(row: Entries<string>): (flags: seq<bool>)
    ensures |flags| == |row|
    ensures forall i :: 0 <= i < |row| ==> flags[i] == IsUserIdKey(row[i].0)
  {
    seq(|row|, i requires 0 <= i < |row| => IsUserIdKey(row[i].0))
  }

  /** `cell?.trim()` followed by `if (!userId) return`: an absent or blank cell skips the row. */
  function TrimmedId(cell: Option<string>): (u: Option<string>)
    ensures u.Some? ==> u.value != "" && cell.Some? && u.value == Trim(cell.value)
    ensures u.None? <==> cell.None? || Trim(cell.value) == ""
  {
    if cell.None? || Trim(cell.value) == "" then None else Some(Trim(cell.value))
  }

  /**
   * `row[Object.keys(row).find(...)]?.trim()`, with `None` for a row the
   * import skips. When no key is a user-id key, `find` gives `undefined` and
   * the row is read at the property named "undefined".
   */
  function UserIdOf(row: Entries<string>): (u: Option<string>)
    ensures u.Some? ==> u.value != ""
    ensures (forall i :: 0 <= i < |row| ==> !IsUserIdKey(row[i].0)) ==> u == TrimmedId(Get(row, "undefined"))
  {
    match FirstTrue(UserIdFlags(row))
    case None => TrimmedId(Get(row, "undefined"))
    case Some(i) => TrimmedId(Get(row, row[i].0))
  }

  /** The user id is the trimmed cell of the first user-id column; an empty one skips the row. */
  lemma UserIdIsFirstColumn(row: Entries<string>, i: nat)
    requires i < |row| && IsUserIdKey(row[i].0)
    requires forall j :: 0 <= j < i ==> !IsUserIdKey(row[j].0)
    ensures UserIdOf(row) == if Trim(row[i].1) == "" then None else Some(Trim(row[i].1))
  {
    var flags := UserIdFlags(row);
    assert flags[i];
    var r := FirstTrue(flags);
    assert r.Some?;
    assert r.value == i;
    forall j | 0 <= j < i ensures row[j].0 != row[i].0 {
      assert !flags[j];
    }
    GetFirstEntry(row, i);
  }

  /**
   * `if (!isNaN(value.replace(/,/g, ''))) value = Number(value.replace(/,/g, ''))`:
   * a cell that is a number once its commas are removed is stored as that number.
   */
  function ConvertCell(cell: string): (v: Value)
    ensures v.Num? <==> ToNumber(Text(RemoveCommas(cell))).Some?
    ensures v.Num? ==> ToNumber(Text(RemoveCommas(cell))) == Some(v.number)
    ensures v.Num? || v == Text(cell)
  {
    match ToNumber(Text(RemoveCommas(cell)))
    case Some(n) => Num(n)
    case None => Text(cell)
  }

  /** The assignments `payslip[key.trim()] = value` of the `for (const key in row)` loop; empty cells assign nothing. */
  function CellWrites(row: Entries<string>): (ws: seq<(string, Option<Value>)>)
    ensures |ws| == |row|
    ensures forall i :: 0 <= i < |row| ==> ws[i].0 == Trim(row[i].0)
    ensures forall i :: 0 <= i < |row| ==> ws[i].1 == if row[i].1 == "" then None else Some(ConvertCell(row[i].1))
  {
    seq(|row|, i requires 0 <= i < |row| =>
      (Trim(row[i].0), if row[i].1 == "" then None else Some(ConvertCell(row[i].1))))
  }

  /** The payslip record of one row. */
  function PayslipOf(row: Entries<string>): (p: Record)
    ensures UniqueKeys(p)
  {
    AssignAll(CellWrites(row))
  }

  /** A payslip field exists exactly when some non-empty cell has that trimmed key. */
  lemma PayslipFieldPresence(row: Entries<string>, key: string)
    ensures Get(PayslipOf(row), key).Some? <==> exists i :: 0 <= i < |row| && row[i].1 != "" && Trim(row[i].0) == key
  {
    var ws := CellWrites(row);
    AssignedKeys(ws, key);
    if Assigned(ws, key) {
      var i :| Assigns(ws, i, key);
      assert row[i].1 != "" && Trim(row[i].0) == key;
    }
    if exists i :: 0 <= i < |row| && row[i].1 != "" && Trim(row[i].0) == key {
      var i :| 0 <= i < |row| && row[i].1 != "" && Trim(row[i].0) == key;
      assert Assigns(ws, i, key);
    }
  }

  /** A payslip field holds the converted value of the last non-empty cell with that trimmed key. */
  lemma PayslipFieldValue(row: Entries<string>, i: nat)
    requires i < |row| && row[i].1 != ""
    requires forall j :: i < j < |row| && row[j].1 != "" ==> Trim(row[j].0) != Trim(row[i].0)
    ensures Get(PayslipOf(row), Trim(row[i].0)) == Some(ConvertCell(row[i].1))
  {
    var ws := CellWrites(row);
    forall j | i < j < |ws| ensures !Assigns(ws, j, ws[i].0) {
      if row[j].1 != "" {
        assert Trim(row[j].0) != Trim(row[i].0);
      }
    }
    LastAssignmentWins(ws, i);
  }

  // ----- the whole sheet -----

  /**
   * The key csv-parser (without `strict`) gives cell `i`: its column's
   * header key, or `_i` for a cell past the last header.
   */
  function CellKey(headers: seq<string>, i: nat): (k: string)
    ensures i < |headers| ==> k == headers[i]
    ensures i >= |headers| ==> |k| > 0 && k[0] == '_'
  {
    if i < |headers| then headers[i] else "_" + DecimalString(i)
  }

  /** The assignments `row[key] = cell`, one per cell of the line. */
  function CellAssignments(headers: seq<string>, cells: seq<string>): (ws: seq<(string, Option<string>)>)
    ensures |ws| == |cells|
    ensures forall i :: 0 <= i < |cells| ==> ws[i] == (CellKey(headers, i), Some(cells[i]))
  {
    seq(|cells|, i requires 0 <= i < |cells| => (CellKey(headers, i), Some(cells[i])))
  }

  /**
   * The row object csv-parser builds from the header keys and the cells of
   * a line: a line shorter than the header leaves the last columns out.
   */
  function RowOf(headers: seq<string>, cells: seq<string>): (row: Entries<string>)
    ensures UniqueKeys(row)
  {
    AssignAll(CellAssignments(headers, cells))
  }

  /** A row has a key exactly when some cell of the line is stored under it. */
  lemma RowKeys(headers: seq<string>, cells: seq<string>, k: string)
    ensures Get(RowOf(headers, cells), k).Some? <==> exists i :: 0 <= i < |cells| && CellKey(headers, i) == k
  {
    var ws := CellAssignments(headers, cells);
    AssignedKeys(ws, k);
    if Assigned(ws, k) {
      var i :| Assigns(ws, i, k);
      assert CellKey(headers, i) == k;
    }
    if exists i :: 0 <= i < |cells| && CellKey(headers, i) == k {
      var i :| 0 <= i < |cells| && CellKey(headers, i) == k;
      assert Assigns(ws, i, k);
    }
  }

  /** A cell past the last header lands under `_i`, which neither aggregation prefix matches. */
  lemma ExtraCellIsNoAmount(headers: seq<string>, i: nat, v: Value)
    requires i >= |headers|
    ensures !Helpers.Kept((CellKey(headers, i), v), Helpers.AllowancePrefix)
    ensures !Helpers.Kept((CellKey(headers, i), v), Helpers.DeductionPrefix)
  {
    var k := CellKey(headers, i);
    assert k[0] == '_';
    assert Helpers.AllowancePrefix[0] == 'a' && Helpers.DeductionPrefix[0] == 'd';
  }

  /** Each row with its user id and its record. */
  function Filings(rows: seq<Entries<string>>): (items: seq<(Option<string>, Record)>)
    ensures |items| == |rows|
    ensures forall i :: 0 <= i < |rows| ==> items[i] == (UserIdOf(rows[i]), PayslipOf(rows[i]))
  {
    seq(|rows|, i requires 0 <= i < |rows| => (UserIdOf(rows[i]), PayslipOf(rows[i])))
  }

  /** `results`: each user's records, users in the order they first appear. */
  function Group(rows: seq<Entries<string>>): (g: Entries<seq<Record>>)
    ensures UniqueKeys(g)
  {
    Collect(Filings(rows))
  }

  /**
   * `results[u]` holds the records of exactly the rows whose user id is `u`,
   * in row order; a user without such rows has no entry.
   */
  lemma GroupFilesRecords(rows: seq<Entries<string>>, u: string, p: Record)
    ensures var records := Filed(Filings(rows), u);
            Get(Group(rows), u) == (if records == [] then None else Some(records))
            && (p in records <==> exists i :: 0 <= i < |rows| && UserIdOf(rows[i]) == Some(u) && PayslipOf(rows[i]) == p)
  {
    var items := Filings(rows);
    CollectFiles(items, u);
    FiledMembers(items, u, p);
    if exists i :: 0 <= i < |items| && items[i] == (Some(u), p) {
      var i :| 0 <= i < |items| && items[i] == (Some(u), p);
      assert UserIdOf(rows[i]) == Some(u) && PayslipOf(rows[i]) == p;
    }
    if exists i :: 0 <= i < |rows| && UserIdOf(rows[i]) == Some(u) && PayslipOf(rows[i]) == p {
      var i :| 0 <= i < |rows| && UserIdOf(rows[i]) == Some(u) && PayslipOf(rows[i]) == p;
      assert items[i] == (Some(u), p);
    }
  }

  /** The import: the grouped payslips and the display names. */
  function Import(labelsLine: string, keysLine: string, cells: seq<seq<string>>)
    : (out: (Entries<seq<Record>>, map<string, string>))
    ensures UniqueKeys(out.0)
  {
    var headers := HeaderKeys(keysLine);
    var rows := seq(|cells|, i requires 0 <= i < |cells| => RowOf(headers, cells[i]));
    (Group(rows), DisplayNamesOf(labelsLine, keysLine))
  }

  /** An amount as the payslip page prints it is read back by the import as the same number. */
  lemma ImportReadsPrintedAmounts(n: int)
    ensures ConvertCell(FormatAmount(n)) == Num(n)
  {
    FormatAmountRoundTrip(n);
  }
}
