/**
 * `data/employees.csv` as the file-backed routes read it: lines split on
 * `\n`, a header line first, fields split on `,` with no quoting.
 */
module EmployeesCsv {
  import opened Strings

  /** `content.split('\n')`. */
  function Lines(content: string): (lines: seq<string>)
    ensures |lines| >= 1
  {
    Split(content, "\n")
  }

  /** `content.split('\n').slice(1)`: every line after the header. */
  function DataLines(content: string): seq<string> {
    Lines(content)[1..]
  }

  /** `line.split(',')[0]`: the text before the first comma, or the whole line. */
  function FirstField(line: string): (f: string)
    ensures StartsWith(line, f)
  {
    Split(line, ",")[0]
  }

  /** `line.split(',')[0]?.trim()`. */
  function TrimmedId(line: string): string {
    Trim(FirstField(line))
  }

  /** `lines.map(line => line.split(',')[0]?.trim())`. */
  function TrimmedIds(lines: seq<string>): (ids: seq<string>)
    ensures |ids| == |lines|
    ensures forall k :: 0 <= k < |lines| ==> ids[k] == TrimmedId(lines[k])
  {
    seq(|lines|, k requires 0 <= k < |lines| => TrimmedId(lines[k]))
  }

  /** `ids.filter(Boolean)`: the non-empty ids, in order. */
  function NonEmpty(ids: seq<string>): (kept: seq<string>)
    ensures forall id :: id in kept <==> id != "" && id in ids
    ensures |kept| <= |ids|
  {
    if |ids| == 0 then []
    else
      var rest := NonEmpty(ids[1..]);
      if ids[0] == "" then rest else [ids[0]] + rest
  }

  /** The ids of some lines with the empty ones dropped. */
  function ValidIds(lines: seq<string>): (ids: seq<string>)
    ensures forall id :: id in ids <==> id != "" && id in TrimmedIds(lines)
  {
    NonEmpty(TrimmedIds(lines))
  }

  /** The employee ids of the file, in file order. */
  function EmployeeIds(content: string): seq<string> {
    ValidIds(DataLines(content))
  }

  /** A user is listed exactly when some line after the header has the user's id, trimmed, before its first comma. */
  lemma EmployeeIdsListLines(content: string, id: string)
    ensures id in EmployeeIds(content)
            <==> id != "" && exists k :: 1 <= k < |Lines(content)| && TrimmedId(Lines(content)[k]) == id
  {
    ValidIdsOfLaterLines(Lines(content), id);
  }

  /** The valid ids of the lines after the first are the non-empty trimmed first fields of those lines. */
  lemma ValidIdsOfLaterLines(lines: seq<string>, id: string)
    requires |lines| >= 1
    ensures id in ValidIds(lines[1..]) <==> id != "" && exists k :: 1 <= k < |lines| && TrimmedId(lines[k]) == id
  {
    var ids := TrimmedIds(lines[1..]);
    if id in ids {
      var j :| 0 <= j < |ids| && ids[j] == id;
      assert TrimmedId(lines[j + 1]) == id;
    }
    if exists k :: 1 <= k < |lines| && TrimmedId(lines[k]) == id {
      var k :| 1 <= k < |lines| && TrimmedId(lines[k]) == id;
      assert ids[k - 1] == id;
    }
  }
}
