/**
 * `getAvailableMonths` (utils/getAvailableMonths.js): every month that
 * occurs in `data/payslips.json`, each once, in the order of
 * `Array.prototype.sort` without a comparator. The file is a parameter,
 * `None` when it does not exist.
 */
module AvailableMonths {
  import opened Wrappers
  import opened Strings
  import opened JsValues
  import opened Accumulate
  import opened PayslipRoute
  import opened SelectRoute

  /** A `payslip.month` as read: `None` is `undefined`. */
  type Month = Option<Value>

  /**
   * The order of the default `sort`: `undefined` goes last, every other
   * value is compared by its string form.
   */
  predicate SortsBefore(a: Month, b: Month) {
    a.Some? && (b.None? || Less(FieldText(a), FieldText(b)))
  }

  lemma SortsBeforeIrreflexive(a: Month)
    ensures !SortsBefore(a, a)
  {
    if a.Some? {
      LessIrreflexive(FieldText(a));
    }
  }

  lemma SortsBeforeTransitive(a: Month, b: Month, c: Month)
    requires SortsBefore(a, b) && SortsBefore(b, c)
    ensures SortsBefore(a, c)
  {
    if c.Some? {
      LessTransitive(FieldText(a), FieldText(b), FieldText(c));
    }
  }

  /** No later element sorts before an earlier one. */
  predicate Ordered(s: seq<Month>) {
    forall i, j :: 0 <= i < j < |s| ==> !SortsBefore(s[j], s[i])
  }

  /** No value occurs twice. */
  predicate NoDuplicates(s: seq<Month>) {
    forall i, j :: 0 <= i < j < |s| ==> s[i] != s[j]
  }

  /** Inserts `x` in front of the first element it sorts before, so equal keys keep their order. */
  function Insert(s: seq<Month>, x: Month): (r: seq<Month>)
    ensures |r| == |s| + 1
    ensures multiset(r) == multiset(s) + multiset{x}
    ensures forall e :: e in r <==> e in s || e == x
    ensures Ordered(s) ==> Ordered(r)
    ensures NoDuplicates(s) && x !in s ==> NoDuplicates(r)
  {
    if |s| == 0 then [x]
    else if SortsBefore(x, s[0]) then
      InsertFront(s, x);
      [x] + s
    else
      var rest := Insert(s[1..], x);
      assert s == [s[0]] + s[1..];
      InsertAfterFirst(s, x, rest);
      [s[0]] + rest
  }

  /** An element that sorts before the head of an ordered list may go in front of it. */
  lemma InsertFront(s: seq<Month>, x: Month)
    requires |s| > 0 && SortsBefore(x, s[0])
    ensures Ordered(s) ==> Ordered([x] + s)
  {
    if Ordered(s) {
      var r := [x] + s;
      forall i, j | 0 <= i < j < |r| ensures !SortsBefore(r[j], r[i]) {
        if i == 0 {
          assert r[j] == s[j - 1];
          if j > 1 {
            assert !SortsBefore(s[j - 1], s[0]);
          }
          SortsBeforeIrreflexive(s[0]);
          if SortsBefore(r[j], x) {
            SortsBeforeTransitive(r[j], x, s[0]);
          }
        } else {
          assert r[i] == s[i - 1] && r[j] == s[j - 1];
        }
      }
    }
  }

  /** An element that does not sort before the head may be inserted after it. */
  lemma InsertAfterFirst(s: seq<Month>, x: Month, rest: seq<Month>)
    requires |s| > 0 && !SortsBefore(x, s[0])
    requires |rest| == |s| && forall e :: e in rest <==> e in s[1..] || e == x
    requires Ordered(s[1..]) ==> Ordered(rest)
    requires NoDuplicates(s[1..]) && x !in s[1..] ==> NoDuplicates(rest)
    ensures Ordered(s) ==> Ordered([s[0]] + rest)
    ensures NoDuplicates(s) && x !in s ==> NoDuplicates([s[0]] + rest)
  {
    if Ordered(s) {
      assert Ordered(s[1..]);
      HeadBeforeRest(s, x, rest);
    }
    if NoDuplicates(s) && x !in s {
      assert NoDuplicates(s[1..]);
      HeadNotInRest(s, x, rest);
    }
  }

  /** The head of an ordered list stays in front of the tail with `x` inserted. */
  lemma HeadBeforeRest(s: seq<Month>, x: Month, rest: seq<Month>)
    requires |s| > 0 && !SortsBefore(x, s[0]) && Ordered(s)
    requires forall e :: e in rest ==> e in s[1..] || e == x
    requires Ordered(rest)
    ensures Ordered([s[0]] + rest)
  {
    var r := [s[0]] + rest;
    forall i, j | 0 <= i < j < |r| ensures !SortsBefore(r[j], r[i]) {
      if i == 0 {
        assert r[j] == rest[j - 1] && r[j] in rest;
        if r[j] != x {
          var k :| 0 <= k < |s[1..]| && s[1..][k] == r[j];
          assert s[k + 1] == r[j];
        }
      } else {
        assert r[i] == rest[i - 1] && r[j] == rest[j - 1];
      }
    }
  }

  /** A head that is neither in the tail nor `x` is not repeated by the insertion. */
  lemma HeadNotInRest(s: seq<Month>, x: Month, rest: seq<Month>)
    requires |s| > 0 && s[0] !in s[1..] && s[0] != x
    requires forall e :: e in rest ==> e in s[1..] || e == x
    requires NoDuplicates(rest)
    ensures NoDuplicates([s[0]] + rest)
  {
    var r := [s[0]] + rest;
    forall i, j | 0 <= i < j < |r| ensures r[i] != r[j] {
      if i == 0 {
        assert r[j] in rest;
      } else {
        assert r[i] == rest[i - 1] && r[j] == rest[j - 1];
      }
    }
  }

  /** `array.sort()`: insertion of each element in turn. */
  function Sort(xs: seq<Month>): (r: seq<Month>)
    ensures |r| == |xs|
    ensures multiset(r) == multiset(xs)
    ensures forall e :: e in r <==> e in xs
    ensures Ordered(r)
    ensures NoDuplicates(xs) ==> NoDuplicates(r)
  {
    if |xs| == 0 then []
    else
      var n := |xs| - 1;
      assert xs == xs[..n] + [xs[n]];
      assert NoDuplicates(xs) ==> NoDuplicates(xs[..n]) && xs[n] !in xs[..n];
      Insert(Sort(xs[..n]), xs[n])
  }

  /** Some record of some user's list has the month `m`. */
  ghost predicate Occurs(payslips: Entries<UserData>, m: Month) {
    exists u, i :: 0 <= u < |payslips| && payslips[u].1.Many? && 0 <= i < |payslips[u].1.records|
                   && Get(payslips[u].1.records[i], "month") == m
  }

  /** The months of every user, in file order; `forEach` on a single record throws. */
  function AllMonths(payslips: Entries<UserData>): (r: Result<seq<Month>>)
    ensures r.Ok? <==> forall u :: 0 <= u < |payslips| ==> payslips[u].1.Many?
    ensures r.Ok? ==> forall m :: m in r.value <==> Occurs(payslips, m)
    decreases |payslips|
  {
    if |payslips| == 0 then Ok([])
    else
      var n := |payslips| - 1;
      assert forall u :: 0 <= u < n ==> payslips[..n][u] == payslips[u];
      match AllMonths(payslips[..n])
      case Err(e) => Err(e)
      case Ok(before) =>
        match payslips[n].1
        case Single(_) => Err("userPayslips.forEach is not a function")
        case Many(records) =>
          var ms := Column(records, "month");
          MonthsOfEntries(payslips, before, ms);
          Ok(before + ms)
  }

  /** The membership step of `AllMonths`: the months so far and those of the last user. */
  lemma MonthsOfEntries(payslips: Entries<UserData>, before: seq<Month>, ms: seq<Month>)
    requires |payslips| > 0 && payslips[|payslips| - 1].1.Many?
    requires ms == Column(payslips[|payslips| - 1].1.records, "month")
    requires forall m :: m in before <==> Occurs(payslips[..|payslips| - 1], m)
    ensures forall m :: m in before + ms <==> Occurs(payslips, m)
  {
    var n := |payslips| - 1;
    var prefix := payslips[..n];
    forall m | m in before + ms ensures Occurs(payslips, m) {
      if m in before {
        var u, i :| 0 <= u < |prefix| && prefix[u].1.Many? && 0 <= i < |prefix[u].1.records|
                    && Get(prefix[u].1.records[i], "month") == m;
        assert prefix[u] == payslips[u];
      } else {
        var i :| 0 <= i < |ms| && ms[i] == m;
        assert Get(payslips[n].1.records[i], "month") == m;
      }
    }
    forall m | Occurs(payslips, m) ensures m in before + ms {
      var u, i :| 0 <= u < |payslips| && payslips[u].1.Many? && 0 <= i < |payslips[u].1.records|
                  && Get(payslips[u].1.records[i], "month") == m;
      if u == n {
        assert ms[i] == m;
      } else {
        assert prefix[u] == payslips[u];
        assert Occurs(prefix, m);
      }
    }
  }

  /** `getAvailableMonths()`: an error when the file is missing or an entry is not a list. */
  function GetAvailableMonths(payslips: Option<Entries<UserData>>): (r: Result<seq<Month>>)
    ensures payslips.None? ==> r.Err?
    ensures r.Ok? <==> payslips.Some? && AllMonths(payslips.value).Ok?
    ensures r.Ok? ==> Ordered(r.value) && NoDuplicates(r.value)
    ensures r.Ok? ==> forall m :: m in r.value <==> Occurs(payslips.value, m)
  {
    match payslips
    case None => Err("payslip data does not exist")
    case Some(data) =>
      match AllMonths(data)
      case Err(e) => Err(e)
      case Ok(all) =>
        var ds := Distinct(all);
        Ok(Sort(ds))
  }

  /**
   * When every month is text, the list is strictly increasing in string
   * order: sorted and free of repeats.
   */
  lemma TextMonthsStrictlyIncrease(payslips: Option<Entries<UserData>>)
    requires GetAvailableMonths(payslips).Ok?
    requires forall m :: m in GetAvailableMonths(payslips).value ==> m.Some? && m.value.Text?
    ensures var ms := GetAvailableMonths(payslips).value;
            forall i, j :: 0 <= i < j < |ms| ==> Less(ms[i].value.text, ms[j].value.text)
  {
    var ms := GetAvailableMonths(payslips).value;
    forall i, j | 0 <= i < j < |ms| ensures Less(ms[i].value.text, ms[j].value.text) {
      assert ms[i] in ms && ms[j] in ms;
      assert ms[i] != ms[j];
      assert ms[i].value.text != ms[j].value.text;
      LessTotal(ms[i].value.text, ms[j].value.text);
      assert !SortsBefore(ms[j], ms[i]);
    }
  }
}
