/**
 * The JavaScript values that flow through the payslip viewer: record field
 * values (`Text`, `Num`, `Null`), the `Number(...)` conversion with `NaN`
 * as `None`, truthiness, `String(...)`, integer `toLocaleString()` with
 * thousands separators, and plain objects as ordered key/value sequences.
 */
module JsValues {
  import opened Wrappers
  import opened Strings

  /** A field value of a payslip record: a string, an integer, or `null`. */
  datatype Value = Text(text: string) | Num(number: int) | Null

  /** A plain JavaScript object: its properties in iteration order. */
  type Entries<V> = seq<(string, V)>

  /** A payslip record (a row of the `salaries` table, or one entry of `payslips.json`). */
  type Record = Entries<Value>

  // ----- decimal digits -----

  predicate IsDigit(c: char) {
    '0' <= c <= '9'
  }

  predicate AllDigits(s: string) {
    forall i :: 0 <= i < |s| ==> IsDigit(s[i])
  }

  function DigitValue(c: char): nat
    requires IsDigit(c)
  {
    c as int - '0' as int
  }

  function DigitChar(d: nat): (c: char)
    requires d < 10
    ensures IsDigit(c) && DigitValue(c) == d
  {
    ('0' as int + d) as char
  }

  /** The number a string of decimal digits denotes. */
  function DigitsValue(s: string): nat
    requires AllDigits(s)
    decreases |s|
  {
    if |s| == 0 then 0 else DigitsValue(s[..|s| - 1]) * 10 + DigitValue(s[|s| - 1])
  }

  /** The decimal digits of `n`, without leading zeros. */
  function DecimalDigits(n: nat): (r: string)
    ensures |r| > 0 && AllDigits(r)
    ensures DigitsValue(r) == n
    ensures |r| > 1 ==> r[0] != '0'
    decreases n
  {
    if n < 10 then [DigitChar(n)]
    else
      var r := DecimalDigits(n / 10) + [DigitChar(n % 10)];
      assert r[..|r| - 1] == DecimalDigits(n / 10);
      r
  }

  /** `String(n)` for an integer. */
  function DecimalString(n: int): string {
    if n < 0 then "-" + DecimalDigits(-n) else DecimalDigits(n)
  }

  /**
   * The integers `Number(s)` accepts once `s` is trimmed and non-empty:
   * an optional sign followed by decimal digits.
   */
  function ParseDecimal(s: string): (r: Option<int>)
    ensures r.Some? ==> |s| > 0
  {
    if |s| > 1 && s[0] == '-' && AllDigits(s[1..]) then Some(-(DigitsValue(s[1..]) as int))
    else if |s| > 1 && s[0] == '+' && AllDigits(s[1..]) then Some(DigitsValue(s[1..]))
    else if |s| > 0 && AllDigits(s) then Some(DigitsValue(s))
    else None
  }

  /** Reading back the decimal text of an integer gives the integer. */
  lemma ParseDecimalString(n: int)
    ensures ParseDecimal(DecimalString(n)) == Some(n)
  {
    if n < 0 {
      assert DecimalString(n)[1..] == DecimalDigits(-n);
    }
  }

  // ----- Number(...), truthiness, String(...) -----

  /** `Number(v)` restricted to integers; `None` is `NaN`. */
  function ToNumber(v: Value): Option<int> {
    match v
    case Num(n) => Some(n)
    case Null => Some(0)
    case Text(s) =>
      var t := Trim(s);
      if t == "" then Some(0) else ParseDecimal(t)
  }

  /** Text holding a comma is `NaN` to `Number`: neither a sign nor a digit is a comma. */
  lemma CommaTextIsNaN(t: string)
    requires Contains(t, ",")
    ensures ToNumber(Text(t)) == None
  {
    if ',' !in t {
      CharsWithout(t, ',');
    }
    TrimKeeps(t, ',');
    CommaIsNoDecimal(Trim(t));
  }

  /** No decimal text holds a comma. */
  lemma CommaIsNoDecimal(r: string)
    requires ',' in r
    ensures r != "" && ParseDecimal(r) == None
  {
    var k :| 0 <= k < |r| && r[k] == ',';
    assert !IsDigit(r[k]);
    assert !AllDigits(r);
    if k > 0 {
      assert !IsDigit(r[1..][k - 1]);
      assert !AllDigits(r[1..]);
    }
  }

  /** `!!v`: the empty string, `0` and `null` are falsy. */
  predicate Truthy(v: Value) {
    match v
    case Text(s) => s != ""
    case Num(n) => n != 0
    case Null => false
  }

  /** `String(v)`. */
  function ToText(v: Value): string {
    match v
    case Text(s) => s
    case Num(n) => DecimalString(n)
    case Null => "null"
  }

  /** `String(v)` of a property read that may be `undefined`. */
  function FieldText(v: Option<Value>): string {
    match v
    case None => "undefined"
    case Some(x) => ToText(x)
  }

  /** `v || ''` of a property read that may be `undefined`, as text. */
  function FieldTextOrEmpty(v: Option<Value>): string {
    if v.Some? && Truthy(v.value) then ToText(v.value) else ""
  }

  /** Decimal text carries no white space, so `Number(String(n))` gives `n` back. */
  lemma NumberOfString(n: int)
    ensures ToNumber(Text(DecimalString(n))) == Some(n)
  {
    var s := DecimalString(n);
    assert !IsSpace(s[0]) && !IsSpace(s[|s| - 1]);
    TrimClean(s);
    ParseDecimalString(n);
  }

  // ----- toLocaleString() -----

  /** The three digits of `k < 1000`, with leading zeros. */
  function ThreeDigits(k: nat): (r: string)
    requires k < 1000
    ensures |r| == 3 && AllDigits(r)
  {
    [DigitChar(k / 100), DigitChar(k / 10 % 10), DigitChar(k % 10)]
  }

  /** The digits of `n` in groups of three separated by commas. */
  function Grouped(n: nat): string
    decreases n
  {
    if n < 1000 then DecimalDigits(n) else Grouped(n / 1000) + "," + ThreeDigits(n % 1000)
  }

  /** `n.toLocaleString()` for an integer: thousands separators and a leading minus sign. */
  function FormatAmount(n: int): string {
    if n < 0 then "-" + Grouped(-n) else Grouped(n)
  }

  /** `Number(x).toLocaleString()`, where `NaN` prints as `NaN`. */
  function FormatNumber(x: Option<int>): string {
    match x
    case None => "NaN"
    case Some(n) => FormatAmount(n)
  }

  /** `s.replace(/,/g, '')`. */
  function RemoveCommas(s: string): string {
    ReplaceAll(s, ",", "")
  }

  /** The digits of `1000 q + k` are those of `q` followed by the three digits of `k`. */
  lemma DecimalDigitsThousands(q: nat, k: nat)
    requires q >= 1 && k < 1000
    ensures DecimalDigits(q * 1000 + k) == DecimalDigits(q) + ThreeDigits(k)
  {
    var n := q * 1000 + k;
    assert n / 10 == q * 100 + k / 10 && n % 10 == k % 10;
    assert n / 10 / 10 == q * 10 + k / 100 && n / 10 % 10 == k / 10 % 10;
    assert n / 10 / 10 / 10 == q && n / 10 / 10 % 10 == k / 100;
    calc {
      DecimalDigits(n);
      DecimalDigits(n / 10) + [DigitChar(k % 10)];
      DecimalDigits(n / 10 / 10) + [DigitChar(k / 10 % 10)] + [DigitChar(k % 10)];
      DecimalDigits(q) + [DigitChar(k / 100)] + [DigitChar(k / 10 % 10)] + [DigitChar(k % 10)];
    }
  }

  /** Grouping only inserts commas: removing them leaves the plain decimal digits. */
  lemma {:induction false} GroupedDigits(n: nat)
    ensures RemoveCommas(Grouped(n)) == DecimalDigits(n)
    decreases n
  {
    if n < 1000 {
      DigitsWithoutComma(DecimalDigits(n));
    } else {
      var q, k := n / 1000, n % 1000;
      assert Grouped(n) == Grouped(q) + "," + ThreeDigits(k);
      GroupedDigits(q);
      DigitsWithoutComma(ThreeDigits(k));
      RemoveSeparatingComma(Grouped(q), ThreeDigits(k));
      DecimalDigitsThousands(q, k);
      assert n == q * 1000 + k;
    }
  }

  /** Decimal digits hold no comma. */
  lemma DigitsWithoutComma(d: string)
    requires AllDigits(d)
    ensures !Contains(d, ",")
  {
    forall j: nat | j <= |d| ensures !StartsWith(d[j..], ",") {
      assert j < |d| ==> IsDigit(d[j]);
    }
    NotContainsFromPositions(d, ",");
  }

  /** Removing the commas of `a,t` when `t` has none. */
  lemma RemoveSeparatingComma(a: string, t: string)
    requires !Contains(t, ",")
    ensures RemoveCommas(a + "," + t) == RemoveCommas(a) + t
  {
    ReplaceAllConcat(a + ",", t, ',', "");
    ReplaceAllConcat(a, ",", ',', "");
    assert RemoveCommas(",") == "";
  }

  /** A string in which no position starts an occurrence of `t` does not contain `t`. */
  lemma {:induction false} NotContainsFromPositions(s: string, t: string)
    requires forall j: nat :: j <= |s| ==> !StartsWith(s[j..], t)
    ensures !Contains(s, t)
    decreases |s|
  {
    assert s[0..] == s;
    if |s| > 0 {
      forall j: nat | j <= |s[1..]| ensures !StartsWith(s[1..][j..], t) {
        assert s[1..][j..] == s[j + 1..];
      }
      NotContainsFromPositions(s[1..], t);
    }
  }

  /**
   * Formatting and the comma-stripping `Number` conversion of the CSV import
   * are inverse: `Number(s.replace(/,/g, ''))` of `n.toLocaleString()` is `n`.
   */
  lemma FormatAmountRoundTrip(n: int)
    ensures ToNumber(Text(RemoveCommas(FormatAmount(n)))) == Some(n)
  {
    FormatAmountDigits(n);
    NumberOfString(n);
  }

  /** `toLocaleString()` differs from `String(n)` only by the commas it inserts. */
  lemma FormatAmountDigits(n: int)
    ensures RemoveCommas(FormatAmount(n)) == DecimalString(n)
  {
    if n < 0 {
      GroupedDigits(-n);
      ReplaceAllOtherFirst('-', Grouped(-n), ',', "");
    } else {
      GroupedDigits(n);
    }
  }

  /** `27500` is written `27,500`. */
  lemma FormatAmountExample()
    ensures FormatAmount(27500) == "27,500"
  {
    assert Grouped(27500) == Grouped(27) + "," + ThreeDigits(500);
    TwentySeven();
    FiveHundred();
  }

  /** Below a thousand the digits are printed plainly. */
  lemma TwentySeven()
    ensures Grouped(27) == "27"
  {
    assert DecimalDigits(27) == DecimalDigits(2) + [DigitChar(7)];
    assert DigitChar(2) == '2' && DigitChar(7) == '7';
  }

  /** A three-digit group keeps its zeros. */
  lemma FiveHundred()
    ensures ThreeDigits(500) == "500"
  {
    assert DigitChar(5) == '5' && DigitChar(0) == '0';
  }

  // ----- plain objects -----

  /** The keys of an object in iteration order. */
  function Keys<V>(r: Entries<V>): (ks: seq<string>)
    ensures |ks| == |r|
    ensures forall i :: 0 <= i < |r| ==> ks[i] == r[i].0
  {
    if |r| == 0 then [] else [r[0].0] + Keys(r[1..])
  }

  /** No key appears twice, as in a JavaScript object. */
  predicate UniqueKeys<V>(r: Entries<V>) {
    forall i, j :: 0 <= i < j < |r| ==> r[i].0 != r[j].0
  }

  /** `obj[k]`: the value stored under `k`, or `undefined`. */
  function Get<V>(r: Entries<V>, k: string): (v: Option<V>)
    ensures v.None? <==> k !in Keys(r)
    ensures v.Some? ==> (k, v.value) in r
  {
    if |r| == 0 then None
    else if r[0].0 == k then Some(r[0].1)
    else
      assert Keys(r) == [r[0].0] + Keys(r[1..]);
      Get(r[1..], k)
  }

  /** A read finds the first entry with the key. */
  lemma {:induction false} GetFirstEntry<V>(r: Entries<V>, i: nat)
    requires i < |r|
    requires forall j :: 0 <= j < i ==> r[j].0 != r[i].0
    ensures Get(r, r[i].0) == Some(r[i].1)
  {
    if i > 0 {
      assert r[0].0 != r[i].0;
      assert r[1..][i - 1] == r[i];
      GetFirstEntry(r[1..], i - 1);
    }
  }

  /** `rows.map(row => row[k])`: one field per row, `None` where a row lacks it. */
  function Column(rows: seq<Record>, k: string): (vs: seq<Option<Value>>)
    ensures |vs| == |rows|
    ensures forall i :: 0 <= i < |rows| ==> vs[i] == Get(rows[i], k)
  {
    seq(|rows|, i requires 0 <= i < |rows| => Get(rows[i], k))
  }

  /**
   * `obj[k] = v`: an existing key keeps its position and takes the new value,
   * a new key is added at the end.
   */
  function Put<V>(r: Entries<V>, k: string, v: V): (r': Entries<V>)
    ensures Get(r', k) == Some(v)
    ensures forall k' :: k' != k ==> Get(r', k') == Get(r, k')
    decreases |r|
  {
    if |r| == 0 then [(k, v)]
    else if r[0].0 == k then [(k, v)] + r[1..]
    else [r[0]] + Put(r[1..], k, v)
  }

  /** Assignment keeps the key order and appends a new key at the end. */
  lemma {:induction false} PutKeys<V>(r: Entries<V>, k: string, v: V)
    ensures k in Keys(r) ==> Keys(Put(r, k, v)) == Keys(r)
    ensures k !in Keys(r) ==> Keys(Put(r, k, v)) == Keys(r) + [k]
    decreases |r|
  {
    if |r| == 0 {
      assert Keys(Put(r, k, v)) == [k];
    } else if r[0].0 == k {
      var r' := Put(r, k, v);
      assert r'[1..] == r[1..];
      assert Keys(r') == [k] + Keys(r[1..]);
    } else {
      PutKeys(r[1..], k, v);
      var rest := Put(r[1..], k, v);
      var r' := [r[0]] + rest;
      assert r'[1..] == rest;
      assert Keys(r') == [r[0].0] + Keys(rest);
      AppendAssociative([r[0].0], Keys(r[1..]), [k]);
    }
  }

  /** Assignment keeps the keys of an object unique. */
  lemma PutUnique<V>(r: Entries<V>, k: string, v: V)
    requires UniqueKeys(r)
    ensures UniqueKeys(Put(r, k, v))
  {
    PutKeys(r, k, v);
    var r' := Put(r, k, v);
    forall i, j | 0 <= i < j < |r'| ensures r'[i].0 != r'[j].0 {
      assert Keys(r')[i] == r'[i].0 && Keys(r')[j] == r'[j].0;
      if j < |r| {
        assert Keys(r)[i] == r[i].0 && Keys(r)[j] == r[j].0;
      } else {
        assert Keys(r')[j] == k && k !in Keys(r);
        assert Keys(r)[i] == r[i].0;
      }
    }
  }
}
