/**
 * The JavaScript string operations the payslip viewer uses, on `seq<char>`:
 * `startsWith`, `includes`, `indexOf`, `split` and `join` with a literal
 * separator, literal `replace` (first occurrence) and global replacement,
 * `trim`, ASCII `toLowerCase`, and the code-unit order of `Array.prototype.sort`.
 */
module Strings {
  import opened Wrappers

  /** `s.startsWith(p)`. */
  predicate StartsWith(s: string, p: string) {
    |p| <= |s| && s[..|p|] == p
  }

  /** `s.includes(t)`: an occurrence of `t` starts at some position of `s`. */
  predicate Contains(s: string, t: string)
    decreases |s|
  {
    StartsWith(s, t) || (|s| > 0 && Contains(s[1..], t))
  }

  /** Every suffix of a string that does not contain `t` does not start with `t`. */
  lemma {:induction false} NotContainsSuffix(s: string, t: string, j: nat)
    requires j <= |s|
    requires !Contains(s, t)
    ensures !StartsWith(s[j..], t)
    decreases j
  {
    if j > 0 {
      assert s[1..][j - 1..] == s[j..];
      NotContainsSuffix(s[1..], t, j - 1);
    }
  }

  /** An occurrence of `t` starts at position `j` of `s`. */
  predicate OccursAt(s: string, t: string, j: nat) {
    j <= |s| && StartsWith(s[j..], t)
  }

  /** `s.indexOf(t)`, with `None` for JavaScript's `-1`: the leftmost position where `t` occurs. */
  function IndexOf(s: string, t: string): (r: Option<nat>)
    ensures r.None? <==> !Contains(s, t)
    ensures r.Some? ==> OccursAt(s, t, r.value)
    ensures r.Some? ==> forall j: nat :: j < r.value ==> !OccursAt(s, t, j)
    decreases |s|
  {
    if StartsWith(s, t) then Some(0)
    else if |s| == 0 then None
    else
      match IndexOf(s[1..], t)
      case None => None
      case Some(i) =>
        assert s[i + 1..] == s[1..][i..];
        forall j: nat | 1 <= j <= |s|
          ensures OccursAt(s, t, j) == OccursAt(s[1..], t, j - 1)
        {
          assert s[j..] == s[1..][j - 1..];
        }
        Some(i + 1)
  }

  /**
   * `s.replace(t, r)` with a literal pattern: only the leftmost occurrence of
   * `t` is replaced, and everything after it is kept as it is.
   */
  function ReplaceFirst(s: string, t: string, r: string): (res: string)
    requires |t| > 0
    ensures !Contains(s, t) ==> res == s
    decreases |s|
  {
    if StartsWith(s, t) then r + s[|t|..]
    else if |s| == 0 then s
    else [s[0]] + ReplaceFirst(s[1..], t, r)
  }

  /**
   * The replaced occurrence is the leftmost one: the text before it and the
   * text after it, later occurrences included, are kept as they are.
   */
  lemma ReplaceFirstAtIndexOf(s: string, t: string, r: string)
    requires |t| > 0
    requires IndexOf(s, t).Some?
    ensures IndexOf(s, t).value + |t| <= |s|
    ensures ReplaceFirst(s, t, r) == s[..IndexOf(s, t).value] + r + s[IndexOf(s, t).value + |t|..]
  {
    ReplaceFirstAt(s, t, r, IndexOf(s, t).value);
  }

  /** Replacing the first occurrence, when the leftmost one starts at `i`. */
  lemma {:induction false} ReplaceFirstAt(s: string, t: string, r: string, i: nat)
    requires |t| > 0
    requires OccursAt(s, t, i)
    requires forall j: nat :: j < i ==> !OccursAt(s, t, j)
    ensures i + |t| <= |s|
    ensures ReplaceFirst(s, t, r) == s[..i] + r + s[i + |t|..]
    decreases i
  {
    if i == 0 {
      assert s[0..] == s && s[..0] == [];
    } else {
      OccurrencesOfTail(s, t, i);
      assert ReplaceFirst(s, t, r) == [s[0]] + ReplaceFirst(s[1..], t, r);
      ReplaceFirstAt(s[1..], t, r, i - 1);
      SpliceAfterFirst(s, i, |t|, r);
    }
  }

  /** Dropping the first character moves every occurrence one position to the left. */
  lemma OccurrencesOfTail(s: string, t: string, i: nat)
    requires 0 < i && OccursAt(s, t, i)
    requires forall j: nat :: j < i ==> !OccursAt(s, t, j)
    ensures |s| > 0 && !StartsWith(s, t)
    ensures OccursAt(s[1..], t, i - 1)
    ensures forall j: nat :: j < i - 1 ==> !OccursAt(s[1..], t, j)
  {
    assert s[0..] == s && !OccursAt(s, t, 0);
    assert s[1..][i - 1..] == s[i..];
    forall j: nat | j < i - 1 ensures !OccursAt(s[1..], t, j) {
      assert s[1..][j..] == s[j + 1..];
      assert !OccursAt(s, t, j + 1);
    }
  }

  /** A splice in the tail of `s`, with the first character put back. */
  lemma SpliceAfterFirst(s: string, i: nat, n: nat, r: string)
    requires 0 < i && i + n <= |s|
    ensures [s[0]] + (s[1..][..i - 1] + r + s[1..][i - 1 + n..]) == s[..i] + r + s[i + n..]
  {
    var before, after := s[1..][..i - 1], s[1..][i - 1 + n..];
    assert s[..i] == [s[0]] + before;
    assert s[i + n..] == after;
    AppendAssociative([s[0]], before + r, after);
    AppendAssociative([s[0]], before, r);
  }

  /**
   * `s.split(sep)`: the pieces of `s` between the leftmost non-overlapping
   * occurrences of `sep`; there is always at least one piece.
   */
  function Split(s: string, sep: string): (parts: seq<string>)
    requires |sep| > 0
    ensures |parts| >= 1
    ensures StartsWith(s, parts[0])
    decreases |s|
  {
    if |s| == 0 then [""]
    else if StartsWith(s, sep) then [""] + Split(s[|sep|..], sep)
    else
      var rest := Split(s[1..], sep);
      [[s[0]] + rest[0]] + rest[1..]
  }

  /** No piece of a split contains the separator: every occurrence was cut. */
  lemma {:induction false} SplitPiecesFree(s: string, sep: string)
    requires |sep| > 0
    ensures forall i :: 0 <= i < |Split(s, sep)| ==> !Contains(Split(s, sep)[i], sep)
    decreases |s|
  {
    if |s| == 0 {
    } else if StartsWith(s, sep) {
      SplitPiecesFree(s[|sep|..], sep);
    } else {
      SplitPiecesFree(s[1..], sep);
      var rest := Split(s[1..], sep);
      var head := [s[0]] + rest[0];
      assert head == s[..|head|];
      assert |sep| <= |head| ==> head[..|sep|] == s[..|sep|];
      assert head[1..] == rest[0];
      assert !Contains(head, sep);
    }
  }

  /** `parts.join(sep)`. */
  function Join(parts: seq<string>, sep: string): string
  {
    if |parts| == 0 then ""
    else if |parts| == 1 then parts[0]
    else parts[0] + sep + Join(parts[1..], sep)
  }

  /**
   * `s.replace(/t/g, r)` with a literal pattern and a literal replacement:
   * every leftmost non-overlapping occurrence of `t` is replaced by `r`.
   */
  function ReplaceAll(s: string, t: string, r: string): (res: string)
    requires |t| > 0
    ensures !Contains(s, t) ==> res == s
    decreases |s|
  {
    if |s| == 0 then ""
    else if StartsWith(s, t) then r + ReplaceAll(s[|t|..], t, r)
    else [s[0]] + ReplaceAll(s[1..], t, r)
  }

  /** Prepending to the first piece prepends to the joined string. */
  lemma {:induction false} JoinPrepend(pre: string, first: string, rest: seq<string>, sep: string)
    ensures Join([pre + first] + rest, sep) == pre + Join([first] + rest, sep)
  {
    if |rest| > 0 {
      assert ([pre + first] + rest)[1..] == rest;
      assert ([first] + rest)[1..] == rest;
    }
  }

  /**
   * Global replacement cuts the string at every occurrence of `t` and joins
   * the pieces with `r`: the pieces contain no `t` (see `Split`), so no
   * occurrence is missed.
   */
  lemma {:induction false} ReplaceAllIsJoinOfSplit(s: string, t: string, r: string)
    requires |t| > 0
    ensures ReplaceAll(s, t, r) == Join(Split(s, t), r)
    decreases |s|
  {
    if |s| == 0 {
    } else if StartsWith(s, t) {
      ReplaceAllIsJoinOfSplit(s[|t|..], t, r);
      var p := Split(s[|t|..], t);
      assert Split(s, t) == [""] + p;
      assert ([""] + p)[1..] == p;
    } else {
      ReplaceAllIsJoinOfSplit(s[1..], t, r);
      var p := Split(s[1..], t);
      assert Split(s, t) == [[s[0]] + p[0]] + p[1..];
      JoinPrepend([s[0]], p[0], p[1..], r);
      assert [p[0]] + p[1..] == p;
    }
  }

  /** Replacing every occurrence of `t` by itself gives the string back. */
  lemma {:induction false} ReplaceAllSelf(s: string, t: string)
    requires |t| > 0
    ensures ReplaceAll(s, t, t) == s
    decreases |s|
  {
    if |s| == 0 {
    } else if StartsWith(s, t) {
      ReplaceAllSelf(s[|t|..], t);
      assert s == t + s[|t|..];
    } else {
      ReplaceAllSelf(s[1..], t);
      assert s == [s[0]] + s[1..];
    }
  }

  /** Splitting and joining again with the same separator is the identity. */
  lemma JoinSplit(s: string, sep: string)
    requires |sep| > 0
    ensures Join(Split(s, sep), sep) == s
  {
    ReplaceAllIsJoinOfSplit(s, sep, sep);
    ReplaceAllSelf(s, sep);
  }

  /** A string without the separator is a single piece. */
  lemma SplitWithout(s: string, sep: string)
    requires |sep| > 0
    requires !Contains(s, sep)
    ensures Split(s, sep) == [s]
  {
    JoinSplit(s, sep);
  }

  /** A leading separator character yields an empty first piece. */
  lemma SplitSeparatorFirst(rest: string, c: char)
    ensures Split([c] + rest, [c]) == [""] + Split(rest, [c])
  {
    assert ([c] + rest)[..1] == [c];
    assert ([c] + rest)[1..] == rest;
  }

  /** A leading character other than the separator starts the first piece. */
  lemma SplitOtherFirst(x: char, rest: string, c: char)
    requires x != c
    ensures Split([x] + rest, [c]) == [[x] + Split(rest, [c])[0]] + Split(rest, [c])[1..]
  {
    assert ([x] + rest)[..1] == [x];
    assert ([x] + rest)[1..] == rest;
  }

  /** With a one-character separator, splitting distributes over a separator in the middle. */
  lemma {:induction false} SplitAtSeparator(a: string, b: string, c: char)
    ensures Split(a + [c] + b, [c]) == Split(a, [c]) + Split(b, [c])
    decreases |a|
  {
    if |a| == 0 {
      assert a + [c] + b == [c] + b;
      SplitSeparatorFirst(b, c);
    } else {
      var x, a' := a[0], a[1..];
      assert a == [x] + a';
      assert a + [c] + b == [x] + (a' + [c] + b);
      SplitAtSeparator(a', b, c);
      SplitAtSeparatorStep(x, a', b, c);
    }
  }

  /** Concatenation is associative (stated apart so that it is used without unfolding its arguments). */
  lemma AppendAssociative<T>(x: seq<T>, y: seq<T>, z: seq<T>)
    ensures x + (y + z) == (x + y) + z
  {
  }

  /** The inductive step of `SplitAtSeparator`: one more leading character. */
  lemma SplitAtSeparatorStep(x: char, a: string, b: string, c: char)
    requires Split(a + [c] + b, [c]) == Split(a, [c]) + Split(b, [c])
    ensures Split([x] + (a + [c] + b), [c]) == Split([x] + a, [c]) + Split(b, [c])
  {
    var pa, pb := Split(a, [c]), Split(b, [c]);
    if x == c {
      SplitSeparatorFirst(a + [c] + b, c);
      SplitSeparatorFirst(a, c);
      AppendAssociative([""], pa, pb);
    } else {
      SplitOtherFirst(x, a + [c] + b, c);
      SplitOtherFirst(x, a, c);
      assert (pa + pb)[0] == pa[0];
      assert (pa + pb)[1..] == pa[1..] + pb;
      AppendAssociative([[x] + pa[0]], pa[1..], pb);
    }
  }

  /** The piece before the first separator is everything up to it. */
  lemma FirstPieceBeforeSeparator(a: string, b: string, c: char)
    requires !Contains(a, [c])
    ensures Split(a + [c] + b, [c])[0] == a
  {
    SplitAtSeparator(a, b, c);
    SplitWithout(a, [c]);
  }

  /** Text without the separator in front of a string joins the string's first piece. */
  lemma {:induction false} FirstPieceExtends(p: string, rest: string, c: char)
    requires !Contains(p, [c])
    ensures Split(p + rest, [c])[0] == p + Split(rest, [c])[0]
    decreases |p|
  {
    if |p| == 0 {
      assert p + rest == rest;
    } else {
      assert p + rest == [p[0]] + (p[1..] + rest);
      FirstPieceExtends(p[1..], rest, c);
      SplitOtherFirst(p[0], p[1..] + rest, c);
      AppendAssociative([p[0]], p[1..], Split(rest, [c])[0]);
      assert [p[0]] + p[1..] == p;
    }
  }

  /** A string that lacks the character `c` does not contain the one-character string `c`. */
  lemma {:induction false} CharsWithout(s: string, c: char)
    requires c !in s
    ensures !Contains(s, [c])
    decreases |s|
  {
    if |s| > 0 {
      assert s[..1] == [s[0]] != [c];
      assert s == [s[0]] + s[1..];
      CharsWithout(s[1..], c);
    }
  }

  /** A one-character string does not contain another character. */
  lemma OtherCharWithout(x: char, c: char)
    requires x != c
    ensures !Contains([x], [c])
  {
    assert [x][..1] == [x] && [x] != [c];
    assert [x][1..] == [];
    assert !Contains([x][1..], [c]);
  }

  /** Two strings without a character do not contain it once joined. */
  lemma {:induction false} ConcatWithout(a: string, b: string, c: char)
    requires !Contains(a, [c]) && !Contains(b, [c])
    ensures !Contains(a + b, [c])
    decreases |a|
  {
    if |a| == 0 {
      assert a + b == b;
    } else {
      ConcatWithout(a[1..], b, c);
      assert (a + b)[1..] == a[1..] + b;
    }
  }

  /** With a one-character pattern, global replacement distributes over concatenation. */
  lemma {:induction false} ReplaceAllConcat(a: string, b: string, c: char, r: string)
    ensures ReplaceAll(a + b, [c], r) == ReplaceAll(a, [c], r) + ReplaceAll(b, [c], r)
    decreases |a|
  {
    if |a| == 0 {
      assert a + b == b;
    } else {
      assert (a + b)[1..] == a[1..] + b;
      assert StartsWith(a + b, [c]) == StartsWith(a, [c]);
      ReplaceAllConcat(a[1..], b, c, r);
    }
  }

  /** A leading character other than a one-character pattern is kept by global replacement. */
  lemma ReplaceAllOtherFirst(x: char, rest: string, c: char, r: string)
    requires x != c
    ensures ReplaceAll([x] + rest, [c], r) == [x] + ReplaceAll(rest, [c], r)
  {
    assert ([x] + rest)[..1] == [x];
    assert ([x] + rest)[1..] == rest;
  }

  /** The white space `String.prototype.trim` removes (the common code points; see README). */
  predicate IsSpace(c: char) {
    c == ' ' || c == '\t' || c == '\n' || c == '\r' || c == '\U{000B}' || c == '\U{000C}'
    || c == '\U{00A0}' || c == '\U{3000}' || c == '\U{FEFF}'
  }

  /** `r` occurs in `s` as a contiguous piece. */
  predicate IsInfix(r: string, s: string) {
    exists i :: 0 <= i <= |s| && StartsWith(s[i..], r)
  }

  /** The middle of a concatenation occurs in it. */
  lemma InfixOfConcat(a: string, b: string, c: string)
    ensures IsInfix(b, a + b + c)
  {
    assert (a + b + c)[|a|..] == b + c;
    assert (b + c)[..|b|] == b;
  }

  /** `s` with its leading white space removed. */
  function TrimStart(s: string): (r: string)
    ensures |r| <= |s| && r == s[|s| - |r|..]
    ensures |r| > 0 ==> !IsSpace(r[0])
    ensures forall i :: 0 <= i < |s| - |r| ==> IsSpace(s[i])
    decreases |s|
  {
    if |s| > 0 && IsSpace(s[0]) then TrimStart(s[1..]) else s
  }

  /** `s` with its trailing white space removed. */
  function TrimEnd(s: string): (r: string)
    ensures |r| <= |s| && r == s[..|r|]
    ensures |r| > 0 ==> !IsSpace(r[|r| - 1])
    ensures forall i :: |r| <= i < |s| ==> IsSpace(s[i])
    decreases |s|
  {
    if |s| > 0 && IsSpace(s[|s| - 1]) then TrimEnd(s[..|s| - 1]) else s
  }

  /** `s.trim()`: the text between the leading and the trailing white space. */
  function Trim(s: string): (r: string)
    ensures |r| > 0 ==> !IsSpace(r[0]) && !IsSpace(r[|r| - 1])
    ensures IsInfix(r, s)
  {
    var t := TrimStart(s);
    var r := TrimEnd(t);
    assert StartsWith(s[|s| - |t|..], r);
    r
  }

  /** A string with no white space at either end is its own trim. */
  lemma {:induction false} TrimClean(s: string)
    requires |s| > 0 ==> !IsSpace(s[0]) && !IsSpace(s[|s| - 1])
    ensures Trim(s) == s
  {
  }

  /** Trimming keeps every character that is not white space. */
  lemma TrimKeeps(s: string, c: char)
    requires c in s && !IsSpace(c)
    ensures c in Trim(s)
  {
    var j :| 0 <= j < |s| && s[j] == c;
    var t := TrimStart(s);
    var a := |s| - |t|;
    assert j >= a && t[j - a] == c;
    var r := TrimEnd(t);
    assert j - a < |r| && r[j - a] == c;
  }

  /** Trimming twice is trimming once. */
  lemma TrimIdempotent(s: string)
    ensures Trim(Trim(s)) == Trim(s)
  {
    TrimClean(Trim(s));
  }

  /** `c.toLowerCase()` on the ASCII letters. */
  function LowerChar(c: char): char {
    if 'A' <= c <= 'Z' then (c as int - 'A' as int + 'a' as int) as char else c
  }

  /** `s.toLowerCase()` on the ASCII letters. */
  function ToLower(s: string): (r: string)
    ensures |r| == |s|
    ensures forall i :: 0 <= i < |s| ==> r[i] == LowerChar(s[i])
  {
    seq(|s|, i requires 0 <= i < |s| => LowerChar(s[i]))
  }

  /** The order `Array.prototype.sort` uses on strings: lexicographic by character. */
  predicate Less(a: string, b: string)
    decreases |a|
  {
    if |a| == 0 then |b| > 0
    else if |b| == 0 then false
    else if a[0] != b[0] then a[0] < b[0]
    else Less(a[1..], b[1..])
  }

  lemma {:induction false} LessIrreflexive(a: string)
    ensures !Less(a, a)
    decreases |a|
  {
    if |a| > 0 {
      LessIrreflexive(a[1..]);
    }
  }

  lemma {:induction false} LessTransitive(a: string, b: string, c: string)
    requires Less(a, b) && Less(b, c)
    ensures Less(a, c)
    decreases |a|
  {
    if |a| > 0 && |b| > 0 && |c| > 0 && a[0] == b[0] && b[0] == c[0] {
      LessTransitive(a[1..], b[1..], c[1..]);
    }
  }

  /** Any two distinct strings are ordered one way or the other. */
  lemma {:induction false} LessTotal(a: string, b: string)
    requires a != b
    ensures Less(a, b) || Less(b, a)
    decreases |a|
  {
    if |a| > 0 && |b| > 0 && a[0] == b[0] {
      assert a == [a[0]] + a[1..] && b == [b[0]] + b[1..];
      LessTotal(a[1..], b[1..]);
    }
  }

  /** The order is asymmetric. */
  lemma {:induction false} LessAsymmetric(a: string, b: string)
    requires Less(a, b)
    ensures !Less(b, a)
    decreases |a|
  {
    if |a| > 0 && |b| > 0 && a[0] == b[0] {
      LessAsymmetric(a[1..], b[1..]);
    }
  }
}
