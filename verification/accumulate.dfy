/**
 * The accumulation loops the routes and the import run, stated once over
 * plain keys and values: a first-match search, a run of object
 * assignments, a grouping of items under their keys and the removal of
 * repeated values by a `Set`.
 */
module Accumulate {
  import opened Wrappers
  import opened JsValues

  /** `flags.findIndex(b => b)`, with `None` for -1. */
  function FirstTrue(flags: seq<bool>): (r: Option<nat>)
    ensures r.None? <==> forall j :: 0 <= j < |flags| ==> !flags[j]
    ensures r.Some? ==> r.value < |flags| && flags[r.value]
    ensures r.Some? ==> forall j :: 0 <= j < r.value ==> !flags[j]
  {
    if |flags| == 0 then None
    else if flags[0] then Some(0)
    else
      match FirstTrue(flags[1..])
      case None => None
      case Some(i) => Some(i + 1)
  }

  // ----- a run of assignments `obj[k] = v`, skipped where there is no value -----

  /** Item `i` assigns to `key`. */
  predicate Assigns<V>(writes: seq<(string, Option<V>)>, i: int, key: string) {
    0 <= i < |writes| && writes[i].1.Some? && writes[i].0 == key
  }

  /** The object the assignments build, starting from `{}`. */
  function AssignAll<V>(writes: seq<(string, Option<V>)>): (obj: Entries<V>)
    ensures UniqueKeys(obj)
    decreases |writes|
  {
    if |writes| == 0 then []
    else
      var n := |writes| - 1;
      var prev := AssignAll(writes[..n]);
      match writes[n].1
      case None => prev
      case Some(v) =>
        PutUnique(prev, writes[n].0, v);
        Put(prev, writes[n].0, v)
  }

  /** Some item assigns to `key`. */
  ghost predicate Assigned<V>(writes: seq<(string, Option<V>)>, key: string) {
    exists i :: Assigns(writes, i, key)
  }

  /** An item assigns to a key when one of the earlier items does or the last one does. */
  lemma AssignsSnoc<V>(writes: seq<(string, Option<V>)>)
    requires |writes| > 0
    ensures forall k :: Assigned(writes, k) <==> Assigned(writes[..|writes| - 1], k) || Assigns(writes, |writes| - 1, k)
  {
    var n := |writes| - 1;
    forall k ensures Assigned(writes, k) ==> Assigned(writes[..n], k) || Assigns(writes, n, k) {
      if Assigned(writes, k) {
        var i :| Assigns(writes, i, k);
        if i < n {
          assert writes[..n][i] == writes[i];
          assert Assigns(writes[..n], i, k);
        }
      }
    }
    forall k ensures Assigned(writes[..n], k) ==> Assigned(writes, k) {
      if Assigned(writes[..n], k) {
        var i :| Assigns(writes[..n], i, k);
        assert writes[..n][i] == writes[i];
        assert Assigns(writes, i, k);
      }
    }
  }

  /** A key is present exactly when some item assigns to it. */
  lemma {:induction false} AssignedKeys<V>(writes: seq<(string, Option<V>)>, key: string)
    ensures Get(AssignAll(writes), key).Some? <==> Assigned(writes, key)
    decreases |writes|
  {
    if |writes| > 0 {
      AssignedKeys(writes[..|writes| - 1], key);
      AssignsSnoc(writes);
    }
  }

  /** A key holds the value of the last item that assigns to it. */
  lemma {:induction false} LastAssignmentWins<V>(writes: seq<(string, Option<V>)>, i: nat)
    requires i < |writes| && writes[i].1.Some?
    requires forall j :: i < j < |writes| ==> !Assigns(writes, j, writes[i].0)
    ensures Get(AssignAll(writes), writes[i].0) == writes[i].1
    decreases |writes|
  {
    var n := |writes| - 1;
    if i < n {
      var prefix := writes[..n];
      assert prefix[i] == writes[i];
      forall j | i < j < n ensures !Assigns(prefix, j, writes[i].0) {
        assert prefix[j] == writes[j];
        assert !Assigns(writes, j, writes[i].0);
      }
      LastAssignmentWins(prefix, i);
      UnassignedKeyKept(writes, writes[i].0);
    } else {
      assert AssignAll(writes) == Put(AssignAll(writes[..n]), writes[n].0, writes[n].1.value);
    }
  }

  /** A last item that does not assign to `key` leaves it as it was. */
  lemma UnassignedKeyKept<V>(writes: seq<(string, Option<V>)>, key: string)
    requires |writes| > 0 && !Assigns(writes, |writes| - 1, key)
    ensures Get(AssignAll(writes), key) == Get(AssignAll(writes[..|writes| - 1]), key)
  {
  }

  /** The same run of assignments into a map. */
  function AssignMap<V>(writes: seq<(string, Option<V>)>): (m: map<string, V>)
    ensures forall k :: k in m <==> Assigned(writes, k)
    decreases |writes|
  {
    if |writes| == 0 then map[]
    else
      var n := |writes| - 1;
      var prev := AssignMap(writes[..n]);
      AssignsSnoc(writes);
      match writes[n].1
      case None => prev
      case Some(v) => prev[writes[n].0 := v]
  }

  /** In the map too, a key holds the value of the last item that assigns to it. */
  lemma {:induction false} LastMapAssignmentWins<V>(writes: seq<(string, Option<V>)>, i: nat)
    requires i < |writes| && writes[i].1.Some?
    requires forall j :: i < j < |writes| ==> !Assigns(writes, j, writes[i].0)
    ensures writes[i].0 in AssignMap(writes) && AssignMap(writes)[writes[i].0] == writes[i].1.value
    decreases |writes|
  {
    var n := |writes| - 1;
    assert Assigns(writes, i, writes[i].0);
    if i < n {
      var prefix := writes[..n];
      assert prefix[i] == writes[i];
      forall j | i < j < n ensures !Assigns(prefix, j, writes[i].0) {
        assert prefix[j] == writes[j];
        assert !Assigns(writes, j, writes[i].0);
      }
      LastMapAssignmentWins(prefix, i);
      assert !Assigns(writes, n, writes[i].0);
    }
  }

  // ----- grouping `results[k] = results[k] || []; results[k].push(v)` -----

  /** The values filed under `key`, in order: a reference for the grouping. */
  function Filed<V>(items: seq<(Option<string>, V)>, key: string): seq<V> {
    if |items| == 0 then []
    else
      var n := |items| - 1;
      Filed(items[..n], key) + (if items[n].0 == Some(key) then [items[n].1] else [])
  }

  /** The grouping object; items without a key are skipped. */
  function Collect<V>(items: seq<(Option<string>, V)>): (g: Entries<seq<V>>)
    ensures UniqueKeys(g)
    decreases |items|
  {
    if |items| == 0 then []
    else
      var n := |items| - 1;
      var prev := Collect(items[..n]);
      match items[n].0
      case None => prev
      case Some(k) =>
        var list := Get(prev, k).GetOr([]) + [items[n].1];
        PutUnique(prev, k, list);
        Put(prev, k, list)
  }

  /** Each key lists exactly its values in item order, and a key with no items is absent. */
  lemma {:induction false} CollectFiles<V>(items: seq<(Option<string>, V)>, key: string)
    ensures Get(Collect(items), key) == if Filed(items, key) == [] then None else Some(Filed(items, key))
    decreases |items|
  {
    if |items| > 0 {
      var n := |items| - 1;
      CollectFiles(items[..n], key);
      var prev := Collect(items[..n]);
      var before := Filed(items[..n], key);
      if items[n].0 == Some(key) {
        var list := Get(prev, key).GetOr([]) + [items[n].1];
        assert Get(prev, key).GetOr([]) == before;
        assert Filed(items, key) == list;
        assert Collect(items) == Put(prev, key, list);
      } else {
        assert Filed(items, key) == before + [];
        assert before + [] == before;
        assert Get(Collect(items), key) == Get(prev, key);
      }
    }
  }

  /** A value is filed under `key` exactly when some item carries it with that key. */
  lemma {:induction false} FiledMembers<V>(items: seq<(Option<string>, V)>, key: string, v: V)
    ensures v in Filed(items, key) <==> exists i :: 0 <= i < |items| && items[i] == (Some(key), v)
    decreases |items|
  {
    if |items| > 0 {
      var n := |items| - 1;
      FiledMembers(items[..n], key, v);
      if exists i :: 0 <= i < |items[..n]| && items[..n][i] == (Some(key), v) {
        var i :| 0 <= i < |items[..n]| && items[..n][i] == (Some(key), v);
        assert items[i] == (Some(key), v);
      }
      if exists i :: 0 <= i < |items| && items[i] == (Some(key), v) {
        var i :| 0 <= i < |items| && items[i] == (Some(key), v);
        if i < n {
          assert items[..n][i] == (Some(key), v);
        }
      }
    }
  }

  // ----- `[...new Set(xs)]` -----

  /** The first position of `x` in `xs`. */
  function FirstIndex<T(==)>(xs: seq<T>, x: T): (i: nat)
    requires x in xs
    ensures i < |xs| && xs[i] == x && x !in xs[..i]
  {
    if xs[0] == x then 0
    else
      var j := FirstIndex(xs[1..], x);
      assert xs[..j + 1] == [xs[0]] + xs[1..][..j];
      j + 1
  }

  /** A position holding `x` with no `x` before it is the first position of `x`. */
  lemma FirstIndexUnique<T>(xs: seq<T>, x: T, i: nat)
    requires i < |xs| && xs[i] == x && x !in xs[..i]
    ensures FirstIndex(xs, x) == i
  {
    var k := FirstIndex(xs, x);
    assert forall m :: 0 <= m < i ==> xs[..i][m] == xs[m];
    assert forall m :: 0 <= m < k ==> xs[..k][m] == xs[m];
  }

  /** `[...new Set(xs)]`: every value of `xs` once, as the set iterates them in insertion order. */
  function Distinct<T(==,!new)>(xs: seq<T>): (ds: seq<T>)
    ensures forall x :: x in ds <==> x in xs
    ensures forall i, j :: 0 <= i < j < |ds| ==> ds[i] != ds[j]
    decreases |xs|
  {
    if |xs| == 0 then []
    else
      var n := |xs| - 1;
      var prev := Distinct(xs[..n]);
      assert xs == xs[..n] + [xs[n]];
      if xs[n] in prev then prev else prev + [xs[n]]
  }

  /** A value met among the first `n` items is first met at the same position in the whole sequence. */
  lemma FirstIndexInPrefix<T>(xs: seq<T>, n: nat, y: T)
    requires n <= |xs| && y in xs[..n]
    ensures FirstIndex(xs, y) == FirstIndex(xs[..n], y) < n
  {
    var k := FirstIndex(xs[..n], y);
    assert xs[..k] == xs[..n][..k];
    FirstIndexUnique(xs, y, k);
  }

  /** The values come out in the order of their first occurrence in `xs`. */
  lemma {:induction false} DistinctKeepsFirstOccurrenceOrder<T(!new)>(xs: seq<T>)
    ensures forall i, j :: 0 <= i < j < |Distinct(xs)| ==> FirstIndex(xs, Distinct(xs)[i]) < FirstIndex(xs, Distinct(xs)[j])
    decreases |xs|
  {
    if |xs| > 0 {
      var n := |xs| - 1;
      var prefix := xs[..n];
      var prev := Distinct(prefix);
      DistinctKeepsFirstOccurrenceOrder(prefix);
      var ds := Distinct(xs);
      forall i, j | 0 <= i < j < |ds| ensures FirstIndex(xs, ds[i]) < FirstIndex(xs, ds[j]) {
        assert prev[i] in prev;
        if j < |prev| {
          assert ds[i] == prev[i] && ds[j] == prev[j] && prev[j] in prev;
          FirstIndexInPrefix(xs, n, prev[i]);
          FirstIndexInPrefix(xs, n, prev[j]);
        } else {
          assert xs[n] !in prev && ds == prev + [xs[n]];
          assert ds[j] == xs[n] && ds[i] == prev[i] && xs[n] !in prefix;
          FirstIndexInPrefix(xs, n, prev[i]);
          FirstIndexUnique(xs, xs[n], n);
        }
      }
    }
  }
}
