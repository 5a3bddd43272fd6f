/**
 * The in-memory database table and the "upsert every reported entry, then
 * destroy everything not touched" pass that both the zone cache and the
 * pattern cache run against the controller's report.
 *
 * A table is a sequence of rows in primary-key order, so ActiveRecord's
 * `.first` is the first row of the sequence. A row is split into its
 * primary key, the lookup key the pass searches by, the one attribute the
 * pass writes, and everything else, which the pass never writes.
 */
module Catalog {
  import opened Wrappers
  import opened Ruby

  /** A database row: primary key, lookup key, the attribute a sync writes, the rest. */
  datatype Row<K, V, X> = Row(id: nat, key: K, value: V, attrs: X)

  /** Rows are stored in strictly ascending primary-key order (so ids are distinct). */
  predicate IdsAscending<K, V, X>(rows: seq<Row<K, V, X>>) {
    forall i, j :: 0 <= i < j < |rows| ==> rows[i].id < rows[j].id
  }

  /** The primary keys of a table, in order. */
  function IdsOf<K, V, X>(rows: seq<Row<K, V, X>>): (r: seq<nat>)
    ensures |r| == |rows|
    ensures forall i :: 0 <= i < |rows| ==> r[i] == rows[i].id
  {
    seq(|rows|, i requires 0 <= i < |rows| => rows[i].id)
  }

  /** The lookup keys of a table, in order. */
  function KeysOf<K, V, X>(rows: seq<Row<K, V, X>>): (r: seq<K>)
    ensures |r| == |rows|
    ensures forall i :: 0 <= i < |rows| ==> r[i] == rows[i].key
  {
    seq(|rows|, i requires 0 <= i < |rows| => rows[i].key)
  }

  /** No two rows share a lookup key. */
  predicate KeysUnique<K(==), V, X>(rows: seq<Row<K, V, X>>) {
    forall i, j :: 0 <= i < j < |rows| ==> rows[i].key != rows[j].key
  }

  /** Row `i` is the row `where(key: ...).first` finds for its own key. */
  predicate IsFirst<K(==), V, X>(rows: seq<Row<K, V, X>>, i: int)
    requires 0 <= i < |rows|
  {
    forall j :: 0 <= j < i ==> rows[j].key != rows[i].key
  }

  /** `where(key: k).first`: the index of the lowest-id row with key `k`, or nil. */
  function FirstWithKey<K(==), V, X>(rows: seq<Row<K, V, X>>, k: K): (r: Option<nat>)
    ensures r.Some? ==> r.value < |rows| && rows[r.value].key == k && IsFirst(rows, r.value)
    ensures r.None? <==> k !in KeysOf(rows)
  {
    if |rows| == 0 then None
    else if rows[0].key == k then Some(0)
    else
      match FirstWithKey(rows[1..], k)
      case None =>
        assert KeysOf(rows) == [rows[0].key] + KeysOf(rows[1..]);
        None
      case Some(i) =>
        assert KeysOf(rows) == [rows[0].key] + KeysOf(rows[1..]);
        Some(i + 1)
  }

  /** The primary key the database hands to a new row: larger than every id in the table. */
  function NextId<K, V, X>(rows: seq<Row<K, V, X>>): (n: nat)
    ensures forall i :: 0 <= i < |rows| ==> rows[i].id < n
  {
    if |rows| == 0 then 1
    else
      var m := NextId(rows[..|rows| - 1]);
      var last := rows[|rows| - 1].id + 1;
      if m < last then last else m
  }

  /**
   * `where(key: k).first_or_initialize`, assign `value = v`, `save`: the
   * table afterwards and the id of the saved row.
   */
  function Upsert<K(==), V, X>(rows: seq<Row<K, V, X>>, k: K, v: V, initial: X): (seq<Row<K, V, X>>, nat) {
    match FirstWithKey(rows, k)
    case Some(i) => (rows[i := rows[i].(value := v)], rows[i].id)
    case None =>
      var n := NextId(rows);
      (rows + [Row(n, k, v, initial)], n)
  }

  /**
   * One upsert: the table grows by a row exactly when the key was absent; the
   * saved row carries the key and the new value under the returned id; rows
   * keep their ids, keys and other columns, and rows of other keys are
   * untouched; a created row gets a fresh id and the initial columns.
   */
  lemma UpsertSaves<K, V, X>(rows: seq<Row<K, V, X>>, k: K, v: V, initial: X)
    ensures var r := Upsert(rows, k, v, initial);
      && |r.0| == (if k in KeysOf(rows) then |rows| else |rows| + 1)
      && (exists i :: 0 <= i < |r.0| && r.0[i].id == r.1 && r.0[i].key == k && r.0[i].value == v)
      && (forall i :: 0 <= i < |rows| ==> r.0[i].id == rows[i].id && r.0[i].key == rows[i].key && r.0[i].attrs == rows[i].attrs)
      && (forall i :: 0 <= i < |rows| && rows[i].key != k ==> r.0[i] == rows[i])
      && (k !in KeysOf(rows) ==> r.0[|rows|] == Row(r.1, k, v, initial) && r.1 !in IdsOf(rows))
  {
    var r := Upsert(rows, k, v, initial);
    match FirstWithKey(rows, k)
    case Some(i) =>
      assert k in KeysOf(rows) && r.0[i].id == r.1 && r.0[i].key == k && r.0[i].value == v;
    case None =>
      assert r.0[|rows|] == Row(r.1, k, v, initial);
      assert r.1 !in IdsOf(rows);
  }

  /** Upserts every entry in order, collecting the saved ids (`updated << record.id`). */
  function UpsertAll<K(==), V, X>(rows: seq<Row<K, V, X>>, entries: seq<(K, V)>, initial: X): (seq<Row<K, V, X>>, seq<nat>)
    decreases |entries|
  {
    if |entries| == 0 then (rows, [])
    else
      var (c, t) := UpsertAll(rows, entries[..|entries| - 1], initial);
      var (c', id) := Upsert(c, entries[|entries| - 1].0, entries[|entries| - 1].1, initial);
      (c', t + [id])
  }

  /** `where.not(id: touched).destroy_all`: keeps exactly the rows whose id was touched, in order. */
  function Sweep<K, V, X>(rows: seq<Row<K, V, X>>, touched: seq<nat>): (r: seq<Row<K, V, X>>)
    ensures forall i :: 0 <= i < |r| ==> r[i] in rows && r[i].id in touched
    ensures forall i :: 0 <= i < |rows| && rows[i].id in touched ==> rows[i] in r
    ensures IdsAscending(rows) ==> IdsAscending(r)
  {
    if |rows| == 0 then []
    else
      var rest := Sweep(rows[1..], touched);
      if rows[0].id in touched then
        assert forall i :: 1 <= i < |rows| ==> rows[i] == rows[1..][i - 1];
        assert IdsAscending(rows) ==> forall x :: x in rows[1..] ==> rows[0].id < x.id;
        assert forall i :: 0 <= i < |rest| ==> rest[i] in rows[1..];
        [rows[0]] + rest
      else
        assert forall i :: 1 <= i < |rows| ==> rows[i] == rows[1..][i - 1];
        rest
  }

  /** The whole pass: upsert every entry, then destroy every row that was not touched. */
  function Sync<K(==), V, X>(rows: seq<Row<K, V, X>>, entries: seq<(K, V)>, initial: X): seq<Row<K, V, X>> {
    var (c, t) := UpsertAll(rows, entries, initial);
    Sweep(c, t)
  }

  // ---------------------------------------------------------------------
  // What the upsert phase leaves behind, in closed form.
  // ---------------------------------------------------------------------

  /**
   * Row `i` after the upserts: the first row for a reported key carries the
   * key's LAST reported value; every other pre-existing row is untouched.
   */
  function Refreshed<K(==), V, X>(rows: seq<Row<K, V, X>>, i: int, entries: seq<(K, V)>): Row<K, V, X>
    requires 0 <= i < |rows|
  {
    var last := LastValueFor(entries, rows[i].key);
    if IsFirst(rows, i) && last.Some? then rows[i].(value := last.value) else rows[i]
  }

  /** Row `i` is the row the pass found or created for a reported key, so it survives the sweep. */
  ghost predicate Kept<K, V, X>(c: seq<Row<K, V, X>>, entries: seq<(K, V)>, i: int)
    requires 0 <= i < |c|
  {
    IsFirst(c, i) && LastValueFor(entries, c[i].key).Some?
  }

  /** The pre-existing rows, in place, as `Refreshed` describes them. */
  ghost predicate OldRowsRefreshed<K, V, X>(rows: seq<Row<K, V, X>>, entries: seq<(K, V)>, c: seq<Row<K, V, X>>) {
    |c| >= |rows| && forall i :: 0 <= i < |rows| ==> c[i] == Refreshed(rows, i, entries)
  }

  /** Rows after the pre-existing ones were created for reported keys that had no row. */
  ghost predicate NewRowsCreated<K, V, X>(rows: seq<Row<K, V, X>>, entries: seq<(K, V)>, initial: X, c: seq<Row<K, V, X>>) {
    |c| >= |rows| &&
    forall i :: |rows| <= i < |c| ==>
      && c[i].attrs == initial
      && LastValueFor(entries, c[i].key) == Some(c[i].value)
      && c[i].key !in KeysOf(rows)
      && IsFirst(c, i)
  }

  /** Every reported key has a row. */
  ghost predicate Covers<K(!new), V, X>(entries: seq<(K, V)>, c: seq<Row<K, V, X>>) {
    forall k :: LastValueFor(entries, k).Some? ==> k in KeysOf(c)
  }

  /** Some kept row carries this id. */
  ghost predicate IdKept<K, V, X>(c: seq<Row<K, V, X>>, entries: seq<(K, V)>, id: nat) {
    exists i :: 0 <= i < |c| && c[i].id == id && Kept(c, entries, i)
  }

  /** Every touched id belongs to a kept row. */
  ghost predicate TouchedAreKept<K, V, X>(c: seq<Row<K, V, X>>, entries: seq<(K, V)>, t: seq<nat>) {
    forall n :: 0 <= n < |t| ==> IdKept(c, entries, t[n])
  }

  /** Every kept row was touched. */
  ghost predicate KeptAreTouched<K, V, X>(c: seq<Row<K, V, X>>, entries: seq<(K, V)>, t: seq<nat>) {
    forall i :: 0 <= i < |c| && Kept(c, entries, i) ==> c[i].id in t
  }

  /** The state after upserting `entries` into `rows`: table `c`, touched ids `t`. */
  ghost predicate Shape<K(!new), V, X>(rows: seq<Row<K, V, X>>, entries: seq<(K, V)>, initial: X,
                                       c: seq<Row<K, V, X>>, t: seq<nat>)
  {
    && IdsAscending(c)
    && OldRowsRefreshed(rows, entries, c)
    && NewRowsCreated(rows, entries, initial, c)
    && Covers(entries, c)
    && TouchedAreKept(c, entries, t)
    && KeptAreTouched(c, entries, t)
  }

  /** Appending one entry changes the last reported value of its key only. */
  lemma LastValueAppend<K, V>(entries: seq<(K, V)>, k: K, v: V)
    ensures forall x :: LastValueFor(entries + [(k, v)], x) == if x == k then Some(v) else LastValueFor(entries, x)
  {
    assert (entries + [(k, v)])[..|entries|] == entries;
  }

  /** Tables that agree on every lookup key agree on which rows are first for their key. */
  lemma FirstAgrees<K, V, X>(a: seq<Row<K, V, X>>, b: seq<Row<K, V, X>>, n: int)
    requires 0 <= n <= |a| && n <= |b|
    requires forall i :: 0 <= i < n ==> a[i].key == b[i].key
    ensures forall i :: 0 <= i < n ==> (IsFirst(a, i) <==> IsFirst(b, i))
  {
  }

  /** Refreshing rows never changes their id, key or other attributes. */
  lemma PrefixAgrees<K, V, X>(rows: seq<Row<K, V, X>>, entries: seq<(K, V)>, c: seq<Row<K, V, X>>)
    requires OldRowsRefreshed(rows, entries, c)
    ensures forall i :: 0 <= i < |rows| ==> c[i].key == rows[i].key && c[i].id == rows[i].id && c[i].attrs == rows[i].attrs
    ensures forall i :: 0 <= i < |rows| ==> (IsFirst(c, i) <==> IsFirst(rows, i))
  {
    assert forall i :: 0 <= i < |rows| ==> c[i].key == rows[i].key;
    FirstAgrees(c, rows, |rows|);
  }

  /** Nothing reported: the table is untouched and nothing is touched. */
  lemma ShapeEmpty<K(!new), V, X>(rows: seq<Row<K, V, X>>, initial: X)
    requires IdsAscending(rows)
    ensures Shape(rows, [], initial, rows, [])
  {
  }

  // The step for a key that already has a row `p`.

  lemma FoundOld<K, V, X>(rows: seq<Row<K, V, X>>, entries: seq<(K, V)>, initial: X,
                          c: seq<Row<K, V, X>>, k: K, v: V, p: nat)
    requires OldRowsRefreshed(rows, entries, c) && NewRowsCreated(rows, entries, initial, c)
    requires p < |c| && c[p].key == k && IsFirst(c, p)
    ensures OldRowsRefreshed(rows, entries + [(k, v)], c[p := c[p].(value := v)])
  {
    LastValueAppend(entries, k, v);
    PrefixAgrees(rows, entries, c);
    var c' := c[p := c[p].(value := v)];
    forall i | 0 <= i < |rows| ensures c'[i] == Refreshed(rows, i, entries + [(k, v)]) {
      if i == p {
        assert IsFirst(rows, p);
      } else if rows[i].key == k {
        assert p < |rows| by {
          if p >= |rows| { assert false; }
        }
        assert rows[p].key == k;
        if p < i {
          assert !IsFirst(rows, i);
        } else {
          assert false;
        }
      }
    }
  }

  lemma FoundNew<K, V, X>(rows: seq<Row<K, V, X>>, entries: seq<(K, V)>, initial: X,
                          c: seq<Row<K, V, X>>, k: K, v: V, p: nat)
    requires NewRowsCreated(rows, entries, initial, c)
    requires p < |c| && c[p].key == k && IsFirst(c, p)
    ensures NewRowsCreated(rows, entries + [(k, v)], initial, c[p := c[p].(value := v)])
  {
    LastValueAppend(entries, k, v);
    var c' := c[p := c[p].(value := v)];
    assert forall i :: 0 <= i < |c| ==> c'[i].key == c[i].key;
    FirstAgrees(c', c, |c|);
    forall i | |rows| <= i < |c'|
      ensures c'[i].attrs == initial && LastValueFor(entries + [(k, v)], c'[i].key) == Some(c'[i].value)
      ensures c'[i].key !in KeysOf(rows) && IsFirst(c', i)
    {
      if i != p && c[i].key == k {
        if i < p {
          assert false;
        } else {
          assert false;
        }
      }
    }
  }

  lemma FoundCovers<K(!new), V, X>(entries: seq<(K, V)>, c: seq<Row<K, V, X>>, k: K, v: V, p: nat)
    requires Covers(entries, c)
    requires p < |c| && c[p].key == k
    ensures Covers(entries + [(k, v)], c[p := c[p].(value := v)])
  {
    LastValueAppend(entries, k, v);
    var c' := c[p := c[p].(value := v)];
    assert KeysOf(c') == KeysOf(c);
  }

  lemma FoundTouched<K, V, X>(entries: seq<(K, V)>, c: seq<Row<K, V, X>>, t: seq<nat>, k: K, v: V, p: nat)
    requires TouchedAreKept(c, entries, t) && KeptAreTouched(c, entries, t)
    requires p < |c| && c[p].key == k && IsFirst(c, p)
    ensures TouchedAreKept(c[p := c[p].(value := v)], entries + [(k, v)], t + [c[p].id])
    ensures KeptAreTouched(c[p := c[p].(value := v)], entries + [(k, v)], t + [c[p].id])
  {
    var e' := entries + [(k, v)];
    LastValueAppend(entries, k, v);
    var c' := c[p := c[p].(value := v)];
    var t' := t + [c[p].id];
    assert forall i :: 0 <= i < |c| ==> c'[i].key == c[i].key && c'[i].id == c[i].id;
    FirstAgrees(c', c, |c|);
    forall n | 0 <= n < |t'| ensures IdKept(c', e', t'[n]) {
      if n < |t| {
        assert IdKept(c, entries, t[n]);
        var i :| 0 <= i < |c| && c[i].id == t[n] && Kept(c, entries, i);
        assert c'[i].id == t'[n] && Kept(c', e', i);
      } else {
        assert c'[p].id == t'[n] && Kept(c', e', p);
      }
    }
    forall i | 0 <= i < |c'| && Kept(c', e', i) ensures c'[i].id in t' {
      if c'[i].key == k {
        assert i == p by {
          if i < p { assert false; } else if i > p { assert false; }
        }
      } else {
        assert Kept(c, entries, i);
      }
    }
  }

  // The step for a key with no row yet: a row with id `n` is appended.

  lemma AddedOld<K, V, X>(rows: seq<Row<K, V, X>>, entries: seq<(K, V)>, initial: X,
                          c: seq<Row<K, V, X>>, k: K, v: V, n: nat)
    requires OldRowsRefreshed(rows, entries, c)
    requires k !in KeysOf(c)
    ensures OldRowsRefreshed(rows, entries + [(k, v)], c + [Row(n, k, v, initial)])
  {
    LastValueAppend(entries, k, v);
    var c' := c + [Row(n, k, v, initial)];
    forall i | 0 <= i < |rows| ensures c'[i] == Refreshed(rows, i, entries + [(k, v)]) {
      assert c[i].key in KeysOf(c);
    }
  }

  lemma AddedNew<K, V, X>(rows: seq<Row<K, V, X>>, entries: seq<(K, V)>, initial: X,
                          c: seq<Row<K, V, X>>, k: K, v: V, n: nat)
    requires OldRowsRefreshed(rows, entries, c) && NewRowsCreated(rows, entries, initial, c)
    requires k !in KeysOf(c)
    ensures NewRowsCreated(rows, entries + [(k, v)], initial, c + [Row(n, k, v, initial)])
  {
    LastValueAppend(entries, k, v);
    PrefixAgrees(rows, entries, c);
    var c' := c + [Row(n, k, v, initial)];
    assert forall i :: 0 <= i < |c| ==> c'[i] == c[i];
    FirstAgrees(c', c, |c|);
    assert k !in KeysOf(rows);
    forall i | |rows| <= i < |c'|
      ensures c'[i].attrs == initial && LastValueFor(entries + [(k, v)], c'[i].key) == Some(c'[i].value)
      ensures c'[i].key !in KeysOf(rows) && IsFirst(c', i)
    {
      if i < |c| {
        assert c[i].key in KeysOf(c);
      } else {
        forall j | 0 <= j < i ensures c'[j].key != c'[i].key {
          assert c[j].key in KeysOf(c);
        }
      }
    }
  }

  lemma AddedCovers<K(!new), V, X>(entries: seq<(K, V)>, initial: X, c: seq<Row<K, V, X>>, k: K, v: V, n: nat)
    requires Covers(entries, c)
    ensures Covers(entries + [(k, v)], c + [Row(n, k, v, initial)])
  {
    LastValueAppend(entries, k, v);
    assert KeysOf(c + [Row(n, k, v, initial)]) == KeysOf(c) + [k];
  }

  /** Appending a row for an absent key leaves every old row kept exactly when it was. */
  lemma AddedKeepsOld<K, V, X>(entries: seq<(K, V)>, initial: X, c: seq<Row<K, V, X>>, k: K, v: V, id: nat, i: nat)
    requires k !in KeysOf(c) && i < |c|
    ensures Kept(c + [Row(id, k, v, initial)], entries + [(k, v)], i) <==> Kept(c, entries, i)
  {
    var c' := c + [Row(id, k, v, initial)];
    LastValueAppend(entries, k, v);
    assert c'[i] == c[i];
    assert c[i].key in KeysOf(c);
    assert forall j :: 0 <= j < i ==> c'[j] == c[j];
    FirstAgrees(c', c, i + 1);
  }

  /** The appended row for an absent key is kept. */
  lemma AddedIsKept<K, V, X>(entries: seq<(K, V)>, initial: X, c: seq<Row<K, V, X>>, k: K, v: V, id: nat)
    requires k !in KeysOf(c)
    ensures Kept(c + [Row(id, k, v, initial)], entries + [(k, v)], |c|)
  {
    var c' := c + [Row(id, k, v, initial)];
    LastValueAppend(entries, k, v);
    forall j | 0 <= j < |c| ensures c'[j].key != c'[|c|].key {
      assert c'[j] == c[j];
      assert c[j].key in KeysOf(c);
    }
  }

  /** A created row is kept, and so is every row that was kept before. */
  lemma AddedTouchedAreKept<K, V, X>(entries: seq<(K, V)>, initial: X, c: seq<Row<K, V, X>>, t: seq<nat>, k: K, v: V, id: nat)
    requires TouchedAreKept(c, entries, t)
    requires k !in KeysOf(c)
    ensures TouchedAreKept(c + [Row(id, k, v, initial)], entries + [(k, v)], t + [id])
  {
    var e' := entries + [(k, v)];
    var c' := c + [Row(id, k, v, initial)];
    var t' := t + [id];
    forall m | 0 <= m < |t'| ensures IdKept(c', e', t'[m]) {
      if m < |t| {
        assert IdKept(c, entries, t[m]);
        var i :| 0 <= i < |c| && c[i].id == t[m] && Kept(c, entries, i);
        AddedKeepsOld(entries, initial, c, k, v, id, i);
        assert c'[i] == c[i] && t'[m] == t[m];
        assert 0 <= i < |c'| && c'[i].id == t'[m] && Kept(c', e', i);
      } else {
        AddedIsKept(entries, initial, c, k, v, id);
        assert 0 <= |c| < |c'| && c'[|c|].id == t'[m] && Kept(c', e', |c|);
      }
    }
  }

  /** Every kept row of the grown table was touched: the old kept rows before, the created one now. */
  lemma AddedKeptAreTouched<K, V, X>(entries: seq<(K, V)>, initial: X, c: seq<Row<K, V, X>>, t: seq<nat>, k: K, v: V, id: nat)
    requires KeptAreTouched(c, entries, t)
    requires k !in KeysOf(c)
    ensures KeptAreTouched(c + [Row(id, k, v, initial)], entries + [(k, v)], t + [id])
  {
    var e' := entries + [(k, v)];
    var c' := c + [Row(id, k, v, initial)];
    var t' := t + [id];
    forall i | 0 <= i < |c + [Row(id, k, v, initial)]| && Kept(c + [Row(id, k, v, initial)], entries + [(k, v)], i)
      ensures (c + [Row(id, k, v, initial)])[i].id in t + [id]
    {
      if i < |c| {
        AddedKeepsOld(entries, initial, c, k, v, id, i);
        assert c'[i] == c[i] && c[i].id in t;
      } else {
        assert t'[|t|] == id;
      }
    }
  }

  /** Creating a row for an absent key keeps touched ids and kept rows in step. */
  lemma AddedTouched<K, V, X>(entries: seq<(K, V)>, initial: X, c: seq<Row<K, V, X>>, t: seq<nat>, k: K, v: V, n: nat)
    requires TouchedAreKept(c, entries, t) && KeptAreTouched(c, entries, t)
    requires k !in KeysOf(c)
    ensures TouchedAreKept(c + [Row(n, k, v, initial)], entries + [(k, v)], t + [n])
    ensures KeptAreTouched(c + [Row(n, k, v, initial)], entries + [(k, v)], t + [n])
  {
    AddedTouchedAreKept(entries, initial, c, t, k, v, n);
    AddedKeptAreTouched(entries, initial, c, t, k, v, n);
  }

  /** One more upsert keeps the closed form. */
  lemma ShapeStep<K(!new), V, X>(rows: seq<Row<K, V, X>>, entries: seq<(K, V)>, initial: X,
                                 c: seq<Row<K, V, X>>, t: seq<nat>, k: K, v: V)
    requires Shape(rows, entries, initial, c, t)
    ensures Shape(rows, entries + [(k, v)], initial, Upsert(c, k, v, initial).0, t + [Upsert(c, k, v, initial).1])
  {
    match FirstWithKey(c, k)
    case Some(p) =>
      FoundOld(rows, entries, initial, c, k, v, p);
      FoundNew(rows, entries, initial, c, k, v, p);
      FoundCovers(entries, c, k, v, p);
      FoundTouched(entries, c, t, k, v, p);
    case None =>
      var n := NextId(c);
      AddedOld(rows, entries, initial, c, k, v, n);
      AddedNew(rows, entries, initial, c, k, v, n);
      AddedCovers(entries, initial, c, k, v, n);
      AddedTouched(entries, initial, c, t, k, v, n);
  }

  /** The upsert phase, in closed form. */
  lemma {:induction false} UpsertAllShape<K(!new), V, X>(rows: seq<Row<K, V, X>>, entries: seq<(K, V)>, initial: X)
    requires IdsAscending(rows)
    ensures Shape(rows, entries, initial, UpsertAll(rows, entries, initial).0, UpsertAll(rows, entries, initial).1)
    decreases |entries|
  {
    if |entries| == 0 {
      ShapeEmpty(rows, initial);
    } else {
      var init := entries[..|entries| - 1];
      var (k, v) := entries[|entries| - 1];
      assert init + [(k, v)] == entries;
      UpsertAllShape(rows, init, initial);
      var (c, t) := UpsertAll(rows, init, initial);
      assert UpsertAll(rows, entries, initial) == (Upsert(c, k, v, initial).0, t + [Upsert(c, k, v, initial).1]);
      ShapeStep(rows, init, initial, c, t, k, v);
    }
  }

  // ---------------------------------------------------------------------
  // What a whole sync pass guarantees.
  // ---------------------------------------------------------------------

  /** The sweep keeps exactly the rows the upsert phase found or created. */
  lemma SweepOfShape<K, V, X>(entries: seq<(K, V)>, c: seq<Row<K, V, X>>, t: seq<nat>)
    requires IdsAscending(c) && TouchedAreKept(c, entries, t) && KeptAreTouched(c, entries, t)
    ensures forall j :: 0 <= j < |Sweep(c, t)| ==> exists i :: 0 <= i < |c| && Sweep(c, t)[j] == c[i] && Kept(c, entries, i)
    ensures forall i :: 0 <= i < |c| && Kept(c, entries, i) ==> c[i] in Sweep(c, t)
  {
    var r := Sweep(c, t);
    forall j | 0 <= j < |r| ensures exists i :: 0 <= i < |c| && r[j] == c[i] && Kept(c, entries, i) {
      var i :| 0 <= i < |c| && c[i] == r[j];
      var n :| 0 <= n < |t| && t[n] == r[j].id;
      assert IdKept(c, entries, t[n]);
      var i' :| 0 <= i' < |c| && c[i'].id == t[n] && Kept(c, entries, i');
      assert c[i].id == c[i'].id;
      assert i == i';
      assert r[j] == c[i'] && Kept(c, entries, i');
    }
    assert forall j :: 0 <= j < |r| ==> exists i :: 0 <= i < |c| && r[j] == c[i] && Kept(c, entries, i);
  }

  /** A sweep that touched every row destroys nothing. */
  lemma {:induction false} SweepKeepsAll<K, V, X>(rows: seq<Row<K, V, X>>, t: seq<nat>)
    requires forall i :: 0 <= i < |rows| ==> rows[i].id in t
    ensures Sweep(rows, t) == rows
    decreases |rows|
  {
    if |rows| > 0 {
      assert forall i :: 0 <= i < |rows[1..]| ==> rows[1..][i] == rows[i + 1];
      SweepKeepsAll(rows[1..], t);
      assert [rows[0]] + rows[1..] == rows;
    }
  }

  /**
   * After a sync pass the table holds exactly one row per reported key, in
   * primary-key order, each carrying the LAST value reported for its key.
   */
  lemma SyncOneRowPerKey<K(!new), V, X>(rows: seq<Row<K, V, X>>, entries: seq<(K, V)>, initial: X)
    requires IdsAscending(rows)
    ensures IdsAscending(Sync(rows, entries, initial))
    ensures KeysUnique(Sync(rows, entries, initial))
    ensures forall j :: 0 <= j < |Sync(rows, entries, initial)| ==>
              LastValueFor(entries, Sync(rows, entries, initial)[j].key) == Some(Sync(rows, entries, initial)[j].value)
    ensures forall k :: LastValueFor(entries, k).Some? ==> k in KeysOf(Sync(rows, entries, initial))
  {
    UpsertAllShape(rows, entries, initial);
    var (c, t) := UpsertAll(rows, entries, initial);
    var r := Sweep(c, t);
    assert r == Sync(rows, entries, initial);
    SweepOfShape(entries, c, t);
    PrefixAgrees(rows, entries, c);
    assert IdsAscending(r);
    forall j, j' | 0 <= j < j' < |r| ensures r[j].key != r[j'].key {
      var i :| 0 <= i < |c| && r[j] == c[i] && Kept(c, entries, i);
      var i' :| 0 <= i' < |c| && r[j'] == c[i'] && Kept(c, entries, i');
      assert r[j].id < r[j'].id;
      assert i != i';
    }
    forall j | 0 <= j < |r| ensures LastValueFor(entries, r[j].key) == Some(r[j].value) {
      var i :| 0 <= i < |c| && r[j] == c[i] && Kept(c, entries, i);
      if i < |rows| {
        assert IsFirst(rows, i);
      }
    }
    forall k | LastValueFor(entries, k).Some? ensures k in KeysOf(r) {
      var p := FirstWithKey(c, k).value;
      assert Kept(c, entries, p);
      assert c[p] in r;
      var j :| 0 <= j < |r| && r[j] == c[p];
      assert KeysOf(r)[j] == k;
    }
    assert KeysUnique(r);
    assert forall j :: 0 <= j < |r| ==> LastValueFor(entries, r[j].key) == Some(r[j].value);
    assert forall k :: LastValueFor(entries, k).Some? ==> k in KeysOf(r);
  }

  /**
   * Identity across a sync pass: the lowest-id row of a reported key survives
   * with only its value changed; any other surviving pre-existing id is such a
   * row; a row with a new id was created for a key that had no row at all.
   */
  lemma SyncKeepsIdentity<K(!new), V, X>(rows: seq<Row<K, V, X>>, entries: seq<(K, V)>, initial: X)
    requires IdsAscending(rows)
    ensures forall i :: 0 <= i < |rows| && IsFirst(rows, i) && LastValueFor(entries, rows[i].key).Some? ==>
              rows[i].(value := LastValueFor(entries, rows[i].key).value) in Sync(rows, entries, initial)
    ensures forall i, j :: 0 <= i < |rows| && 0 <= j < |Sync(rows, entries, initial)| && Sync(rows, entries, initial)[j].id == rows[i].id ==>
              IsFirst(rows, i) && Sync(rows, entries, initial)[j] == rows[i].(value := Sync(rows, entries, initial)[j].value)
    ensures forall j :: 0 <= j < |Sync(rows, entries, initial)| && Sync(rows, entries, initial)[j].id !in IdsOf(rows) ==>
              Sync(rows, entries, initial)[j].attrs == initial && Sync(rows, entries, initial)[j].key !in KeysOf(rows)
  {
    UpsertAllShape(rows, entries, initial);
    var (c, t) := UpsertAll(rows, entries, initial);
    var r := Sweep(c, t);
    assert r == Sync(rows, entries, initial);
    SweepOfShape(entries, c, t);
    PrefixAgrees(rows, entries, c);
    forall i | 0 <= i < |rows| && IsFirst(rows, i) && LastValueFor(entries, rows[i].key).Some?
      ensures rows[i].(value := LastValueFor(entries, rows[i].key).value) in r
    {
      assert Kept(c, entries, i);
    }
    forall i, j | 0 <= i < |rows| && 0 <= j < |r| && r[j].id == rows[i].id
      ensures IsFirst(rows, i) && r[j] == rows[i].(value := r[j].value)
    {
      var m :| 0 <= m < |c| && r[j] == c[m] && Kept(c, entries, m);
      assert m == i;
    }
    assert forall x :: 0 <= x < |rows| ==> rows[x].id in IdsOf(rows);
    forall j | 0 <= j < |r| && r[j].id !in IdsOf(rows)
      ensures r[j].attrs == initial && r[j].key !in KeysOf(rows)
    {
      var m :| 0 <= m < |c| && r[j] == c[m] && Kept(c, entries, m);
      assert m >= |rows|;
    }
  }

  /** What `NewRowsCreated` says about one appended row. */
  lemma NewRowFacts<K, V, X>(rows: seq<Row<K, V, X>>, entries: seq<(K, V)>, initial: X, c: seq<Row<K, V, X>>, i: int)
    requires NewRowsCreated(rows, entries, initial, c)
    requires |rows| <= i < |c|
    ensures c[i].key !in KeysOf(rows) && LastValueFor(entries, c[i].key).Some?
  {
  }

  /** Running the same pass twice leaves the table exactly as the first run left it. */
  lemma SyncIdempotent<K(!new), V, X>(rows: seq<Row<K, V, X>>, entries: seq<(K, V)>, initial: X)
    requires IdsAscending(rows)
    ensures Sync(Sync(rows, entries, initial), entries, initial) == Sync(rows, entries, initial)
  {
    var r := Sync(rows, entries, initial);
    SyncOneRowPerKey(rows, entries, initial);
    UpsertAllShape(r, entries, initial);
    var (c, t) := UpsertAll(r, entries, initial);
    if |c| > |r| {
      NewRowFacts(r, entries, initial, c, |r|);
      assert false;
    }
    forall i | 0 <= i < |r| ensures c[i] == r[i] {
      assert IsFirst(r, i);
    }
    assert c == r;
    forall i | 0 <= i < |r| ensures r[i].id in t {
      assert IsFirst(r, i);
      assert Kept(c, entries, i);
    }
    SweepKeepsAll(r, t);
  }
}
