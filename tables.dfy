/** A store's in-memory SQLite table, seen as a map from its key columns to its
    row, and the two things done with whole tables: listing the rows in key
    order and upserting a sequence of rows one after the other. */
module Tables {
  import opened Ordering

  /** Every row sits under its own key. */
  ghost predicate Keyed<K, V>(t: map<K, V>, key: V -> K) {
    forall k :: k in t ==> key(t[k]) == k
  }

  /** The rows of `t` in ascending key order: the result of `SELECT … ORDER BY` the key. */
  ghost function Listing<K(!new), V>(t: map<K, V>, less: (K, K) -> bool): (r: seq<V>)
    requires StrictTotalOrder(less)
  {
    var keys := Ordered(t.Keys, less);
    seq(|keys|, i requires 0 <= i < |keys| => t[keys[i]])
  }

  /** The listing holds every row of the table once, in strictly ascending key order. */
  lemma ListingSpec<K(!new), V>(t: map<K, V>, less: (K, K) -> bool, key: V -> K)
    requires StrictTotalOrder(less) && Keyed(t, key)
    ensures |Listing(t, less)| == |t.Keys|
    ensures forall i, j :: 0 <= i < j < |Listing(t, less)| ==> less(key(Listing(t, less)[i]), key(Listing(t, less)[j]))
    ensures forall k :: k in t <==> exists i :: 0 <= i < |Listing(t, less)| && key(Listing(t, less)[i]) == k
    ensures forall i :: 0 <= i < |Listing(t, less)| ==>
      key(Listing(t, less)[i]) in t && t[key(Listing(t, less)[i])] == Listing(t, less)[i]
  {
    ListingRows(t, less, key);
    ListingCovers(t, less, key);
  }

  /** Row `i` of the listing is the row under the `i`-th key in order. */
  lemma ListingRows<K(!new), V>(t: map<K, V>, less: (K, K) -> bool, key: V -> K)
    requires StrictTotalOrder(less) && Keyed(t, key)
    ensures var keys := Ordered(t.Keys, less);
      |Listing(t, less)| == |keys| == |t.Keys|
      && (forall i :: 0 <= i < |keys| ==> keys[i] in t && key(Listing(t, less)[i]) == keys[i] && Listing(t, less)[i] == t[keys[i]])
      && (forall i, j :: 0 <= i < j < |keys| ==> less(keys[i], keys[j]))
  {
    var keys := Ordered(t.Keys, less);
    assert forall i :: 0 <= i < |keys| ==> keys[i] in t by {
      assert Elements(keys) == t.Keys;
    }
  }

  /** Every key of the table is the key of some row of the listing. */
  lemma ListingCovers<K(!new), V>(t: map<K, V>, less: (K, K) -> bool, key: V -> K)
    requires StrictTotalOrder(less) && Keyed(t, key)
    ensures forall k :: k in t ==> exists i :: 0 <= i < |Listing(t, less)| && key(Listing(t, less)[i]) == k
  {
    var keys := Ordered(t.Keys, less);
    var r := Listing(t, less);
    forall k | k in t ensures exists i :: 0 <= i < |r| && key(r[i]) == k {
      assert k in Elements(keys);
      var i :| 0 <= i < |keys| && keys[i] == k;
      assert key(r[i]) == k;
    }
  }

  /** Runs the query: orders the key set, then builds the result row by row. */
  method ListRows<K(==,!new), V>(t: map<K, V>, less: (K, K) -> bool) returns (rows: seq<V>)
    requires StrictTotalOrder(less)
    ensures rows == Listing(t, less)
  {
    var keys := Sort(t.Keys, less);
    assert forall i :: 0 <= i < |keys| ==> keys[i] in t by {
      assert Elements(keys) == t.Keys;
    }
    rows := [];
    for i := 0 to |keys|
      invariant |rows| == i
      invariant forall j :: 0 <= j < i ==> rows[j] == t[keys[j]]
    {
      rows := rows + [t[keys[i]]];
    }
  }

  /** Registers `rows` in order, each replacing the row under its key. */
  function UpsertAll<K, V>(t: map<K, V>, rows: seq<V>, key: V -> K): map<K, V>
    decreases |rows|
  {
    if rows == [] then t
    else UpsertAll(t[key(rows[0]) := rows[0]], rows[1..], key)
  }

  /** Upserting keeps every key of the table and adds the key of every row. */
  lemma {:induction false} UpsertAllKeys<K, V>(t: map<K, V>, rows: seq<V>, key: V -> K)
    ensures UpsertAll(t, rows, key).Keys == t.Keys + set i | 0 <= i < |rows| :: key(rows[i])
    decreases |rows|
  {
    if rows != [] {
      UpsertAllKeys(t[key(rows[0]) := rows[0]], rows[1..], key);
      var rest := set i | 0 <= i < |rows[1..]| :: key(rows[1..][i]);
      var all := set i | 0 <= i < |rows| :: key(rows[i]);
      assert all == {key(rows[0])} + rest by {
        forall x | x in all ensures x in {key(rows[0])} + rest {
          var i :| 0 <= i < |rows| && x == key(rows[i]);
          if i > 0 {
            assert x == key(rows[1..][i - 1]);
          }
        }
        forall x | x in rest ensures x in all {
          var i :| 0 <= i < |rows[1..]| && x == key(rows[1..][i]);
          assert x == key(rows[i + 1]);
        }
      }
    }
  }

  /** Upserting a batch of rows is merging the batch, later rows winning, over the table. */
  lemma {:induction false} UpsertAllMerge<K, V>(t: map<K, V>, rows: seq<V>, key: V -> K)
    ensures UpsertAll(t, rows, key) == t + UpsertAll(map[], rows, key)
    decreases |rows|
  {
    if rows != [] {
      var k := key(rows[0]);
      UpsertAllMerge(t[k := rows[0]], rows[1..], key);
      UpsertAllMerge(map[k := rows[0]], rows[1..], key);
      assert t[k := rows[0]] == t + map[k := rows[0]];
      var rest := UpsertAll(map[], rows[1..], key);
      assert (t + map[k := rows[0]]) + rest == t + (map[k := rows[0]] + rest);
    }
  }

  /** Upserting the same rows twice leaves the table as upserting them once. */
  lemma UpsertAllIdempotent<K, V>(t: map<K, V>, rows: seq<V>, key: V -> K)
    ensures UpsertAll(UpsertAll(t, rows, key), rows, key) == UpsertAll(t, rows, key)
  {
    var m := UpsertAll(map[], rows, key);
    UpsertAllMerge(t, rows, key);
    UpsertAllMerge(UpsertAll(t, rows, key), rows, key);
    assert (t + m) + m == t + m;
  }

  /** The rows under distinct keys `ks`, upserted in that order, add exactly those
      entries of the table. */
  lemma {:induction false} UpsertKeys<K, V>(u: map<K, V>, t: map<K, V>, ks: seq<K>, key: V -> K)
    requires Keyed(t, key)
    requires forall i :: 0 <= i < |ks| ==> ks[i] in t
    requires forall i, j :: 0 <= i < j < |ks| ==> ks[i] != ks[j]
    ensures UpsertAll(u, seq(|ks|, i requires 0 <= i < |ks| => t[ks[i]]), key)
         == u + map k | k in Elements(ks) :: t[k]
    decreases |ks|
  {
    var rows := seq(|ks|, i requires 0 <= i < |ks| => t[ks[i]]);
    if ks != [] {
      var k := ks[0];
      var tail := ks[1..];
      var rest := seq(|tail|, i requires 0 <= i < |tail| => t[tail[i]]);
      assert rows[0] == t[k] && key(rows[0]) == k;
      assert rows[1..] == rest;
      UpsertKeys(u[k := t[k]], t, tail, key);
      assert Elements(ks) == {k} + Elements(tail) by {
        assert ks == [k] + tail;
      }
      MergeStep(u, t, k, Elements(tail));
    } else {
      assert Elements(ks) == {};
    }
  }

  lemma MergeStep<K, V>(u: map<K, V>, t: map<K, V>, k: K, s: set<K>)
    requires k in t && s <= t.Keys
    ensures u[k := t[k]] + (map x | x in s :: t[x]) == u + (map x | x in {k} + s :: t[x])
  {
  }

  /** The keys of a listing, in order, are the table's keys, each once. */
  lemma OrderedKeys<K(!new), V>(t: map<K, V>, less: (K, K) -> bool)
    requires StrictTotalOrder(less)
    ensures var keys := Ordered(t.Keys, less);
      Elements(keys) == t.Keys
      && (forall i :: 0 <= i < |keys| ==> keys[i] in t)
      && (forall i, j :: 0 <= i < j < |keys| ==> keys[i] != keys[j])
  {
    var keys := Ordered(t.Keys, less);
    forall i, j | 0 <= i < j < |keys| ensures keys[i] != keys[j] {
      assert less(keys[i], keys[j]);
    }
  }

  lemma MapOfKeys<K, V>(t: map<K, V>, ks: set<K>)
    requires ks == t.Keys
    ensures (map k | k in ks :: t[k]) == t
  {
  }

  /** Upserting a table's own listing merges the table in: into an empty
      table it rebuilds the original. */
  lemma ListingRestores<K(!new), V>(u: map<K, V>, t: map<K, V>, less: (K, K) -> bool, key: V -> K)
    requires StrictTotalOrder(less) && Keyed(t, key)
    ensures UpsertAll(u, Listing(t, less), key) == u + t
  {
    var keys := Ordered(t.Keys, less);
    var rows := seq(|keys|, i requires 0 <= i < |keys| => t[keys[i]]);
    assert Listing(t, less) == rows;
    assert UpsertAll(u, rows, key) == u + map k | k in Elements(keys) :: t[k] by {
      OrderedKeys(t, less);
      UpsertKeys(u, t, keys, key);
    }
    assert (map k | k in Elements(keys) :: t[k]) == t by {
      OrderedKeys(t, less);
      MapOfKeys(t, Elements(keys));
    }
  }

  /** Upserting `a + b` is upserting `a`, then `b`. */
  lemma {:induction false} UpsertAllAppend<K, V>(t: map<K, V>, a: seq<V>, b: seq<V>, key: V -> K)
    ensures UpsertAll(t, a + b, key) == UpsertAll(UpsertAll(t, a, key), b, key)
    decreases |a|
  {
    if a != [] {
      assert (a + b)[0] == a[0] && (a + b)[1..] == a[1..] + b;
      UpsertAllAppend(t[key(a[0]) := a[0]], a[1..], b, key);
    } else {
      assert a + b == b;
    }
  }

  /** Upserting keeps every row under its own key. */
  lemma {:induction false} UpsertAllKeyed<K, V>(t: map<K, V>, rows: seq<V>, key: V -> K)
    requires Keyed(t, key)
    ensures Keyed(UpsertAll(t, rows, key), key)
    decreases |rows|
  {
    if rows != [] {
      UpsertAllKeyed(t[key(rows[0]) := rows[0]], rows[1..], key);
    }
  }

  /** Every row of an upserted table was either there before or is one of the upserted rows. */
  lemma {:induction false} UpsertAllFrom<K, V>(t: map<K, V>, rows: seq<V>, key: V -> K, k: K)
    requires k in UpsertAll(t, rows, key)
    ensures (k in t && UpsertAll(t, rows, key)[k] == t[k]) || exists i :: 0 <= i < |rows| && UpsertAll(t, rows, key)[k] == rows[i]
    decreases |rows|
  {
    if rows != [] {
      var t' := t[key(rows[0]) := rows[0]];
      var r := UpsertAll(t, rows, key);
      assert r == UpsertAll(t', rows[1..], key);
      UpsertAllFrom(t', rows[1..], key, k);
      if exists i :: 0 <= i < |rows[1..]| && r[k] == rows[1..][i] {
        var i :| 0 <= i < |rows[1..]| && r[k] == rows[1..][i];
        assert r[k] == rows[i + 1];
      } else if k == key(rows[0]) {
        assert r[k] == rows[0];
      }
    }
  }

  function MapSeq<A, B>(s: seq<A>, f: A -> B): (r: seq<B>)
    ensures |r| == |s| && forall i :: 0 <= i < |s| ==> r[i] == f(s[i])
  {
    seq(|s|, i requires 0 <= i < |s| => f(s[i]))
  }

  lemma MapSeqAppend<A, B>(a: seq<A>, b: seq<A>, f: A -> B)
    ensures MapSeq(a + b, f) == MapSeq(a, f) + MapSeq(b, f)
  {
  }

  /** The table with `f` applied to every row. */
  function MapValues<K, V>(t: map<K, V>, f: V -> V): (r: map<K, V>)
    ensures r.Keys == t.Keys && forall k :: k in t ==> r[k] == f(t[k])
  {
    map k | k in t :: f(t[k])
  }

  /** Listing a table whose rows were rewritten in place lists the rewritten rows in the same order. */
  lemma ListingMapValues<K(!new), V>(t: map<K, V>, f: V -> V, less: (K, K) -> bool)
    requires StrictTotalOrder(less)
    ensures Listing(MapValues(t, f), less) == MapSeq(Listing(t, less), f)
  {
    var keys := Ordered(t.Keys, less);
    assert MapValues(t, f).Keys == t.Keys;
    assert forall i :: 0 <= i < |keys| ==> keys[i] in t by {
      assert Elements(keys) == t.Keys;
    }
  }

  /** Rewriting every row of a keyed table by a key-preserving `f` keeps it keyed. */
  lemma MapValuesKeyed<K, V>(t: map<K, V>, f: V -> V, key: V -> K)
    requires Keyed(t, key)
    requires forall k :: k in t ==> key(f(t[k])) == key(t[k])
    ensures Keyed(MapValues(t, f), key)
  {
    forall k | k in MapValues(t, f) ensures key(MapValues(t, f)[k]) == k {
      assert MapValues(t, f)[k] == f(t[k]);
    }
  }

  /** Upserting a keyed table's listing into an empty table rebuilds it. */
  lemma ListingRebuilds<K(!new), V>(t: map<K, V>, less: (K, K) -> bool, key: V -> K)
    requires StrictTotalOrder(less) && Keyed(t, key)
    ensures UpsertAll(map[], Listing(t, less), key) == t
  {
    ListingRestores(map[], t, less, key);
    assert map[] + t == t;
  }

  /** Upserting a table's listing, each row rewritten by a key-preserving `f`,
      into an empty table gives the table with every row rewritten. */
  lemma ListingRestoresMapped<K(!new), V>(t: map<K, V>, f: V -> V, less: (K, K) -> bool, key: V -> K)
    requires StrictTotalOrder(less) && Keyed(t, key)
    requires forall k :: k in t ==> key(f(t[k])) == key(t[k])
    ensures UpsertAll(map[], MapSeq(Listing(t, less), f), key) == MapValues(t, f)
  {
    ListingMapValues(t, f, less);
    MapValuesKeyed(t, f, key);
    ListingRebuilds(MapValues(t, f), less, key);
  }
}
