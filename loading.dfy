/** The loop every `load` runs once its document has passed the schema: decode
    the entries one after the other and register each, stopping at the first
    entry that does not decode. What was registered before that entry stays:
    the loop is not all-or-nothing. */
module Loading {
  import opened Results
  import opened Tables

  /** Decodes and registers `entries` in order; the error of the first entry
      that fails to decode ends the load. */
  function LoadEach<E, K, V>(t: map<K, V>, entries: seq<E>, decode: E -> Result<V>, key: V -> K): (map<K, V>, Outcome)
    decreases |entries|
  {
    if entries == [] then (t, Pass)
    else match decode(entries[0])
      case Failure(err) => (t, Fail(err))
      case Success(v) => LoadEach(t[key(v) := v], entries[1..], decode, key)
  }

  /** The records decoded before the first entry that fails to decode: all of them when none fails. */
  function DecodedPrefix<E, V>(entries: seq<E>, decode: E -> Result<V>): (r: seq<V>)
    ensures |r| <= |entries|
    ensures forall i :: 0 <= i < |r| ==> decode(entries[i]) == Success(r[i])
    ensures |r| < |entries| ==> decode(entries[|r|]).Failure?
    decreases |entries|
  {
    if entries == [] then []
    else match decode(entries[0])
      case Failure(_) => []
      case Success(v) =>
        var rest := DecodedPrefix(entries[1..], decode);
        assert forall i :: 1 <= i < |rest| + 1 ==> entries[i] == entries[1..][i - 1];
        [v] + rest
  }

  lemma {:induction false} LoadEachUpserts<E, K, V>(t: map<K, V>, entries: seq<E>, decode: E -> Result<V>, key: V -> K, vs: seq<V>)
    requires |vs| <= |entries|
    requires forall i :: 0 <= i < |vs| ==> decode(entries[i]) == Success(vs[i])
    requires |vs| < |entries| ==> decode(entries[|vs|]).Failure?
    ensures LoadEach(t, entries, decode, key)
         == (UpsertAll(t, vs, key), if |vs| == |entries| then Pass else Fail(decode(entries[|vs|]).error))
    decreases |vs|
  {
    if vs != [] {
      LoadEachUpserts(t[key(vs[0]) := vs[0]], entries[1..], decode, key, vs[1..]);
    }
  }

  /** What a load does to the table: it upserts the records decoded before the
      first failing entry, and passes exactly when no entry fails, failing
      otherwise with that entry's error. */
  lemma LoadEachSpec<E, K, V>(t: map<K, V>, entries: seq<E>, decode: E -> Result<V>, key: V -> K)
    ensures LoadEach(t, entries, decode, key)
         == (UpsertAll(t, DecodedPrefix(entries, decode), key),
             if |DecodedPrefix(entries, decode)| == |entries| then Pass
             else Fail(decode(entries[|DecodedPrefix(entries, decode)|]).error))
  {
    LoadEachUpserts(t, entries, decode, key, DecodedPrefix(entries, decode));
  }

  /** Loading entries that all decode upserts the decoded records in order and passes. */
  lemma LoadEachDecoded<E, K, V>(t: map<K, V>, entries: seq<E>, decode: E -> Result<V>, key: V -> K, vs: seq<V>)
    requires |vs| == |entries| && forall i :: 0 <= i < |vs| ==> decode(entries[i]) == Success(vs[i])
    ensures LoadEach(t, entries, decode, key) == (UpsertAll(t, vs, key), Pass)
  {
    LoadEachUpserts(t, entries, decode, key, vs);
  }

  /** Loading the same entries a second time after a load that passed changes nothing. */
  lemma LoadEachIdempotent<E, K, V>(t: map<K, V>, entries: seq<E>, decode: E -> Result<V>, key: V -> K)
    requires LoadEach(t, entries, decode, key).1 == Pass
    ensures LoadEach(LoadEach(t, entries, decode, key).0, entries, decode, key) == LoadEach(t, entries, decode, key)
  {
    var vs := DecodedPrefix(entries, decode);
    LoadEachSpec(t, entries, decode, key);
    LoadEachSpec(UpsertAll(t, vs, key), entries, decode, key);
    UpsertAllIdempotent(t, vs, key);
  }

  /** Loads documents one after the other with `load`, stopping at the first that fails. */
  function LoadAll<D, K, V>(t: map<K, V>, docs: seq<D>, load: (map<K, V>, D) -> (map<K, V>, Outcome)): (map<K, V>, Outcome)
    decreases |docs|
  {
    if docs == [] then (t, Pass)
    else
      var (next, outcome) := load(t, docs[0]);
      if outcome.Fail? then (next, outcome) else LoadAll(next, docs[1..], load)
  }
}
