/** How a store's listing is split over files: `itertools.batched(rows, 50000)`,
    batch `i` going to the path `Paths.BatchPath(file, i)`. */
module Batching {
  import opened Results
  import opened Paths

  /** The most entries one sitemap file may hold under the sitemaps.org protocol. */
  const MaxEntriesPerFile: nat := 50000

  /** `itertools.batched(s, n)`: consecutive slices of `n`, the last one possibly shorter. */
  function Batches<T>(s: seq<T>, n: nat): seq<seq<T>>
    requires n > 0
    decreases |s|
  {
    if s == [] then []
    else if |s| <= n then [s]
    else [s[..n]] + Batches(s[n..], n)
  }

  function Flatten<T>(ss: seq<seq<T>>): seq<T> {
    if ss == [] then [] else ss[0] + Flatten(ss[1..])
  }

  /** An element of a batch is an element of the flattened sequence. */
  lemma {:induction false} FlattenMember<T>(ss: seq<seq<T>>, i: nat, j: nat)
    requires i < |ss| && j < |ss[i]|
    ensures ss[i][j] in Flatten(ss)
    decreases i
  {
    if i > 0 {
      FlattenMember(ss[1..], i - 1, j);
    }
  }

  /** The batches, put back together, are the input in its order. */
  lemma {:induction false} BatchesFlatten<T>(s: seq<T>, n: nat)
    requires n > 0
    ensures Flatten(Batches(s, n)) == s
    decreases |s|
  {
    if |s| > n {
      BatchesFlatten(s[n..], n);
      assert Batches(s, n)[1..] == Batches(s[n..], n);
      assert s == s[..n] + s[n..];
    }
  }

  /** Every batch is non-empty and at most `n` long; all but the last hold exactly `n`. */
  lemma {:induction false} BatchesSizes<T>(s: seq<T>, n: nat)
    requires n > 0
    ensures forall i :: 0 <= i < |Batches(s, n)| ==> 0 < |Batches(s, n)[i]| <= n
    ensures forall i :: 0 <= i < |Batches(s, n)| - 1 ==> |Batches(s, n)[i]| == n
    decreases |s|
  {
    if |s| > n {
      BatchesSizes(s[n..], n);
      var r := Batches(s, n);
      assert forall i :: 1 <= i < |r| ==> r[i] == Batches(s[n..], n)[i - 1];
    }
  }

  /** An input longer than `k` full batches and no longer than `k + 1` makes
      exactly `k + 1` batches. */
  lemma {:induction false} BatchesCount<T>(s: seq<T>, n: nat, k: nat)
    requires n > 0 && k * n < |s| <= (k + 1) * n
    ensures |Batches(s, n)| == k + 1
    decreases k
  {
    if k > 0 {
      assert (k - 1) * n < |s| - n <= k * n;
      BatchesCount(s[n..], n, k - 1);
    }
  }

  /** One written file: where it went and the entries it holds. */
  datatype FileBatch<T> = FileBatch(file: FilePath, entries: seq<T>)

  /** The files a save writes, in order; the `ValueError` of the first batch
      whose path cannot be formed replaces the whole list. */
  function PlanFiles<T>(file: FilePath, entries: seq<T>): (r: Result<seq<FileBatch<T>>>)
    ensures r.Success? ==> |r.value| == |Batches(entries, MaxEntriesPerFile)|
  {
    var bs := Batches(entries, MaxEntriesPerFile);
    if exists i :: 0 <= i < |bs| && BatchPath(file, i).Failure? then Failure(PathError)
    else Success(seq(|bs|, i requires 0 <= i < |bs| => FileBatch(BatchPath(file, i).value, bs[i])))
  }

  /** Taking the next batch off the rest of the input moves it to the batches already taken. */
  lemma BatchesPeel<T>(bs: seq<seq<T>>, index: nat, rest: seq<T>, batch: seq<T>)
    requires rest != [] && index <= |bs| && bs[index..] == Batches(rest, MaxEntriesPerFile)
    requires batch == if |rest| <= MaxEntriesPerFile then rest else rest[..MaxEntriesPerFile]
    ensures index < |bs| && bs[index] == batch
    ensures bs[index + 1..] == Batches(rest[|batch|..], MaxEntriesPerFile)
  {
    assert Batches(rest, MaxEntriesPerFile) == [batch] + Batches(rest[|batch|..], MaxEntriesPerFile);
    assert bs[index + 1..] == bs[index..][1..];
  }

  /** The first `index` files of the plan for `bs` have been written to `written`. */
  ghost predicate WrittenSoFar<T>(file: FilePath, bs: seq<seq<T>>, written: seq<FileBatch<T>>, index: nat)
  {
    index == |written| <= |bs|
    && (forall i :: 0 <= i < index ==> BatchPath(file, i).Success?)
    && (forall i :: 0 <= i < index ==> written[i] == FileBatch(BatchPath(file, i).value, bs[i]))
  }

  lemma WrittenSoFarStep<T>(file: FilePath, bs: seq<seq<T>>, written: seq<FileBatch<T>>, index: nat)
    requires WrittenSoFar(file, bs, written, index) && index < |bs| && BatchPath(file, index).Success?
    ensures WrittenSoFar(file, bs, written + [FileBatch(BatchPath(file, index).value, bs[index])], index + 1)
  {
  }

  lemma WrittenSoFarDone<T>(file: FilePath, entries: seq<T>, written: seq<FileBatch<T>>)
    requires WrittenSoFar(file, Batches(entries, MaxEntriesPerFile), written, |Batches(entries, MaxEntriesPerFile)|)
    ensures PlanFiles(file, entries) == Success(written)
  {
    var bs := Batches(entries, MaxEntriesPerFile);
    assert written == seq(|bs|, i requires 0 <= i < |bs| => FileBatch(BatchPath(file, i).value, bs[i]));
  }

  lemma PlanFilesFails<T>(file: FilePath, entries: seq<T>, index: nat)
    requires index < |Batches(entries, MaxEntriesPerFile)| && BatchPath(file, index).Failure?
    ensures PlanFiles(file, entries) == Failure(PathError)
  {
  }

  /** The `for index, batch in enumerate(itertools.batched(...))` loop of every `save_files`. */
  method SaveBatches<T>(file: FilePath, entries: seq<T>) returns (r: Result<seq<FileBatch<T>>>)
    ensures r == PlanFiles(file, entries)
  {
    ghost var bs := Batches(entries, MaxEntriesPerFile);
    var written: seq<FileBatch<T>> := [];
    var rest := entries;
    var index := 0;
    while rest != []
      invariant WrittenSoFar(file, bs, written, index)
      invariant bs[index..] == Batches(rest, MaxEntriesPerFile)
      decreases |rest|
    {
      var batch := if |rest| <= MaxEntriesPerFile then rest else rest[..MaxEntriesPerFile];
      BatchesPeel(bs, index, rest, batch);
      var path := BatchPath(file, index);
      if path.Failure? {
        PlanFilesFails(file, entries, index);
        return Failure(PathError);
      }
      WrittenSoFarStep(file, bs, written, index);
      written := written + [FileBatch(path.value, batch)];
      rest := rest[|batch|..];
      index := index + 1;
    }
    assert index == |bs|;
    WrittenSoFarDone(file, entries, written);
    return Success(written);
  }

  /** 100001 entries make three files. */
  lemma ThreeFilesExample<T>(s: seq<T>)
    requires |s| == 100001
    ensures |Batches(s, MaxEntriesPerFile)| == 3
  {
    BatchesCount(s, MaxEntriesPerFile, 2);
  }

  function Contents<T>(files: seq<FileBatch<T>>): seq<seq<T>> {
    seq(|files|, i requires 0 <= i < |files| => files[i].entries)
  }

  /** What a successful save writes: every entry once and in order across the
      files, at most `MaxEntriesPerFile` per file and none empty, every file at a
      path of its own, and no file at all for no entries. */
  lemma PlanFilesSpec<T>(file: FilePath, entries: seq<T>)
    requires PlanFiles(file, entries).Success?
    ensures Flatten(Contents(PlanFiles(file, entries).value)) == entries
    ensures forall i :: 0 <= i < |PlanFiles(file, entries).value| ==>
      0 < |PlanFiles(file, entries).value[i].entries| <= MaxEntriesPerFile
    ensures forall i, j :: 0 <= i < j < |PlanFiles(file, entries).value| ==>
      PlanFiles(file, entries).value[i].file != PlanFiles(file, entries).value[j].file
    ensures PlanFiles(file, entries).value == [] <==> entries == []
    ensures |PlanFiles(file, entries).value| > 0 ==> PlanFiles(file, entries).value[0].file == file
  {
    var bs := Batches(entries, MaxEntriesPerFile);
    var files := PlanFiles(file, entries).value;
    assert Contents(files) == bs;
    BatchesFlatten(entries, MaxEntriesPerFile);
    BatchesSizes(entries, MaxEntriesPerFile);
    forall i, j | 0 <= i < j < |files| ensures files[i].file != files[j].file {
      BatchPathsDistinct(file, i, j);
    }
    if entries != [] {
      assert |bs| > 0;
    }
  }
}
