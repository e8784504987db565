/** `AutoSitemapIndex` (`auto_sitemap_index.py`): saves each child store in
    turn, hands on every file a child writes, registers each of those files
    under its public URL in a fresh sitemap index, and finally hands on the
    file that index writes.

    The children are heterogeneous stores, so each appears here only as what
    its own `save_files` gave: the written paths, or the exception it raised.
    The modification time read back from each written file is the parameter
    `mtime`. */
module AutoSitemapIndexes {
  import opened Results
  import opened Ordering
  import opened Tables
  import opened Dates
  import opened Paths
  import opened Batching
  import opened Hosts
  import opened SitemapIndexes

  /** One file `save_files` hands on: a child's file, or the index file with the records it lists. */
  datatype Written = ChildFile(path: FilePath) | IndexFile(batch: FileBatch<SitemapRef>)

  function AsChild(path: FilePath): Written { ChildFile(path) }

  function AsIndex(batch: FileBatch<SitemapRef>): Written { IndexFile(batch) }

  function WrittenPath(w: Written): FilePath {
    match w
    case ChildFile(path) => path
    case IndexFile(batch) => batch.file
  }

  /** `host.path_to_url(file)`: default parameters, and a file just written is not a directory. */
  function FileUrl(host: Host, f: FilePath): Result<string> {
    PathToUrl(host, f, "", "", "", false, false)
  }

  /** `host.path_to_url` as a function of the file alone. */
  function HostUrl(host: Host): FilePath -> Result<string> {
    f => FileUrl(host, f)
  }

  /** The only exception `path_to_url` raises is the `ValueError` of a file outside the root. */
  lemma HostUrlErrors(host: Host)
    ensures forall f :: HostUrl(host)(f).Failure? ==> HostUrl(host)(f).error == PathError
  {
  }

  /** The record registered for a file: its URL and its modification time. */
  function RefOf(url: FilePath -> Result<string>, f: FilePath, mtime: FilePath -> DateTime): SitemapRef
    requires url(f).Success?
  {
    SitemapRef(url(f).value, mtime(f))
  }

  function PrependRefs(refs: seq<SitemapRef>, run: (seq<SitemapRef>, Outcome)): (seq<SitemapRef>, Outcome) {
    (refs + run.0, run.1)
  }

  /** The records registered for one child's files, in order, up to the first
      file outside the root, whose `ValueError` ends the run. */
  function RefsOf(url: FilePath -> Result<string>, files: seq<FilePath>, mtime: FilePath -> DateTime): (r: (seq<SitemapRef>, Outcome))
    ensures |r.0| <= |files| && (r.1 == Pass <==> |r.0| == |files|)
    decreases |files|
  {
    if files == [] then ([], Pass)
    else match url(files[0])
      case Failure(err) => ([], Fail(err))
      case Success(loc) => PrependRefs([SitemapRef(loc, mtime(files[0]))], RefsOf(url, files[1..], mtime))
  }

  /** A child's run registers one record per file, in order, each the file's
      URL and modification time; it passes exactly when every file lies under
      the root, and otherwise stops at the first file outside it, with that
      file's exception. */
  lemma {:induction false} RefsOfSpec(url: FilePath -> Result<string>, files: seq<FilePath>, mtime: FilePath -> DateTime)
    ensures var (refs, outcome) := RefsOf(url, files, mtime);
      (forall i :: 0 <= i < |refs| ==> url(files[i]).Success? && refs[i] == RefOf(url, files[i], mtime))
      && (outcome.Fail? ==> url(files[|refs|]).Failure? && outcome == Fail(url(files[|refs|]).error))
    decreases |files|
  {
    if files != [] && url(files[0]).Success? {
      RefsOfSpec(url, files[1..], mtime);
      var rest := RefsOf(url, files[1..], mtime).0;
      assert forall i :: 1 <= i <= |rest| ==> files[i] == files[1..][i - 1];
    }
  }

  /** The files a child's save wrote, none when it raised. */
  function Saved(r: Result<seq<FilePath>>): seq<FilePath> {
    if r.Success? then r.value else []
  }

  function Prepend(files: seq<FilePath>, refs: seq<SitemapRef>, run: (seq<FilePath>, seq<SitemapRef>, Outcome))
    : (seq<FilePath>, seq<SitemapRef>, Outcome)
  {
    (files + run.0, refs + run.1, run.2)
  }

  /** The child files handed on, in child order, and the records registered
      for them, up to the first child whose save raises or the first file
      outside the root; that exception ends the run. */
  function Gather(url: FilePath -> Result<string>, children: seq<Result<seq<FilePath>>>, mtime: FilePath -> DateTime)
    : (seq<FilePath>, seq<SitemapRef>, Outcome)
    decreases |children|
  {
    if children == [] then ([], [], Pass)
    else match children[0]
      case Failure(err) => ([], [], Fail(err))
      case Success(files) =>
        var (refs, outcome) := RefsOf(url, files, mtime);
        if outcome.Fail? then (files[..|refs|], refs, outcome)
        else Prepend(files, refs, Gather(url, children[1..], mtime))
  }

  /** What a consumer of `save_files` sees: the files handed on, in order, and
      whether the generator then ended or raised. The index file comes last,
      and only when every child saved and every file lay under the root. */
  ghost function AutoSaveFiles(url: FilePath -> Result<string>, file: FilePath, children: seq<Result<seq<FilePath>>>,
                               mtime: FilePath -> DateTime): (seq<Written>, Outcome)
  {
    var (files, _, outcome) := Gather(url, children, mtime);
    if outcome.Fail? then (MapSeq(files, AsChild), outcome)
    else (MapSeq(files, AsChild) + MapSeq(IndexFiles(file, IndexEntries(url, children, mtime)), AsIndex), Pass)
  }

  /** What the index lists once every gathered file is registered. */
  ghost function IndexEntries(url: FilePath -> Result<string>, children: seq<Result<seq<FilePath>>>, mtime: FilePath -> DateTime): seq<SitemapRef> {
    IndexListing(UpsertAll(map[], Gather(url, children, mtime).1, RefKey))
  }

  lemma PrependAppend(files: seq<FilePath>, refs: seq<SitemapRef>, moreFiles: seq<FilePath>, moreRefs: seq<SitemapRef>,
                      run: (seq<FilePath>, seq<SitemapRef>, Outcome))
    ensures Prepend(files, refs, Prepend(moreFiles, moreRefs, run)) == Prepend(files + moreFiles, refs + moreRefs, run)
  {
    assert files + (moreFiles + run.0) == files + moreFiles + run.0;
    assert refs + (moreRefs + run.1) == refs + moreRefs + run.1;
  }

  lemma PrependNothing(run: (seq<FilePath>, seq<SitemapRef>, Outcome))
    ensures Prepend([], [], run) == run
  {
    assert [] + run.0 == run.0 && [] + run.1 == run.1;
  }

  lemma PrependRefsNothing(run: (seq<SitemapRef>, Outcome))
    ensures PrependRefs([], run) == run
  {
    assert [] + run.0 == run.0;
  }

  /** Every file handed on comes with the record of its URL and modification
      time, and a run that ends cleanly handed on every child's files,
      flattened in order. */
  lemma {:induction false} GatherSpec(url: FilePath -> Result<string>, children: seq<Result<seq<FilePath>>>, mtime: FilePath -> DateTime)
    ensures var (files, refs, outcome) := Gather(url, children, mtime);
      |refs| == |files|
      && (forall k :: 0 <= k < |files| ==> url(files[k]).Success? && refs[k] == RefOf(url, files[k], mtime))
    ensures var (files, refs, outcome) := Gather(url, children, mtime);
      outcome == Pass ==> ((forall i :: 0 <= i < |children| ==> children[i].Success?)
        && files == Flatten(MapSeq(children, Saved)))
    decreases |children|
  {
    if children != [] && children[0].Success? {
      var files := children[0].value;
      var (refs, outcome) := RefsOf(url, files, mtime);
      RefsOfSpec(url, files, mtime);
      GatherSpec(url, children[1..], mtime);
      if outcome == Pass {
        assert files[..|refs|] == files;
        var all := MapSeq(children, Saved);
        assert all[0] == files && all[1..] == MapSeq(children[1..], Saved);
        var run := Gather(url, children[1..], mtime);
        if run.2 == Pass {
          forall i | 0 <= i < |children| ensures children[i].Success? {
            if i > 0 {
              assert children[i] == children[1..][i - 1];
            }
          }
        }
      }
    }
  }

  /** A run that raises raised a child's own exception or one that `url` raises. */
  lemma {:induction false} GatherErrors(url: FilePath -> Result<string>, children: seq<Result<seq<FilePath>>>,
                                        mtime: FilePath -> DateTime, urlError: Error)
    requires forall f :: url(f).Failure? ==> url(f).error == urlError
    ensures var outcome := Gather(url, children, mtime).2;
      outcome.Fail? ==> outcome.error == urlError || exists i :: 0 <= i < |children| && children[i] == Failure(outcome.error)
    decreases |children|
  {
    if children != [] && children[0].Success? {
      RefsOfSpec(url, children[0].value, mtime);
    }
    if children != [] && children[0].Success? && RefsOf(url, children[0].value, mtime).1 == Pass {
      GatherErrors(url, children[1..], mtime, urlError);
      var run := Gather(url, children[1..], mtime);
      if run.2.Fail? && run.2.error != urlError {
        var i :| 0 <= i < |children[1..]| && children[1..][i] == Failure(run.2.error);
        assert children[i + 1] == Failure(run.2.error);
      }
    }
  }

  /** The index built from `refs` is keyed by URL and holds exactly the URLs of `refs`. */
  lemma IndexTable(refs: seq<SitemapRef>)
    ensures Keyed(UpsertAll(map[], refs, RefKey), RefKey)
    ensures forall loc :: loc in UpsertAll(map[], refs, RefKey) <==> exists k :: 0 <= k < |refs| && refs[k].loc == loc
  {
    UpsertAllKeyed(map[], refs, RefKey);
    UpsertAllKeys(map[], refs, RefKey);
  }

  /** Every entry of the index is a record that was registered. */
  lemma IndexRowsRegistered(refs: seq<SitemapRef>)
    ensures var rows := IndexListing(UpsertAll(map[], refs, RefKey));
      forall i :: 0 <= i < |rows| ==> exists k :: 0 <= k < |refs| && rows[i] == refs[k]
  {
    var index := UpsertAll(map[], refs, RefKey);
    var rows := IndexListing(index);
    assert forall i :: 0 <= i < |rows| ==> rows[i].loc in index && index[rows[i].loc] == rows[i] by {
      UpsertAllKeyed(map[], refs, RefKey);
      IndexListingSpec(index);
    }
    forall i | 0 <= i < |rows| ensures exists k :: 0 <= k < |refs| && rows[i] == refs[k] {
      UpsertAllFrom(map[], refs, RefKey, rows[i].loc);
    }
  }

  /** The index built from `refs` lists one entry per distinct URL, in
      strictly ascending order, and every URL of `refs` among them; it is
      empty exactly when `refs` is. */
  lemma IndexOfRefs(refs: seq<SitemapRef>)
    ensures var rows := IndexListing(UpsertAll(map[], refs, RefKey));
      (rows == [] <==> refs == [])
      && (forall a, b :: 0 <= a < b < |rows| ==> StrLess(rows[a].loc, rows[b].loc))
      && (forall k :: 0 <= k < |refs| ==> exists i :: 0 <= i < |rows| && rows[i].loc == refs[k].loc)
  {
    var index := UpsertAll(map[], refs, RefKey);
    var rows := IndexListing(index);
    assert forall k :: 0 <= k < |refs| ==> refs[k].loc in index by {
      UpsertAllKeys(map[], refs, RefKey);
    }
    assert |rows| == |index.Keys|
      && (forall a, b :: 0 <= a < b < |rows| ==> StrLess(rows[a].loc, rows[b].loc))
      && forall loc :: loc in index ==> exists i :: 0 <= i < |rows| && rows[i].loc == loc
    by {
      UpsertAllKeyed(map[], refs, RefKey);
      IndexListingSpec(index);
    }
    if refs != [] {
      assert refs[0].loc in index;
    }
  }

  /** The files handed on are the child files gathered, in order, followed by
      the index file exactly when the run ended cleanly with a child file. */
  lemma AutoSaveFilesPaths(url: FilePath -> Result<string>, file: FilePath, children: seq<Result<seq<FilePath>>>, mtime: FilePath -> DateTime)
    ensures var (files, _, outcome) := Gather(url, children, mtime);
      AutoSaveFiles(url, file, children, mtime).1 == outcome
      && MapSeq(AutoSaveFiles(url, file, children, mtime).0, WrittenPath)
         == files + (if outcome == Pass && files != [] then [file] else [])
  {
    var (files, refs, outcome) := Gather(url, children, mtime);
    var out := AutoSaveFiles(url, file, children, mtime).0;
    assert MapSeq(MapSeq(files, AsChild), WrittenPath) == files;
    if outcome == Pass {
      var rows := IndexListing(UpsertAll(map[], refs, RefKey));
      assert |refs| == |files| by {
        GatherSpec(url, children, mtime);
      }
      assert rows == [] <==> files == [] by {
        IndexOfRefs(refs);
      }
      var indexFiles := IndexFiles(file, rows);
      assert out == MapSeq(files, AsChild) + MapSeq(indexFiles, AsIndex);
      if files != [] {
        assert MapSeq(MapSeq(indexFiles, AsIndex), WrittenPath) == [file];
      } else {
        assert indexFiles == [];
      }
      MapSeqAppend(MapSeq(files, AsChild), MapSeq(indexFiles, AsIndex), WrittenPath);
    }
  }

  /** When the run ended cleanly with a child file, the index file comes last. */
  lemma AutoSaveFilesIndex(url: FilePath -> Result<string>, file: FilePath, children: seq<Result<seq<FilePath>>>, mtime: FilePath -> DateTime)
    requires Gather(url, children, mtime).2 == Pass && Gather(url, children, mtime).0 != []
    ensures AutoSaveFiles(url, file, children, mtime)
         == (MapSeq(Gather(url, children, mtime).0, AsChild) + [IndexFile(FileBatch(file, IndexEntries(url, children, mtime)))], Pass)
  {
    var (files, refs, outcome) := Gather(url, children, mtime);
    assert |refs| == |files| by {
      GatherSpec(url, children, mtime);
    }
    var entries := IndexEntries(url, children, mtime);
    assert entries != [] by {
      IndexOfRefs(refs);
    }
    assert IndexFiles(file, entries) == [FileBatch(file, entries)];
    assert MapSeq([FileBatch(file, entries)], AsIndex) == [IndexFile(FileBatch(file, entries))];
  }

  lemma IndexRowOfFile(url: FilePath -> Result<string>, files: seq<FilePath>, refs: seq<SitemapRef>, mtime: FilePath -> DateTime, i: int)
    requires |refs| == |files|
    requires forall k :: 0 <= k < |files| ==> url(files[k]).Success? && refs[k] == RefOf(url, files[k], mtime)
    requires 0 <= i < |IndexListing(UpsertAll(map[], refs, RefKey))|
    ensures var e := IndexListing(UpsertAll(map[], refs, RefKey))[i];
      exists k :: 0 <= k < |files| && url(files[k]) == Success(e.loc) && e.lastMod == mtime(files[k])
  {
    var rows := IndexListing(UpsertAll(map[], refs, RefKey));
    IndexRowsRegistered(refs);
    var k :| 0 <= k < |refs| && rows[i] == refs[k];
    assert url(files[k]) == Success(refs[k].loc);
  }

  lemma IndexCoversFile(url: FilePath -> Result<string>, files: seq<FilePath>, refs: seq<SitemapRef>, mtime: FilePath -> DateTime, k: int)
    requires |refs| == |files|
    requires forall k :: 0 <= k < |files| ==> url(files[k]).Success? && refs[k] == RefOf(url, files[k], mtime)
    requires 0 <= k < |files|
    ensures var entries := IndexListing(UpsertAll(map[], refs, RefKey));
      exists i :: 0 <= i < |entries| && url(files[k]) == Success(entries[i].loc)
  {
    var rows := IndexListing(UpsertAll(map[], refs, RefKey));
    IndexOfRefs(refs);
    var i :| 0 <= i < |rows| && rows[i].loc == refs[k].loc;
    assert url(files[k]) == Success(refs[k].loc);
  }

  /** The index lists the gathered files' URLs in strictly ascending order. */
  lemma IndexEntriesOrdered(url: FilePath -> Result<string>, children: seq<Result<seq<FilePath>>>, mtime: FilePath -> DateTime)
    ensures var entries := IndexEntries(url, children, mtime);
      forall a, b :: 0 <= a < b < |entries| ==> StrLess(entries[a].loc, entries[b].loc)
  {
    IndexOfRefs(Gather(url, children, mtime).1);
  }

  /** Each entry of the index is the URL and modification time of one of the gathered files. */
  lemma IndexEntriesRegistered(url: FilePath -> Result<string>, children: seq<Result<seq<FilePath>>>, mtime: FilePath -> DateTime)
    ensures var entries := IndexEntries(url, children, mtime);
      var files := Gather(url, children, mtime).0;
      forall i :: 0 <= i < |entries| ==>
        exists k :: 0 <= k < |files| && url(files[k]) == Success(entries[i].loc) && entries[i].lastMod == mtime(files[k])
  {
    var run := Gather(url, children, mtime);
    assert IndexEntries(url, children, mtime) == IndexListing(UpsertAll(map[], run.1, RefKey));
    assert |run.1| == |run.0|
      && forall k :: 0 <= k < |run.0| ==> url(run.0[k]).Success? && run.1[k] == RefOf(url, run.0[k], mtime)
    by {
      GatherSpec(url, children, mtime);
    }
    var entries := IndexEntries(url, children, mtime);
    forall i | 0 <= i < |entries|
      ensures exists k :: 0 <= k < |run.0| && url(run.0[k]) == Success(entries[i].loc) && entries[i].lastMod == mtime(run.0[k])
    {
      IndexRowOfFile(url, run.0, run.1, mtime, i);
    }
  }

  /** The URL of every gathered file is among the entries of the index. */
  lemma IndexEntriesCover(url: FilePath -> Result<string>, children: seq<Result<seq<FilePath>>>, mtime: FilePath -> DateTime)
    ensures var entries := IndexEntries(url, children, mtime);
      var files := Gather(url, children, mtime).0;
      forall k :: 0 <= k < |files| ==> exists i :: 0 <= i < |entries| && url(files[k]) == Success(entries[i].loc)
  {
    var run := Gather(url, children, mtime);
    assert IndexEntries(url, children, mtime) == IndexListing(UpsertAll(map[], run.1, RefKey));
    assert |run.1| == |run.0|
      && forall k :: 0 <= k < |run.0| ==> url(run.0[k]).Success? && run.1[k] == RefOf(url, run.0[k], mtime)
    by {
      GatherSpec(url, children, mtime);
    }
    forall k | 0 <= k < |run.0|
      ensures exists i :: 0 <= i < |IndexEntries(url, children, mtime)| && url(run.0[k]) == Success(IndexEntries(url, children, mtime)[i].loc)
    {
      IndexCoversFile(url, run.0, run.1, mtime, k);
    }
  }

  lemma {:induction false} GatherEmpty(url: FilePath -> Result<string>, children: seq<Result<seq<FilePath>>>, mtime: FilePath -> DateTime)
    requires forall i :: 0 <= i < |children| ==> children[i] == Success([])
    ensures Gather(url, children, mtime) == ([], [], Pass)
    decreases |children|
  {
    if children != [] {
      assert RefsOf(url, [], mtime) == ([], Pass);
      GatherEmpty(url, children[1..], mtime);
      PrependNothing(([], [], Pass));
    }
  }

  /** With no child file at all, `save_files` writes and hands on nothing. */
  lemma NothingToIndex(url: FilePath -> Result<string>, file: FilePath, children: seq<Result<seq<FilePath>>>, mtime: FilePath -> DateTime)
    requires forall i :: 0 <= i < |children| ==> children[i] == Success([])
    ensures AutoSaveFiles(url, file, children, mtime) == ([], Pass)
  {
    GatherEmpty(url, children, mtime);
    IndexOfRefs([]);
    var none: seq<FilePath> := [];
    assert IndexEntries(url, children, mtime) == [];
    assert IndexFiles(file, []) == [];
    assert MapSeq(none, AsChild) + MapSeq([], AsIndex) == [];
  }

  /** One more file of a child registered: its record joins those before it. */
  lemma RefsOfStep(url: FilePath -> Result<string>, files: seq<FilePath>, mtime: FilePath -> DateTime, refs: seq<SitemapRef>, j: nat)
    requires j < |files| && url(files[j]).Success?
    requires RefsOf(url, files, mtime) == PrependRefs(refs, RefsOf(url, files[j..], mtime))
    ensures RefsOf(url, files, mtime) == PrependRefs(refs + [RefOf(url, files[j], mtime)], RefsOf(url, files[j + 1..], mtime))
  {
    assert files[j..][0] == files[j] && files[j..][1..] == files[j + 1..];
    var rest := RefsOf(url, files[j + 1..], mtime).0;
    assert refs + ([RefOf(url, files[j], mtime)] + rest) == refs + [RefOf(url, files[j], mtime)] + rest;
  }

  /** A file outside the root ends the child's run with the records before it. */
  lemma RefsOfStop(url: FilePath -> Result<string>, files: seq<FilePath>, mtime: FilePath -> DateTime, refs: seq<SitemapRef>, j: nat)
    requires j < |files| && url(files[j]).Failure?
    requires RefsOf(url, files, mtime) == PrependRefs(refs, RefsOf(url, files[j..], mtime))
    ensures RefsOf(url, files, mtime) == (refs, Fail(url(files[j]).error))
  {
    assert files[j..][0] == files[j];
    assert refs + [] == refs;
  }

  /** The inner loop of `save_files` over one child's files: registers each
      file's record in `index` and hands the file on, up to the first file
      outside the root. */
  method RegisterFiles(index: SitemapIndex, url: FilePath -> Result<string>, childFiles: seq<FilePath>, mtime: FilePath -> DateTime)
    returns (handed: seq<Written>, outcome: Outcome)
    requires index.Valid() && !index.closed
    modifies index
    ensures index.Valid() && !index.closed
    ensures index.table == UpsertAll(old(index.table), RefsOf(url, childFiles, mtime).0, RefKey)
    ensures handed == MapSeq(childFiles[..|RefsOf(url, childFiles, mtime).0|], AsChild)
    ensures outcome == RefsOf(url, childFiles, mtime).1
  {
    handed := [];
    ghost var refs: seq<SitemapRef> := [];
    assert childFiles[0..] == childFiles;
    PrependRefsNothing(RefsOf(url, childFiles, mtime));
    for j := 0 to |childFiles|
      invariant index.Valid() && !index.closed && |refs| == j
      invariant index.table == UpsertAll(old(index.table), refs, RefKey)
      invariant handed == MapSeq(childFiles[..j], AsChild)
      invariant RefsOf(url, childFiles, mtime) == PrependRefs(refs, RefsOf(url, childFiles[j..], mtime))
    {
      var f := childFiles[j];
      var loc := url(f);
      if loc.Failure? {
        RefsOfStop(url, childFiles, mtime, refs, j);
        return handed, Fail(loc.error);
      }
      var ref := SitemapRef(loc.value, mtime(f));
      var registered := index.Register(loc.value, mtime(f));
      assert index.table == UpsertAll(old(index.table), refs + [ref], RefKey) by {
        UpsertAllAppend(old(index.table), refs, [ref], RefKey);
      }
      assert RefsOf(url, childFiles, mtime) == PrependRefs(refs + [ref], RefsOf(url, childFiles[j + 1..], mtime)) by {
        RefsOfStep(url, childFiles, mtime, refs, j);
      }
      assert MapSeq(childFiles[..j + 1], AsChild) == handed + [ChildFile(f)] by {
        assert childFiles[..j + 1] == childFiles[..j] + [f];
        MapSeqAppend(childFiles[..j], [f], AsChild);
      }
      refs := refs + [ref];
      handed := handed + [ChildFile(f)];
    }
    assert childFiles[..|childFiles|] == childFiles;
    assert RefsOf(url, childFiles[|childFiles|..], mtime) == ([], Pass);
    assert refs + [] == refs;
    outcome := Pass;
  }

  /** `save_files`: saves the children in order, registering every file they
      write in a fresh index and handing it on, then saves and closes the index. */
  method SaveFiles(host: Host, file: FilePath, children: seq<Result<seq<FilePath>>>, mtime: FilePath -> DateTime)
    returns (out: seq<Written>, outcome: Outcome)
    ensures (out, outcome) == AutoSaveFiles(HostUrl(host), file, children, mtime)
  {
    var url := HostUrl(host);
    var index := new SitemapIndex(file);
    out := [];
    ghost var files: seq<FilePath> := [];
    ghost var refs: seq<SitemapRef> := [];
    assert children[0..] == children;
    PrependNothing(Gather(url, children, mtime));
    for i := 0 to |children|
      invariant index.Valid() && !index.closed && index.file == file
      invariant index.table == UpsertAll(map[], refs, RefKey)
      invariant out == MapSeq(files, AsChild)
      invariant Gather(url, children, mtime) == Prepend(files, refs, Gather(url, children[i..], mtime))
    {
      assert children[i..][1..] == children[i + 1..];
      if children[i].Failure? {
        assert Gather(url, children, mtime) == (files + [], refs + [], Fail(children[i].error));
        assert files + [] == files && refs + [] == refs;
        return out, Fail(children[i].error);
      }
      var childFiles := children[i].value;
      ghost var run := RefsOf(url, childFiles, mtime);
      var handed, childOutcome := RegisterFiles(index, url, childFiles, mtime);
      UpsertAllAppend(map[], refs, run.0, RefKey);
      MapSeqAppend(files, childFiles[..|run.0|], AsChild);
      out := out + handed;
      if childOutcome.Fail? {
        assert Gather(url, children, mtime) == (files + childFiles[..|run.0|], refs + run.0, childOutcome);
        return out, childOutcome;
      }
      assert childFiles[..|run.0|] == childFiles;
      PrependAppend(files, refs, childFiles, run.0, Gather(url, children[i + 1..], mtime));
      files := files + childFiles;
      refs := refs + run.0;
    }
    assert children[|children|..] == [];
    assert Gather(url, children, mtime) == (files + [], refs + [], Pass);
    assert files + [] == files && refs + [] == refs;
    var saved := index.SaveFiles();
    out := out + MapSeq(saved.value, AsIndex);
    index.Close();
    return out, Pass;
  }
}
