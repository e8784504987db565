/** The sitemap index (`sitemap_index.py`): the store of child sitemap files
    keyed by their URL, the `<sitemapindex>` document it writes to its one
    file, and the decoder that registers the entries of such a document.

    The SQLite table `sitemap` is the map `table` from `loc` to the record. The
    store keeps `last_mod` as `timestamp()` seconds and turns them back with
    `fromtimestamp`; the model keeps the `DateTime` itself. */
module SitemapIndexes {
  import opened Results
  import opened Ordering
  import opened Tables
  import opened Dates
  import opened Xml
  import opened Paths
  import opened Batching
  import opened Loading
  import UrlSitemaps

  /** `Sitemap`: a child sitemap file's URL and last modification. */
  datatype SitemapRef = SitemapRef(loc: string, lastMod: DateTime)

  function RefKey(s: SitemapRef): string {
    s.loc
  }

  /** One `<sitemap>`: `<loc>`, then `<lastmod>` with the date only. */
  function SitemapElement(s: SitemapRef): (e: Element)
    ensures e.tag == "sitemap" && Tags(e.children) == ["loc", "lastmod"]
  {
    Element("sitemap", [], "", [Leaf("loc", s.loc), Leaf("lastmod", IsoDate(s.lastMod.date))])
  }

  /** The decoder finds the record's URL and date in its `<sitemap>`. */
  lemma SitemapElementFields(s: SitemapRef)
    ensures ChildText(SitemapElement(s), "loc") == Some(s.loc)
    ensures ChildText(SitemapElement(s), "lastmod") == Some(IsoDate(s.lastMod.date))
  {
    ChildTextAt(SitemapElement(s), "loc", 0);
    ChildTextAt(SitemapElement(s), "lastmod", 1);
  }

  /** `SitemapIndexFile._as_element`: a `<sitemapindex>` in the sitemaps.org
      namespace with one `<sitemap>` per record, in order. */
  function SitemapIndexElement(refs: seq<SitemapRef>): (e: Element)
    ensures e.tag == "sitemapindex" && e.attrs == [("xmlns", UrlSitemaps.SitemapNamespace)]
    ensures |e.children| == |refs|
    ensures forall i :: 0 <= i < |refs| ==>
      (e.children[i].tag == "sitemap" && |e.children[i].children| >= 2
        && e.children[i].children[0] == Leaf("loc", refs[i].loc)
        && e.children[i].children[1] == Leaf("lastmod", IsoDate(refs[i].lastMod.date)))
  {
    Element("sitemapindex", [("xmlns", UrlSitemaps.SitemapNamespace)], "", MapSeq(refs, SitemapElement))
  }

  /** The files `save_files` writes: the whole listing in the one bound file,
      and no file at all for an empty index. */
  function IndexFiles(file: FilePath, refs: seq<SitemapRef>): seq<FileBatch<SitemapRef>> {
    if refs == [] then [] else [FileBatch(file, refs)]
  }

  /** An index is never split: a save writes at most one file, at the bound
      path, holding every record in order, and writes nothing exactly when
      there is nothing to list. */
  lemma IndexFilesSpec(file: FilePath, refs: seq<SitemapRef>)
    ensures |IndexFiles(file, refs)| <= 1
    ensures IndexFiles(file, refs) == [] <==> refs == []
    ensures Flatten(Contents(IndexFiles(file, refs))) == refs
    ensures forall i :: 0 <= i < |IndexFiles(file, refs)| ==> IndexFiles(file, refs)[i].file == file
  {
    if refs != [] {
      assert Contents(IndexFiles(file, refs)) == [refs];
      assert Flatten([refs]) == refs + Flatten([]);
    }
  }

  // Decoding.

  /** One `<sitemap>` as the schema decoder hands it over: the `loc` text, and
      the `lastmod` text when present. */
  datatype SitemapEntry = SitemapEntry(loc: string, lastMod: Option<string>)

  /** The decoder's view of one `<sitemap>`: the required `loc` must be there. */
  function ReadSitemap(e: Element): (r: Result<SitemapEntry>)
    ensures r.Success? <==> ChildText(e, "loc").Some?
    ensures r.Success? ==> r.value.loc == ChildText(e, "loc").value && r.value.lastMod == ChildText(e, "lastmod")
  {
    match ChildText(e, "loc")
    case None => Failure(DecodeError)
    case Some(loc) => Success(SitemapEntry(loc, ChildText(e, "lastmod")))
  }

  /** The schema pass over a whole document: a `<sitemapindex>` root holding one or more `<sitemap>`. */
  function ReadSitemapIndex(doc: Element): (r: Result<seq<SitemapEntry>>)
    ensures r.Success? ==> doc.tag == "sitemapindex" && |r.value| == |Named(doc.children, "sitemap")| > 0
  {
    if doc.tag != "sitemapindex" then Failure(DecodeError)
    else
      var sitemaps := Named(doc.children, "sitemap");
      if sitemaps == [] then Failure(DecodeError) else ReadAll(sitemaps, ReadSitemap)
  }

  /** The body of `load`'s loop up to `register`: the record one entry
      describes, or the `ValueError` of an empty field (the `KeyError` of a
      missing `lastmod`) that stops the load. */
  function DecodeSitemap(entry: SitemapEntry): (r: Result<SitemapRef>)
    ensures r.Success? <==> (entry.loc != "" && entry.lastMod.Some? && ParseIsoDate(entry.lastMod.value).Some?)
    ensures r.Failure? ==> r.error == DecodeError
    ensures r.Success? ==> (RefKey(r.value) == entry.loc && IsoDate(r.value.lastMod.date) == entry.lastMod.value
      && r.value.lastMod.second == 0)
  {
    if entry.loc == "" then Failure(DecodeError)
    else if entry.lastMod.None? || entry.lastMod.value == "" then Failure(DecodeError)
    else match ParseIsoDate(entry.lastMod.value)
      case None => Failure(DecodeError)
      case Some(date) =>
        ParseIsoDateCanonical(entry.lastMod.value);
        Success(SitemapRef(entry.loc, StartOfDay(date)))
  }

  /** `load`: the schema pass over the whole document, then the loop over its
      entries; the first entry that fails to decode ends the load and the
      entries before it stay registered. */
  function LoadDocument(t: map<string, SitemapRef>, doc: Element): (map<string, SitemapRef>, Outcome) {
    match ReadSitemapIndex(doc)
    case Failure(err) => (t, Fail(err))
    case Success(entries) => LoadEach(t, entries, DecodeSitemap, RefKey)
  }

  /** Loading a document a second time changes nothing more. */
  lemma LoadDocumentIdempotent(t: map<string, SitemapRef>, doc: Element)
    requires LoadDocument(t, doc).1 == Pass
    ensures LoadDocument(LoadDocument(t, doc).0, doc) == LoadDocument(t, doc)
  {
    LoadEachIdempotent(t, ReadSitemapIndex(doc).value, DecodeSitemap, RefKey);
  }

  /** A load that passed registered each entry of the document under its URL. */
  lemma LoadDocumentRegisters(t: map<string, SitemapRef>, doc: Element)
    requires LoadDocument(t, doc).1 == Pass
    ensures forall i :: 0 <= i < |ReadSitemapIndex(doc).value| ==>
      ReadSitemapIndex(doc).value[i].loc in LoadDocument(t, doc).0
    ensures t.Keys <= LoadDocument(t, doc).0.Keys
  {
    var entries := ReadSitemapIndex(doc).value;
    var refs := DecodedPrefix(entries, DecodeSitemap);
    LoadEachSpec(t, entries, DecodeSitemap, RefKey);
    UpsertAllKeys(t, refs, RefKey);
    assert |refs| == |entries|;
    forall i | 0 <= i < |entries| ensures entries[i].loc in LoadDocument(t, doc).0 {
      assert RefKey(refs[i]) == entries[i].loc;
    }
  }

  // The round trip.

  /** What the decoder reads back from `SitemapElement(s)`. */
  function EntryOf(s: SitemapRef): SitemapEntry {
    SitemapEntry(s.loc, Some(IsoDate(s.lastMod.date)))
  }

  /** The record with its time of day dropped: what survives being written as a date. */
  function AtDate(s: SitemapRef): (r: SitemapRef)
    ensures r.loc == s.loc && r.lastMod.date == s.lastMod.date && r.lastMod.second == 0
  {
    s.(lastMod := StartOfDay(s.lastMod.date))
  }

  /** The decoder reads back from a written `<sitemapindex>` exactly the entries of its records. */
  lemma ReadSitemapIndexWritten(refs: seq<SitemapRef>)
    requires refs != []
    ensures ReadSitemapIndex(SitemapIndexElement(refs)) == Success(MapSeq(refs, EntryOf))
  {
    var children := SitemapIndexElement(refs).children;
    var entries := MapSeq(refs, EntryOf);
    NamedAll(children, "sitemap");
    forall i | 0 <= i < |children| ensures ReadSitemap(children[i]) == Success(entries[i]) {
      ReadSitemapOf(refs, i);
    }
    ReadAllEach(children, ReadSitemap, entries);
  }

  lemma ReadSitemapOf(refs: seq<SitemapRef>, i: nat)
    requires i < |refs|
    ensures ReadSitemap(MapSeq(refs, SitemapElement)[i]) == Success(MapSeq(refs, EntryOf)[i])
  {
    SitemapElementFields(refs[i]);
  }

  /** A written record decodes to itself at date granularity, unless its URL is empty. */
  lemma DecodeWritten(s: SitemapRef)
    requires s.loc != ""
    ensures DecodeSitemap(EntryOf(s)) == Success(AtDate(s))
  {
    IsoDateRoundTrip(s.lastMod.date);
  }

  /** Loading one written document registers its records, times of day dropped. */
  lemma LoadWritten(t: map<string, SitemapRef>, refs: seq<SitemapRef>)
    requires refs != [] && forall i :: 0 <= i < |refs| ==> refs[i].loc != ""
    ensures LoadDocument(t, SitemapIndexElement(refs)) == (UpsertAll(t, MapSeq(refs, AtDate), RefKey), Pass)
  {
    ReadSitemapIndexWritten(refs);
    var entries := MapSeq(refs, EntryOf);
    forall i | 0 <= i < |refs| ensures DecodeSitemap(entries[i]) == Success(MapSeq(refs, AtDate)[i]) {
      DecodeWritten(refs[i]);
    }
    LoadEachDecoded(t, entries, DecodeSitemap, RefKey, MapSeq(refs, AtDate));
  }

  /** The records in `loc` order: what `list_all` returns and `save_files` writes. */
  ghost function IndexListing(t: map<string, SitemapRef>): seq<SitemapRef> {
    StrLessOrder();
    Listing(t, StrLess)
  }

  /** The listing holds each record once, under its own `loc`, in strictly
      ascending `loc` order, and lists every `loc` of the index. */
  lemma IndexListingSpec(t: map<string, SitemapRef>)
    requires Keyed(t, RefKey)
    ensures |IndexListing(t)| == |t.Keys|
    ensures forall a, b :: 0 <= a < b < |IndexListing(t)| ==> StrLess(IndexListing(t)[a].loc, IndexListing(t)[b].loc)
    ensures forall i :: 0 <= i < |IndexListing(t)| ==> IndexListing(t)[i].loc in t && t[IndexListing(t)[i].loc] == IndexListing(t)[i]
    ensures forall loc :: loc in t ==> exists i :: 0 <= i < |IndexListing(t)| && IndexListing(t)[i].loc == loc
  {
    StrLessOrder();
    assert IndexListing(t) == Listing(t, StrLess);
    ListingSpec(t, StrLess, RefKey);
  }

  /** The document written to one file. */
  function FileElement(f: FileBatch<SitemapRef>): Element {
    SitemapIndexElement(f.entries)
  }

  /** Loading the files a save of `refs` writes, into an empty index, upserts
      the records with their times of day dropped. */
  lemma LoadIndexFiles(file: FilePath, refs: seq<SitemapRef>)
    requires forall i :: 0 <= i < |refs| ==> refs[i].loc != ""
    ensures LoadAll(map[], MapSeq(IndexFiles(file, refs), FileElement), LoadDocument)
         == (UpsertAll(map[], MapSeq(refs, AtDate), RefKey), Pass)
  {
    if refs != [] {
      LoadWritten(map[], refs);
      assert MapSeq(IndexFiles(file, refs), FileElement) == [SitemapIndexElement(refs)];
    }
  }

  /** Saving an index and loading the file it wrote, if any, into an empty
      index gives back the same records, each with its time of day dropped,
      provided no URL is empty. */
  lemma SaveLoadRoundTrip(file: FilePath, t: map<string, SitemapRef>)
    requires Keyed(t, RefKey) && "" !in t
    ensures LoadAll(map[], MapSeq(IndexFiles(file, IndexListing(t)), FileElement), LoadDocument)
         == (MapValues(t, AtDate), Pass)
  {
    StrLessOrder();
    var rows := IndexListing(t);
    assert forall i :: 0 <= i < |rows| ==> rows[i].loc != "" by {
      ListingSpec(t, StrLess, RefKey);
    }
    LoadIndexFiles(file, rows);
    ListingRestoresMapped(t, AtDate, StrLess, RefKey);
  }

  // The store.

  /** `SitemapIndex`: an open or closed store of child sitemap records that saves to `file`. */
  class SitemapIndex {
    const file: FilePath
    var table: map<string, SitemapRef>
    var closed: bool

    ghost predicate Valid()
      reads this
    {
      Keyed(table, RefKey)
    }

    constructor(file: FilePath)
      ensures Valid() && this.file == file && table == map[] && !closed
    {
      this.file := file;
      table := map[];
      closed := false;
    }

    /** Closing twice is the same as closing once; the records are kept but no longer reachable. */
    method Close()
      modifies this
      ensures closed && table == old(table)
    {
      closed := true;
    }

    /** `register`: replaces the record under `loc`, or adds one. */
    method Register(loc: string, lastMod: DateTime) returns (o: Outcome)
      requires Valid()
      modifies this
      ensures Valid() && closed == old(closed)
      ensures old(closed) ==> o == Fail(StoreClosed) && table == old(table)
      ensures !old(closed) ==> o == Pass && table == old(table)[loc := SitemapRef(loc, lastMod)]
    {
      if closed {
        return Fail(StoreClosed);
      }
      table := table[loc := SitemapRef(loc, lastMod)];
      return Pass;
    }

    /** `unregister`: drops the record under `loc`, if any. */
    method Unregister(loc: string) returns (o: Outcome)
      requires Valid()
      modifies this
      ensures Valid() && closed == old(closed)
      ensures old(closed) ==> o == Fail(StoreClosed) && table == old(table)
      ensures !old(closed) ==> o == Pass && table == old(table) - {loc}
    {
      if closed {
        return Fail(StoreClosed);
      }
      table := table - {loc};
      return Pass;
    }

    /** `clear`: drops every record. */
    method Clear() returns (o: Outcome)
      requires Valid()
      modifies this
      ensures Valid() && closed == old(closed)
      ensures old(closed) ==> o == Fail(StoreClosed) && table == old(table)
      ensures !old(closed) ==> o == Pass && table == map[]
    {
      if closed {
        return Fail(StoreClosed);
      }
      table := map[];
      return Pass;
    }

    /** `get`: the record registered under `loc`, `None` when there is none. */
    method Get(loc: string) returns (r: Result<Option<SitemapRef>>)
      requires Valid()
      ensures closed ==> r == Failure(StoreClosed)
      ensures !closed && loc in table ==> r == Success(Some(table[loc])) && r.value.value.loc == loc
      ensures !closed && loc !in table ==> r == Success(None)
    {
      if closed {
        return Failure(StoreClosed);
      }
      if loc in table {
        return Success(Some(table[loc]));
      }
      return Success(None);
    }

    /** `list_all`: every record, in ascending `loc` order. */
    method ListAll() returns (r: Result<seq<SitemapRef>>)
      ensures closed ==> r == Failure(StoreClosed)
      ensures !closed ==> r == Success(IndexListing(table))
    {
      if closed {
        return Failure(StoreClosed);
      }
      StrLessOrder();
      var rows := ListRows(table, StrLess);
      return Success(rows);
    }

    /** `save_files`: the one file written, or none for an empty index. There
        is no open check: on a closed store the query fails on the closed cursor. */
    method SaveFiles() returns (r: Result<seq<FileBatch<SitemapRef>>>)
      ensures closed ==> r == Failure(CursorClosed)
      ensures !closed ==> r == Success(IndexFiles(file, IndexListing(table)))
    {
      if closed {
        return Failure(CursorClosed);
      }
      StrLessOrder();
      var rows := ListRows(table, StrLess);
      assert rows == IndexListing(table);
      var files: seq<FileBatch<SitemapRef>> := [];
      if rows != [] {
        files := files + [FileBatch(file, rows)];
        assert files == [FileBatch(file, rows)];
      }
      return Success(files);
    }

    /** `load`: registers the records of a document, entry by entry. */
    method Load(doc: Element) returns (o: Outcome)
      requires Valid()
      modifies this
      ensures Valid() && closed == old(closed)
      ensures old(closed) ==> o == Fail(StoreClosed) && table == old(table)
      ensures !old(closed) ==> (table, o) == LoadDocument(old(table), doc)
    {
      if closed {
        return Fail(StoreClosed);
      }
      var read := ReadSitemapIndex(doc);
      if read.Failure? {
        return Fail(read.error);
      }
      var entries := read.value;
      for i := 0 to |entries|
        invariant Valid() && !closed
        invariant LoadDocument(old(table), doc) == LoadEach(table, entries[i..], DecodeSitemap, RefKey)
      {
        assert entries[i..][1..] == entries[i + 1..];
        var decoded := DecodeSitemap(entries[i]);
        if decoded.Failure? {
          return Fail(decoded.error);
        }
        var s := decoded.value;
        var registered := Register(s.loc, s.lastMod);
      }
      return Pass;
    }
  }
}
