/** The URL sitemap (`sitemap.py`): the record store keyed by page URL, the
    `<urlset>` document it writes, split over files of at most 50000 entries,
    and the decoder that registers the entries of such a document.

    The SQLite table `url` is the map `table` from `loc` to the record; the
    `change_freq` lookup table only maps each enumeration member to its token,
    which `Token` does directly. */
module UrlSitemaps {
  import opened Results
  import opened Ordering
  import opened Tables
  import opened Numerals
  import opened Dates
  import opened Xml
  import opened Paths
  import opened Batching
  import opened Loading

  /** `ChangeFreq`: how often a page changes; `Unset` is the member whose value is `""`. */
  datatype ChangeFreq = Unset | Hourly | Daily | Weekly | Monthly | Yearly | Always | Never

  /** The member's value, which is also its `<changefreq>` token. */
  function Token(c: ChangeFreq): string {
    match c
    case Unset => ""
    case Hourly => "hourly"
    case Daily => "daily"
    case Weekly => "weekly"
    case Monthly => "monthly"
    case Yearly => "yearly"
    case Always => "always"
    case Never => "never"
  }

  /** `ChangeFreq(s)`: the member whose value is `s`; `None` stands for the `ValueError`. */
  function ParseChangeFreq(s: string): (r: Option<ChangeFreq>)
    ensures forall c :: r == Some(c) <==> Token(c) == s
  {
    if s == "" then Some(Unset)
    else if s == "hourly" then Some(Hourly)
    else if s == "daily" then Some(Daily)
    else if s == "weekly" then Some(Weekly)
    else if s == "monthly" then Some(Monthly)
    else if s == "yearly" then Some(Yearly)
    else if s == "always" then Some(Always)
    else if s == "never" then Some(Never)
    else None
  }

  /** The default priority 0.5, in thousandths; a record holding it writes no `<priority>`. */
  const DefaultPriority: nat := 500

  /** A registered page: its URL, last modification, priority in thousandths and change frequency. */
  datatype Url = Url(loc: string, lastMod: DateTime, priority: nat, changeFreq: ChangeFreq)

  function UrlKey(u: Url): string {
    u.loc
  }

  const SitemapNamespace: string := "http://www.sitemaps.org/schemas/sitemap/0.9"

  /** One `<url>`: `<loc>`, `<lastmod>` with the date only, then `<priority>`
      unless the priority is the default, then `<changefreq>` unless it is unset. */
  function UrlElement(u: Url): (e: Element)
    ensures e.tag == "url"
    ensures Tags(e.children) == ["loc", "lastmod"]
      + (if u.priority != DefaultPriority then ["priority"] else [])
      + (if u.changeFreq != Unset then ["changefreq"] else [])
  {
    var priority := if u.priority != DefaultPriority then [Leaf("priority", Thousandths(u.priority))] else [];
    var freq := if u.changeFreq != Unset then [Leaf("changefreq", Token(u.changeFreq))] else [];
    Element("url", [], "", [Leaf("loc", u.loc), Leaf("lastmod", IsoDate(u.lastMod.date))] + priority + freq)
  }

  /** The children of a `<url>`, field by field. */
  lemma UrlChildren(u: Url)
    ensures |UrlElement(u).children| == 2 + (if u.priority != DefaultPriority then 1 else 0) + (if u.changeFreq != Unset then 1 else 0)
    ensures UrlElement(u).children[0] == Leaf("loc", u.loc)
    ensures UrlElement(u).children[1] == Leaf("lastmod", IsoDate(u.lastMod.date))
    ensures u.priority != DefaultPriority ==> UrlElement(u).children[2] == Leaf("priority", Thousandths(u.priority))
    ensures u.changeFreq != Unset ==>
      UrlElement(u).children[|UrlElement(u).children| - 1] == Leaf("changefreq", Token(u.changeFreq))
  {
  }

  lemma UrlLocField(u: Url)
    ensures ChildText(UrlElement(u), "loc") == Some(u.loc)
  {
    UrlChildren(u);
    ChildTextAt(UrlElement(u), "loc", 0);
  }

  lemma UrlLastModField(u: Url)
    ensures ChildText(UrlElement(u), "lastmod") == Some(IsoDate(u.lastMod.date))
  {
    UrlChildren(u);
    ChildTextAt(UrlElement(u), "lastmod", 1);
  }

  lemma UrlPriorityField(u: Url)
    ensures ChildText(UrlElement(u), "priority")
         == if u.priority == DefaultPriority then None else Some(Thousandths(u.priority))
  {
    var e := UrlElement(u);
    if u.priority != DefaultPriority {
      UrlChildren(u);
      ChildTextAt(e, "priority", 2);
    } else {
      assert forall i :: 0 <= i < |e.children| ==> e.children[i].tag != "priority" by {
        assert forall i :: 0 <= i < |e.children| ==> e.children[i].tag == Tags(e.children)[i];
      }
    }
  }

  lemma UrlChangeFreqField(u: Url)
    ensures ChildText(UrlElement(u), "changefreq")
         == if u.changeFreq == Unset then None else Some(Token(u.changeFreq))
  {
    var e := UrlElement(u);
    if u.changeFreq != Unset {
      UrlChildren(u);
      ChildTextAt(e, "changefreq", |e.children| - 1);
    } else {
      assert forall i :: 0 <= i < |e.children| ==> e.children[i].tag != "changefreq" by {
        assert forall i :: 0 <= i < |e.children| ==> e.children[i].tag == Tags(e.children)[i];
      }
    }
  }

  /** What each optional field of a record leaves in its `<url>`: the decoder
      finds `<priority>` exactly when the priority is not the default, and
      `<changefreq>` exactly when the frequency is set. */
  lemma UrlElementFields(u: Url)
    ensures ChildText(UrlElement(u), "loc") == Some(u.loc)
    ensures ChildText(UrlElement(u), "lastmod") == Some(IsoDate(u.lastMod.date))
    ensures ChildText(UrlElement(u), "priority")
         == if u.priority == DefaultPriority then None else Some(Thousandths(u.priority))
    ensures ChildText(UrlElement(u), "changefreq")
         == if u.changeFreq == Unset then None else Some(Token(u.changeFreq))
  {
    UrlLocField(u);
    UrlLastModField(u);
    UrlPriorityField(u);
    UrlChangeFreqField(u);
  }

  /** `SitemapFile._as_element`: a `<urlset>` in the sitemaps.org namespace with one `<url>` per record, in order. */
  function UrlsetElement(urls: seq<Url>): (e: Element)
    ensures e.tag == "urlset" && e.attrs == [("xmlns", SitemapNamespace)]
    ensures |e.children| == |urls|
    ensures forall i :: 0 <= i < |urls| ==>
      (e.children[i].tag == "url" && |e.children[i].children| >= 2
        && e.children[i].children[0] == Leaf("loc", urls[i].loc)
        && e.children[i].children[1] == Leaf("lastmod", IsoDate(urls[i].lastMod.date)))
  {
    Element("urlset", [("xmlns", SitemapNamespace)], "", MapSeq(urls, UrlElement))
  }

  // Decoding.

  /** One `<url>` as the schema decoder hands it over: the text of `loc`, and
      the `lastmod` text, the `priority` decimal and the `changefreq` text when present. */
  datatype UrlEntry = UrlEntry(loc: string, lastMod: Option<string>, priority: Option<nat>, changeFreq: Option<string>)

  /** The decoder's view of one `<url>`: the required `loc` must be there and a
      `priority` must be a decimal. */
  function ReadUrl(e: Element): (r: Result<UrlEntry>)
    ensures r.Success? <==> (ChildText(e, "loc").Some?
      && (ChildText(e, "priority").Some? ==> ParseThousandths(ChildText(e, "priority").value).Some?))
    ensures r.Success? ==> (r.value.loc == ChildText(e, "loc").value && r.value.lastMod == ChildText(e, "lastmod")
      && r.value.changeFreq == ChildText(e, "changefreq")
      && r.value.priority == (if ChildText(e, "priority").Some? then ParseThousandths(ChildText(e, "priority").value) else None))
  {
    var loc, lastMod := ChildText(e, "loc"), ChildText(e, "lastmod");
    var priority, freq := ChildText(e, "priority"), ChildText(e, "changefreq");
    if loc.None? then Failure(DecodeError)
    else if priority.Some? && ParseThousandths(priority.value).None? then Failure(DecodeError)
    else Success(UrlEntry(loc.value, lastMod, if priority.Some? then ParseThousandths(priority.value) else None, freq))
  }

  /** The schema pass over a whole document: a `<urlset>` root holding one or more `<url>`. */
  function ReadUrlset(doc: Element): (r: Result<seq<UrlEntry>>)
    ensures r.Success? ==> doc.tag == "urlset" && |r.value| == |Named(doc.children, "url")| > 0
  {
    if doc.tag != "urlset" then Failure(DecodeError)
    else
      var urls := Named(doc.children, "url");
      if urls == [] then Failure(DecodeError) else ReadAll(urls, ReadUrl)
  }

  /** A present priority, zero included, is kept; an absent one is the default. */
  function DecodePriority(p: Option<nat>): (r: nat)
    ensures p.Some? ==> r == p.value
    ensures p.None? ==> r == DefaultPriority
  {
    if p.Some? then p.value else DefaultPriority
  }

  /** The priority step of `load` as written: `if priority_source:` is false for a decimal zero too. */
  function DecodePriorityAsWritten(p: Option<nat>): (r: nat)
    ensures p.Some? && p.value != 0 ==> r == p.value
    ensures p.None? || p == Some(0) ==> r == DefaultPriority
  {
    if p.Some? && p.value != 0 then p.value else DefaultPriority
  }

  /** The body of `load`'s loop up to `register`: the record one entry describes,
      or the `ValueError` (the `KeyError` for a missing `lastmod`) that stops the load. */
  function DecodeUrl(entry: UrlEntry): (r: Result<Url>)
    ensures r.Success? <==> (entry.loc != "" && entry.lastMod.Some? && ParseIsoDate(entry.lastMod.value).Some?
      && (entry.changeFreq.Some? ==> ParseChangeFreq(entry.changeFreq.value).Some?))
    ensures r.Failure? ==> r.error == DecodeError
    ensures r.Success? ==> (r.value.loc == entry.loc
      && r.value.lastMod == StartOfDay(ParseIsoDate(entry.lastMod.value).value)
      && r.value.priority == DecodePriority(entry.priority)
      && (entry.changeFreq.None? ==> r.value.changeFreq == Unset)
      && (entry.changeFreq.Some? ==> Token(r.value.changeFreq) == entry.changeFreq.value))
  {
    if entry.loc == "" then Failure(DecodeError)
    else if entry.lastMod.None? || entry.lastMod.value == "" then Failure(DecodeError)
    else match ParseIsoDate(entry.lastMod.value)
      case None => Failure(DecodeError)
      case Some(date) =>
        var freq := if entry.changeFreq.None? || entry.changeFreq.value == "" then Some(Unset)
                    else ParseChangeFreq(entry.changeFreq.value);
        if freq.None? then Failure(DecodeError)
        else Success(Url(entry.loc, StartOfDay(date), DecodePriority(entry.priority), freq.value))
  }

  /** `load`: the schema pass over the whole document, then the loop over its
      entries; the first entry that fails to decode ends the load and the
      entries before it stay registered. */
  function LoadDocument(t: map<string, Url>, doc: Element): (map<string, Url>, Outcome) {
    match ReadUrlset(doc)
    case Failure(err) => (t, Fail(err))
    case Success(entries) => LoadEach(t, entries, DecodeUrl, UrlKey)
  }

  /** Loading a document a second time changes nothing more. */
  lemma LoadDocumentIdempotent(t: map<string, Url>, doc: Element)
    requires LoadDocument(t, doc).1 == Pass
    ensures LoadDocument(LoadDocument(t, doc).0, doc) == LoadDocument(t, doc)
  {
    LoadEachIdempotent(t, ReadUrlset(doc).value, DecodeUrl, UrlKey);
  }

  // The round trip.

  /** What the decoder reads back from `UrlElement(u)`. */
  function EntryOf(u: Url): UrlEntry {
    UrlEntry(u.loc, Some(IsoDate(u.lastMod.date)),
      if u.priority == DefaultPriority then None else Some(u.priority),
      if u.changeFreq == Unset then None else Some(Token(u.changeFreq)))
  }

  /** The record with its time of day dropped: what survives being written as a date. */
  function AtDate(u: Url): (r: Url)
    ensures r.loc == u.loc && r.lastMod.date == u.lastMod.date && r.lastMod.second == 0
    ensures r.priority == u.priority && r.changeFreq == u.changeFreq
  {
    u.(lastMod := StartOfDay(u.lastMod.date))
  }

  lemma ReadUrlWritten(u: Url)
    ensures ReadUrl(UrlElement(u)) == Success(EntryOf(u))
  {
    UrlElementFields(u);
    if u.priority != DefaultPriority {
      ThousandthsRoundTrip(u.priority);
    }
  }

  /** The decoder reads back from a written `<urlset>` exactly the entries of its records. */
  lemma ReadUrlsetWritten(urls: seq<Url>)
    requires urls != []
    ensures ReadUrlset(UrlsetElement(urls)) == Success(MapSeq(urls, EntryOf))
  {
    var children := UrlsetElement(urls).children;
    var entries := MapSeq(urls, EntryOf);
    NamedAll(children, "url");
    forall i | 0 <= i < |children| ensures ReadUrl(children[i]) == Success(entries[i]) {
      ReadUrlOf(urls, i);
    }
    ReadAllEach(children, ReadUrl, entries);
  }

  lemma ReadUrlOf(urls: seq<Url>, i: nat)
    requires i < |urls|
    ensures ReadUrl(MapSeq(urls, UrlElement)[i]) == Success(MapSeq(urls, EntryOf)[i])
  {
    ReadUrlWritten(urls[i]);
  }

  /** A written record decodes to itself at date granularity, unless its URL is empty. */
  lemma DecodeWritten(u: Url)
    requires u.loc != ""
    ensures DecodeUrl(EntryOf(u)) == Success(AtDate(u))
  {
    IsoDateRoundTrip(u.lastMod.date);
    if u.changeFreq != Unset {
      assert ParseChangeFreq(Token(u.changeFreq)) == Some(u.changeFreq);
    }
  }

  /** A priority of 0.0 is written as `0.000` and, as written, read back as the default 0.5. */
  lemma ZeroPriorityLostAsWritten(u: Url)
    requires u.priority == 0
    ensures ReadUrl(UrlElement(u)) == Success(EntryOf(u)) && EntryOf(u).priority == Some(0)
    ensures DecodePriorityAsWritten(EntryOf(u).priority) == DefaultPriority != u.priority
    ensures DecodePriority(EntryOf(u).priority) == u.priority
  {
    ReadUrlWritten(u);
  }

  /** Loading one written document registers its records, times of day dropped. */
  lemma LoadWritten(t: map<string, Url>, urls: seq<Url>)
    requires urls != [] && forall i :: 0 <= i < |urls| ==> urls[i].loc != ""
    ensures LoadDocument(t, UrlsetElement(urls)) == (UpsertAll(t, MapSeq(urls, AtDate), UrlKey), Pass)
  {
    ReadUrlsetWritten(urls);
    var entries := MapSeq(urls, EntryOf);
    forall i | 0 <= i < |urls| ensures DecodeUrl(entries[i]) == Success(MapSeq(urls, AtDate)[i]) {
      DecodeWritten(urls[i]);
    }
    LoadEachDecoded(t, entries, DecodeUrl, UrlKey, MapSeq(urls, AtDate));
  }

  /** Loads documents one after the other, stopping at the first that fails. */
  function LoadDocuments(t: map<string, Url>, docs: seq<Element>): (map<string, Url>, Outcome) {
    LoadAll(t, docs, LoadDocument)
  }

  lemma {:induction false} LoadWrittenBatches(t: map<string, Url>, batches: seq<seq<Url>>)
    requires forall i :: 0 <= i < |batches| ==> batches[i] != []
    requires forall i, j :: 0 <= i < |batches| && 0 <= j < |batches[i]| ==> batches[i][j].loc != ""
    ensures LoadDocuments(t, MapSeq(batches, UrlsetElement))
         == (UpsertAll(t, MapSeq(Flatten(batches), AtDate), UrlKey), Pass)
    decreases |batches|
  {
    if batches != [] {
      var first, rest := batches[0], batches[1..];
      LoadWritten(t, first);
      var next := UpsertAll(t, MapSeq(first, AtDate), UrlKey);
      assert MapSeq(batches, UrlsetElement)[1..] == MapSeq(rest, UrlsetElement);
      LoadWrittenBatches(next, rest);
      assert Flatten(batches) == first + Flatten(rest);
      MapSeqAppend(first, Flatten(rest), AtDate);
      UpsertAllAppend(t, MapSeq(first, AtDate), MapSeq(Flatten(rest), AtDate), UrlKey);
    }
  }

  /** The records in `loc` order: what `list_all` returns and `save_files` writes. */
  ghost function UrlListing(t: map<string, Url>): seq<Url> {
    StrLessOrder();
    Listing(t, StrLess)
  }

  /** The document written to one file. */
  function FileElement(f: FileBatch<Url>): Element {
    UrlsetElement(f.entries)
  }

  /** The files of a save, put back together, hold the listing; none is empty. */
  lemma SavedBatches(file: FilePath, t: map<string, Url>)
    requires Keyed(t, UrlKey) && "" !in t
    requires PlanFiles(file, UrlListing(t)).Success?
    ensures Flatten(Contents(PlanFiles(file, UrlListing(t)).value)) == UrlListing(t)
    ensures forall i :: 0 <= i < |Contents(PlanFiles(file, UrlListing(t)).value)| ==>
      Contents(PlanFiles(file, UrlListing(t)).value)[i] != []
    ensures forall i, j :: (0 <= i < |Contents(PlanFiles(file, UrlListing(t)).value)|
      && 0 <= j < |Contents(PlanFiles(file, UrlListing(t)).value)[i]|) ==>
      Contents(PlanFiles(file, UrlListing(t)).value)[i][j].loc != ""
  {
    var rows: seq<Url> := UrlListing(t);
    var batches: seq<seq<Url>> := Contents(PlanFiles(file, rows).value);
    PlanFilesSpec(file, rows);
    UrlListingLocs(t);
    forall i, j | 0 <= i < |batches| && 0 <= j < |batches[i]| ensures batches[i][j].loc != "" {
      FlattenMember(batches, i, j);
    }
  }

  /** Without a record under the empty URL, no listed record has one. */
  lemma UrlListingLocs(t: map<string, Url>)
    requires Keyed(t, UrlKey) && "" !in t
    ensures forall u :: u in UrlListing(t) ==> u.loc != ""
  {
    StrLessOrder();
    ListingRows(t, StrLess, UrlKey);
  }

  /** Upserting the listing, times of day dropped, into an empty table gives the table at date granularity. */
  lemma ListingAtDate(t: map<string, Url>)
    requires Keyed(t, UrlKey)
    ensures UpsertAll(map[], MapSeq(UrlListing(t), AtDate), UrlKey) == MapValues(t, AtDate)
  {
    StrLessOrder();
    ListingRestoresMapped(t, AtDate, StrLess, UrlKey);
  }

  /** Saving a store and loading every file it wrote, in order, into an empty
      store gives back the same records, each with its time of day dropped
      (the documents carry dates only), provided no URL is empty. */
  lemma SaveLoadRoundTrip(file: FilePath, t: map<string, Url>)
    requires Keyed(t, UrlKey) && "" !in t
    requires PlanFiles(file, UrlListing(t)).Success?
    ensures LoadDocuments(map[], MapSeq(PlanFiles(file, UrlListing(t)).value, FileElement))
         == (MapValues(t, AtDate), Pass)
  {
    var files: seq<FileBatch<Url>> := PlanFiles(file, UrlListing(t)).value;
    var batches := Contents(files);
    SavedBatches(file, t);
    assert MapSeq(files, FileElement) == MapSeq(batches, UrlsetElement);
    LoadWrittenBatches(map[], batches);
    ListingAtDate(t);
  }

  // The store.

  /** `Sitemap`: an open or closed store of page records that saves to `file`. */
  class Sitemap {
    const file: FilePath
    var table: map<string, Url>
    var closed: bool

    ghost predicate Valid()
      reads this
    {
      Keyed(table, UrlKey)
    }

    constructor(file: FilePath)
      ensures Valid() && this.file == file && table == map[] && !closed
    {
      this.file := file;
      table := map[];
      closed := false;
    }

    /** Closing twice is the same as closing once; the records are kept but no longer reachable. */
    method Close()
      modifies this
      ensures closed && table == old(table)
    {
      closed := true;
    }

    /** `register`: replaces the record under `loc`, or adds one. */
    method Register(loc: string, lastMod: DateTime, priority: nat, changeFreq: ChangeFreq) returns (o: Outcome)
      requires Valid()
      modifies this
      ensures Valid() && closed == old(closed)
      ensures old(closed) ==> o == Fail(StoreClosed) && table == old(table)
      ensures !old(closed) ==> o == Pass && table == old(table)[loc := Url(loc, lastMod, priority, changeFreq)]
    {
      if closed {
        return Fail(StoreClosed);
      }
      table := table[loc := Url(loc, lastMod, priority, changeFreq)];
      return Pass;
    }

    /** `unregister`: drops the record under `loc`, if any. */
    method Unregister(loc: string) returns (o: Outcome)
      requires Valid()
      modifies this
      ensures Valid() && closed == old(closed)
      ensures old(closed) ==> o == Fail(StoreClosed) && table == old(table)
      ensures !old(closed) ==> o == Pass && table == old(table) - {loc}
    {
      if closed {
        return Fail(StoreClosed);
      }
      table := table - {loc};
      return Pass;
    }

    /** `clear`: drops every record. */
    method Clear() returns (o: Outcome)
      requires Valid()
      modifies this
      ensures Valid() && closed == old(closed)
      ensures old(closed) ==> o == Fail(StoreClosed) && table == old(table)
      ensures !old(closed) ==> o == Pass && table == map[]
    {
      if closed {
        return Fail(StoreClosed);
      }
      table := map[];
      return Pass;
    }

    /** `get`: the record registered under `loc`, `None` when there is none. */
    method Get(loc: string) returns (r: Result<Option<Url>>)
      requires Valid()
      ensures closed ==> r == Failure(StoreClosed)
      ensures !closed && loc in table ==> r == Success(Some(table[loc])) && r.value.value.loc == loc
      ensures !closed && loc !in table ==> r == Success(None)
    {
      if closed {
        return Failure(StoreClosed);
      }
      if loc in table {
        return Success(Some(table[loc]));
      }
      return Success(None);
    }

    /** `list_all`: every record, in ascending `loc` order. */
    method ListAll() returns (r: Result<seq<Url>>)
      ensures closed ==> r == Failure(StoreClosed)
      ensures !closed ==> r == Success(UrlListing(table))
    {
      if closed {
        return Failure(StoreClosed);
      }
      StrLessOrder();
      var rows := ListRows(table, StrLess);
      return Success(rows);
    }

    /** `save_files`: the files written, each with the records it holds. There
        is no open check: on a closed store the query fails on the closed cursor. */
    method SaveFiles() returns (r: Result<seq<FileBatch<Url>>>)
      ensures closed ==> r == Failure(CursorClosed)
      ensures !closed ==> r == PlanFiles(file, UrlListing(table))
    {
      if closed {
        return Failure(CursorClosed);
      }
      StrLessOrder();
      var rows := ListRows(table, StrLess);
      r := SaveBatches(file, rows);
    }

    /** `load`: registers the records of a document, entry by entry. */
    method Load(doc: Element) returns (o: Outcome)
      requires Valid()
      modifies this
      ensures Valid() && closed == old(closed)
      ensures old(closed) ==> o == Fail(StoreClosed) && table == old(table)
      ensures !old(closed) ==> (table, o) == LoadDocument(old(table), doc)
    {
      if closed {
        return Fail(StoreClosed);
      }
      var read := ReadUrlset(doc);
      if read.Failure? {
        return Fail(read.error);
      }
      var entries := read.value;
      for i := 0 to |entries|
        invariant Valid() && !closed
        invariant LoadDocument(old(table), doc) == LoadEach(table, entries[i..], DecodeUrl, UrlKey)
      {
        assert entries[i..][1..] == entries[i + 1..];
        var decoded := DecodeUrl(entries[i]);
        if decoded.Failure? {
          return Fail(decoded.error);
        }
        var u := decoded.value;
        var registered := Register(u.loc, u.lastMod, u.priority, u.changeFreq);
      }
      return Pass;
    }
  }

  // The re-registration defect.

  /** `register` as written for a `loc` already present: the `UPDATE` statement
      qualifies its first column with the table name, which SQLite's `UPDATE`
      grammar does not accept, so the call raises and nothing changes. */
  function RegisterAsWritten(t: map<string, Url>, u: Url): (r: (map<string, Url>, Outcome))
    ensures r.0 == (if u.loc in t then t else t[u.loc := u])
    ensures r.1 == (if u.loc in t then Fail(SqlError) else Pass)
  {
    if u.loc in t then (t, Fail(SqlError)) else (t[u.loc := u], Pass)
  }

  /** As written, registering a page a second time raises instead of updating it,
      where the intended upsert replaces that one record and keeps the others. */
  lemma ReRegisterAsWrittenRaises(t: map<string, Url>, u: Url, v: Url)
    requires Keyed(t, UrlKey) && u.loc in t && v.loc == u.loc && v != t[u.loc]
    ensures RegisterAsWritten(t, v).1 == Fail(SqlError) && RegisterAsWritten(t, v).0[u.loc] != v
    ensures UpsertAll(t, [v], UrlKey) == t[u.loc := v] && Keyed(UpsertAll(t, [v], UrlKey), UrlKey)
  {
    assert UpsertAll(t, [v], UrlKey) == UpsertAll(t[v.loc := v], [], UrlKey);
  }
}
