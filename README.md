# sitemap — a Dafny model of the record stores and the sitemap-index builder

The `sitemap` package writes sitemaps.org 0.9 documents. It keeps three kinds
of record store:

- a URL sitemap (`Sitemap`), keyed by page URL;
- an image sitemap (`ImageSitemap`), keyed by the pair (page URL, image URL) and grouped by page on output;
- a sitemap index (`SitemapIndex`), keyed by sitemap URL.

Each store can:

- register, unregister and clear records, and look one record up;
- list every record in URL order;
- save the listing as `<urlset>` or `<sitemapindex>` documents. The URL and image stores split the listing over files of at most 50000 entries, named `stem`, `stem2`, `stem3`, …;
- load a document back by registering its entries one after the other.

`AutoSitemapIndex.save_files` saves a list of child stores in order. It hands on every file a child writes and registers each file in a fresh index under the URL `Host.path_to_url` gives it. The index file comes last.

The model is a Dafny project of fourteen modules:

| module | file | models |
|---|---|---|
| `Results` | results.dfy | `Option`, `Result`, `Outcome` and the exceptions the core raises |
| `Numerals` | numerals.dfy | decimal digits, `"{:.3f}"` for a priority held in thousandths, and its parser |
| `Dates` | dates.dfy | calendar dates, `date().isoformat()` and `fromisoformat` on a date |
| `Ordering` | ordering.dfy | code-point string order (SQLite's BINARY collation), and the selection sort standing in for `ORDER BY` |
| `Tables` | tables.dfy | a table as a keyed `map`, its sorted listing, and upserting a sequence of rows |
| `Xml` | xml.dfy | the element tree `_as_element` builds, and child lookup by tag |
| `Paths` | paths.dfy | the part of `pathlib` the core uses: `name`, `stem`, `suffix`, `with_stem` and `relative_to` |
| `Batching` | batching.dfy | `itertools.batched(…, 50000)` and the batch file names |
| `Loading` | loading.dfy | the fail-fast register loop every `load` runs |
| `UrlSitemaps` | sitemap.dfy | `ChangeFreq`, `URL`, `SitemapFile._as_element` and the class `Sitemap` |
| `ImageSitemaps` | image_sitemap.dfy | `Image`, `URL`, `ImageSitemapFile._as_element`, the grouping by page, and the class `ImageSitemap` |
| `SitemapIndexes` | sitemap_index.dfy | `Sitemap`, `SitemapIndexFile._as_element` and the class `SitemapIndex` |
| `Hosts` | host.dfy | `Host` and `path_to_url` |
| `AutoSitemapIndexes` | auto_sitemap_index.dfy | `AutoSitemapIndex.save_files` |

Each store is a Dafny class. Its fields are:

- `table`: a `map` from the record key to the record;
- `closed`: the flag that `must_be_open` checks;
- `file`: the path the store saves to.

Its methods update `table` in place. The SQL `ORDER BY` becomes `Ordering.Sort`, a loop specified by the ghost function `Ordering.Ordered`. `save_files` becomes the loop `Batching.SaveBatches`, specified by `Batching.PlanFiles`. Each `load` is a loop that decodes and registers entries, specified by a `LoadDocument` function.

The round-trip lemmas tie writing and loading together. For each kind, they show that the documents a store saves load back into the same table, up to the time of day, which a `<lastmod>` date drops.

The model keeps two behaviours of the code:

- A `load` is not all-or-nothing. Entries registered before the first bad entry stay registered.
- `save_files` has no open check. On a closed store it fails on the closed cursor, modelled as `CursorClosed`.

## Model

| member | source | states |
|---|---|---|
| UrlSitemaps.ParseChangeFreq | src/sitemap/sitemap.py:15-24 | `ChangeFreq(s)` finds a member exactly when `s` is that member's token, so token and member convert both ways |
| UrlSitemaps.UrlChildren | src/sitemap/sitemap.py:47-58 | a `<url>` holds `<loc>` then `<lastmod>` (the date as YYYY-MM-DD), then `<priority>` only when the priority is not 0.5, then `<changefreq>` only when it is set, in that order |
| UrlSitemaps.UrlElementFields | src/sitemap/sitemap.py:47-58 | the decoder finds the record's loc and date in the `<url>` it is written as; it finds a priority exactly when the priority is not the default, and a changefreq exactly when one is set |
| UrlSitemaps.UrlsetElement | src/sitemap/sitemap.py:43-59 | the document is a `<urlset>` in the sitemap namespace with exactly one child per record; the i-th is a `<url>` whose first two children are the i-th record's `<loc>` and its date as `<lastmod>` |
| UrlSitemaps.ReadUrl | src/sitemap/sitemap.py:160-171 | an entry can be read exactly when it has a `<loc>` and any `<priority>` text is a decimal with at most three fraction digits; loc, lastmod and changefreq are the child texts, and the priority is that decimal in thousandths (a missing lastmod is a failure of `DecodeUrl`) |
| UrlSitemaps.DecodePriority | src/sitemap/sitemap.py:171-175 | a present priority is kept, zero included; an absent one becomes 0.5 |
| UrlSitemaps.DecodeUrl | src/sitemap/sitemap.py:161-181 | an entry decodes exactly when its loc is non-empty, its lastmod is a date and its changefreq, if any, is a known token; every failure is `DecodeError`: the `ValueError` of an empty field, a bad date or an unknown token, or the `KeyError` of a missing lastmod; the record is the loc, the start of that day, the decoded priority, and the member whose token was given (`NONE` when none was given) |
| UrlSitemaps.LoadDocumentIdempotent | src/sitemap/sitemap.py:157-181 | loading a document a second time after a load that passed changes nothing |
| UrlSitemaps.ReadUrlsetWritten | src/sitemap/sitemap.py:43-59 | reading a written `<urlset>` gives back one entry per record, in order |
| UrlSitemaps.DecodeWritten | src/sitemap/sitemap.py:161-181 | a written record with a non-empty loc decodes to itself, up to its time of day |
| UrlSitemaps.LoadWritten | src/sitemap/sitemap.py:157-181 | loading a written document upserts every record it holds, in order, and passes |
| UrlSitemaps.LoadWrittenBatches | src/sitemap/sitemap.py:144-152 | loading the documents of several batches one after the other upserts the records of all of them and passes |
| UrlSitemaps.SavedBatches | src/sitemap/sitemap.py:140-152 | the saved files hold the sorted listing once and in order, at most 50000 records and never zero per file, each file at a path of its own |
| UrlSitemaps.SaveLoadRoundTrip | src/sitemap/sitemap.py:140-181 | loading every file a store saves into an empty store gives back its table, each date at the start of its day |
| UrlSitemaps.Sitemap.constructor | src/sitemap/sitemap.py:80-83 | a new store is open, empty and bound to its file |
| UrlSitemaps.Sitemap.Close | src/sitemap/sitemap.py:99-100 | closing keeps the records and closes the store |
| UrlSitemaps.Sitemap.Register | src/sitemap/sitemap.py:102-108 | on an open store, the record of `loc` becomes the one given and no other record changes; on a closed store it raises and nothing changes |
| UrlSitemaps.Sitemap.Unregister | src/sitemap/sitemap.py:110-112 | removes the record of `loc` if there is one and nothing else; it raises on a closed store |
| UrlSitemaps.Sitemap.Clear | src/sitemap/sitemap.py:114-116 | empties the store; it raises on a closed store |
| UrlSitemaps.Sitemap.Get | src/sitemap/sitemap.py:118-128 | returns the record of `loc`, whose loc is `loc`, or `None` when there is none; it raises on a closed store |
| UrlSitemaps.Sitemap.ListAll | src/sitemap/sitemap.py:130-138 | returns the store's listing sorted by loc; it raises on a closed store |
| UrlSitemaps.Sitemap.SaveFiles | src/sitemap/sitemap.py:140-152 | returns the files the split of the sorted listing gives; on a closed store the cursor raises |
| UrlSitemaps.Sitemap.Load | src/sitemap/sitemap.py:157-181 | the table and outcome after a load are those `LoadDocument` gives; it raises on a closed store |
| UrlSitemaps.ReRegisterAsWrittenRaises | src/sitemap/sitemap.py:104-106 | as written, registering a loc that is already present raises and keeps the old record, where the upsert would have replaced only that record |
| UrlSitemaps.ZeroPriorityLostAsWritten | src/sitemap/sitemap.py:171-175 | as written, a priority of zero is written and read back but decodes as 0.5; `DecodePriority` keeps it |
| ImageSitemaps.FindPage | src/sitemap/image_sitemap.py:253 | finds the group of a page exactly when the page has one |
| ImageSitemaps.GroupSpec | src/sitemap/image_sitemap.py:250-256 | grouping rows that are in page order gives pages in strictly ascending order, none without images, whose images, read page after page, are the rows again |
| ImageSitemaps.GroupRows | src/sitemap/image_sitemap.py:250-256 | the loop that builds the ordered dictionary computes the grouping of the rows |
| ImageSitemaps.PagesSpec | src/sitemap/image_sitemap.py:237-257 | the pages listed are well grouped, and their images, read page after page, are the table's rows in (page, image) order |
| ImageSitemaps.PageOfSpec | src/sitemap/image_sitemap.py:212-235 | a page is found exactly when it has an image; it then holds every image of that page once, in image-URL order |
| ImageSitemaps.Optional | src/sitemap/image_sitemap.py:89-100 | an optional image field is written, as one child, exactly when it is non-empty |
| ImageSitemaps.ImageElementFields | src/sitemap/image_sitemap.py:85-100 | an `<image:image>` gives back its loc, and each optional field exactly when it is non-empty |
| ImageSitemaps.ImageElement | src/sitemap/image_sitemap.py:86-100 | an `<image:image>` starts with the image's `<image:loc>`, followed by `<image:caption>`, `<image:geo_location>`, `<image:title>` and `<image:license>` in that order, each only when its text is non-empty |
| ImageSitemaps.PageElement | src/sitemap/image_sitemap.py:82-86 | a `<url>` holds the page's `<loc>` and then exactly one `<image:image>` per image; the i-th of them starts with the i-th image's `<image:loc>` |
| ImageSitemaps.UrlsetElement | src/sitemap/image_sitemap.py:76-101 | the document is a `<urlset>` declaring the sitemap and image namespaces, with exactly one child per page; the i-th is a `<url>` starting with the i-th page's `<loc>` |
| ImageSitemaps.ReadImage | src/sitemap/image_sitemap.py:292-316 | an image can be read exactly when it has an `<image:loc>`; its optional fields are the child texts |
| ImageSitemaps.ReadPage | src/sitemap/image_sitemap.py:284-291 | a page can be read exactly when it has a `<loc>` and each of its images can be read |
| ImageSitemaps.DecodeImage | src/sitemap/image_sitemap.py:292-317 | an image decodes exactly when its loc is non-empty, into the row of its page and image |
| ImageSitemaps.LoadImagesKeyed | src/sitemap/image_sitemap.py:291-317 | loading the images of a page keeps the table keyed and only adds or replaces rows |
| ImageSitemaps.ReadImageUrlsetWritten | src/sitemap/image_sitemap.py:76-101 | reading a written image `<urlset>` gives back one entry per page, with its images, in order |
| ImageSitemaps.LoadWritten | src/sitemap/image_sitemap.py:280-319 | loading a written document upserts every image of every page, in order, and passes |
| ImageSitemaps.LoadWrittenBatches | src/sitemap/image_sitemap.py:266-274 | loading the documents of several batches upserts the images of all of them and passes |
| ImageSitemaps.SavedBatches | src/sitemap/image_sitemap.py:259-274 | the saved files hold the pages once and in order, at most 50000 pages and never zero per file, each at a path of its own |
| ImageSitemaps.SaveLoadRoundTrip | src/sitemap/image_sitemap.py:259-319 | loading every file a store saves into an empty store gives back its table |
| ImageSitemaps.ImageSitemap.constructor | src/sitemap/image_sitemap.py:129-132 | a new store is open, empty and bound to its file |
| ImageSitemaps.ImageSitemap.Close | src/sitemap/image_sitemap.py:148-149 | closing keeps the records and closes the store |
| ImageSitemaps.ImageSitemap.Register | src/sitemap/image_sitemap.py:175-180 | on an open store, the row of (page, image) becomes the one given and no other row changes; on a closed store it raises |
| ImageSitemaps.ImageSitemap.Unregister | src/sitemap/image_sitemap.py:202-203 | removes the row of (page, image) if there is one and nothing else; it raises on a closed store |
| ImageSitemaps.ImageSitemap.Clear | src/sitemap/image_sitemap.py:209-210 | empties the store; it raises on a closed store |
| ImageSitemaps.ImageSitemap.Get | src/sitemap/image_sitemap.py:228-235 | returns the page with its images, or `None` when it has none; it raises on a closed store |
| ImageSitemaps.ImageSitemap.ListAll | src/sitemap/image_sitemap.py:248-257 | returns the pages grouped from the sorted rows; it raises on a closed store |
| ImageSitemaps.ImageSitemap.SaveFiles | src/sitemap/image_sitemap.py:259-274 | returns the files the split of the pages gives; on a closed store the cursor raises |
| ImageSitemaps.ImageSitemap.Load | src/sitemap/image_sitemap.py:280-319 | the table and outcome after a load are those `LoadDocument` gives; it raises on a closed store |
| SitemapIndexes.SitemapElement | src/sitemap/sitemap_index.py:51-56 | a `<sitemap>` holds `<loc>` then `<lastmod>` |
| SitemapIndexes.SitemapElementFields | src/sitemap/sitemap_index.py:51-56 | the decoder finds the loc and the date, as YYYY-MM-DD, in the `<sitemap>` they are written as |
| SitemapIndexes.SitemapIndexElement | src/sitemap/sitemap_index.py:47-57 | the document is a `<sitemapindex>` in the sitemap namespace with exactly one child per record; the i-th is a `<sitemap>` whose children start with the i-th record's `<loc>` and its date as `<lastmod>` |
| SitemapIndexes.IndexFilesSpec | src/sitemap/sitemap_index.py:201-209 | the index is never split: it writes one file, at its own path and holding every record, or none when it is empty |
| SitemapIndexes.ReadSitemap | src/sitemap/sitemap_index.py:218-228 | an entry can be read exactly when it has a `<loc>` |
| SitemapIndexes.DecodeSitemap | src/sitemap/sitemap_index.py:219-229 | an entry decodes exactly when its loc is non-empty and its lastmod is a date; every failure is `DecodeError`: the `ValueError` of an empty field or a bad date, or the `KeyError` of a missing lastmod |
| SitemapIndexes.LoadDocumentIdempotent | src/sitemap/sitemap_index.py:215-229 | loading a document a second time after a load that passed changes nothing |
| SitemapIndexes.LoadDocumentRegisters | src/sitemap/sitemap_index.py:215-229 | after a load that passed, every entry of the document is registered and no record was lost |
| SitemapIndexes.ReadSitemapIndexWritten | src/sitemap/sitemap_index.py:47-57 | reading a written `<sitemapindex>` gives back one entry per record, in order |
| SitemapIndexes.DecodeWritten | src/sitemap/sitemap_index.py:219-229 | a written record with a non-empty loc decodes to itself, up to its time of day |
| SitemapIndexes.LoadWritten | src/sitemap/sitemap_index.py:215-229 | loading a written document upserts every record it holds, in order, and passes |
| SitemapIndexes.IndexListingSpec | src/sitemap/sitemap_index.py:182-199 | the listing holds every record once, strictly ascending by loc, and each is the table's record for its loc |
| SitemapIndexes.SaveLoadRoundTrip | src/sitemap/sitemap_index.py:201-229 | loading the file an index saves into an empty index gives back its table, each date at the start of its day |
| SitemapIndexes.SitemapIndex.constructor | src/sitemap/sitemap_index.py:87-90 | a new index is open, empty and bound to its file |
| SitemapIndexes.SitemapIndex.Close | src/sitemap/sitemap_index.py:106-107 | closing keeps the records and closes the index |
| SitemapIndexes.SitemapIndex.Register | src/sitemap/sitemap_index.py:125-130 | on an open index, the record of `loc` becomes the one given and no other changes; on a closed one it raises |
| SitemapIndexes.SitemapIndex.Unregister | src/sitemap/sitemap_index.py:146-147 | removes the record of `loc` if there is one and nothing else; it raises on a closed index |
| SitemapIndexes.SitemapIndex.Clear | src/sitemap/sitemap_index.py:153-154 | empties the index; it raises on a closed index |
| SitemapIndexes.SitemapIndex.Get | src/sitemap/sitemap_index.py:172-180 | returns the record of `loc` or `None`; it raises on a closed index |
| SitemapIndexes.SitemapIndex.ListAll | src/sitemap/sitemap_index.py:193-199 | returns the listing sorted by loc; it raises on a closed index |
| SitemapIndexes.SitemapIndex.SaveFiles | src/sitemap/sitemap_index.py:201-209 | returns the single file of the sorted listing, or none for an empty index; on a closed index the cursor raises |
| SitemapIndexes.SitemapIndex.Load | src/sitemap/sitemap_index.py:215-229 | the table and outcome after a load are those `LoadDocument` gives; it raises on a closed index |
| Hosts.PathToUrl | src/sitemap/host.py:35-80 | a URL is made exactly when the path is the root or lies below it; otherwise the `ValueError` of `relative_to` |
| Hosts.PathToUrlLayout | src/sitemap/host.py:67-80 | the URL is the host's authority (`scheme:` and `//netloc`), then `/` for the root or `/` and the components joined by `/`, with a trailing `/` only for a directory (declared or found on disk) other than the root, then `;params`, `?query` and `#fragment`, each only when non-empty |
| Hosts.UrlUnparseLayout | src/sitemap/host.py:73-80 | `urlunparse` of a path starting with a single `/` is the authority, the path and the tail |
| Hosts.PathToUrlInjective | src/sitemap/host.py:67-80 | two paths below the root never share a URL |
| Hosts.RootExample | test/test_host.py:11 | the root maps to `http://www.example.com/?a=b&c=d#e` |
| Hosts.FileExample | test/test_host.py:12 | `sample` maps to `http://www.example.com/sample?a=b&c=d#e` |
| Hosts.DirectoryExample | test/test_host.py:13 | `sample` as a directory maps to `http://www.example.com/sample/?a=b&c=d#e` |
| AutoSitemapIndexes.HostUrlErrors | src/sitemap/auto_sitemap_index.py:36 | the only exception `path_to_url` raises for a child file is the one of a file outside the root |
| AutoSitemapIndexes.RefsOfSpec | src/sitemap/auto_sitemap_index.py:35-38 | a child's files are registered in order, each under its URL and modification time, up to the first file outside the root, whose exception ends the run |
| AutoSitemapIndexes.GatherSpec | src/sitemap/auto_sitemap_index.py:34-39 | each file handed on has its record; a run that passes hands on every child's files, child after child, each child's in its own order |
| AutoSitemapIndexes.GatherErrors | src/sitemap/auto_sitemap_index.py:34-39 | a run that raises raised a child's own exception or the one of `path_to_url` |
| AutoSitemapIndexes.AutoSaveFilesPaths | src/sitemap/auto_sitemap_index.py:34-40 | the files handed on are the child files in order, then the index file, only when the run passed and some child wrote a file |
| AutoSitemapIndexes.AutoSaveFilesIndex | src/sitemap/auto_sitemap_index.py:40 | when some child wrote a file, exactly one index file comes last, at the index path, listing the index entries |
| AutoSitemapIndexes.IndexEntriesOrdered | src/sitemap/auto_sitemap_index.py:40 | the index lists its entries strictly ascending by URL, whatever the child order |
| AutoSitemapIndexes.IndexEntriesRegistered | src/sitemap/auto_sitemap_index.py:36-38 | every index entry is the URL and modification time of a file handed on |
| AutoSitemapIndexes.IndexEntriesCover | src/sitemap/auto_sitemap_index.py:35-38 | the URL of every file handed on is in the index |
| AutoSitemapIndexes.NothingToIndex | src/sitemap/auto_sitemap_index.py:40 | when no child writes a file, nothing at all is handed on |
| AutoSitemapIndexes.RegisterFiles | src/sitemap/auto_sitemap_index.py:35-39 | the inner loop registers the records of a child's files in the index and hands those files on, stopping at the first file outside the root |
| AutoSitemapIndexes.SaveFiles | src/sitemap/auto_sitemap_index.py:32-41 | the files handed on and the final outcome are those `AutoSaveFiles` describes |
| Batching.BatchesFlatten | src/sitemap/sitemap.py:144 | the batches put back together are the input |
| Batching.BatchesSizes | src/sitemap/sitemap.py:144 | every batch holds between 1 and 50000 entries, and all but the last exactly 50000 |
| Batching.ThreeFilesExample | src/sitemap/sitemap.py:144 | 100001 entries make three batches |
| Batching.PlanFilesSpec | src/sitemap/sitemap.py:143-152 | a save writes every entry once and in order, never an empty file and never two files at one path, the first file at the store's path, and no file at all for no entries |
| Batching.SaveBatches | src/sitemap/sitemap.py:143-152 | the save loop returns exactly the files `PlanFiles` describes, or the `ValueError` of a path that cannot be formed |
| Paths.WithStem | src/sitemap/sitemap.py:146 | `with_stem` keeps the directory and the suffix and renames the stem, failing exactly when the new name is not a single component |
| Paths.BatchPathsDistinct | src/sitemap/sitemap.py:145-148 | two batches of one save never go to the same path |
| Paths.SecondBatchExample | src/sitemap/sitemap.py:146 | the second file of `.test/sample.xml` is `.test/sample2.xml` |
| Paths.RelativeTo | src/sitemap/host.py:70 | `relative_to` succeeds exactly when the root is the path or one of its parents, giving the components below it |
| Ordering.StrLessOrder | src/sitemap/sitemap.py:132 | the string order of `ORDER BY loc` is a strict total order |
| Ordering.Ordered | src/sitemap/sitemap.py:132 | the ordered listing of a set is sorted and holds each element once |
| Ordering.SortedUnique | src/sitemap/sitemap.py:132 | only one sorted sequence holds a given set |
| Ordering.Sort | src/sitemap/sitemap.py:132 | the sort loop returns the ordered listing of the set |
| Tables.ListingSpec | src/sitemap/sitemap.py:130-138 | a listing holds one row per key of the table, strictly ascending by key, each the table's row for its key |
| Tables.ListRows | src/sitemap/sitemap.py:132-138 | the listing loop returns the table's listing |
| Tables.UpsertAllIdempotent | src/sitemap/sitemap.py:160-181 | registering the same rows twice is the same as registering them once |
| Tables.ListingRebuilds | src/sitemap/sitemap.py:140-181 | registering a table's listing into an empty table rebuilds the table |
| Loading.LoadEachSpec | src/sitemap/sitemap.py:160-181 | a load upserts the records decoded before the first failing entry, and passes exactly when no entry fails |
| Loading.LoadEachIdempotent | src/sitemap/sitemap.py:160-181 | repeating a load that passed changes nothing |
| Dates.IsoDateRoundTrip | src/sitemap/sitemap.py:52 | a date written as YYYY-MM-DD parses back to itself |
| Dates.ParseIsoDateCanonical | src/sitemap/sitemap.py:168 | a date text that parses is the canonical writing of the date it gives |
| Numerals.ThousandthsRoundTrip | src/sitemap/sitemap.py:55 | a priority written with three decimals parses back to the same number of thousandths |
| Xml.NamedSpec | src/sitemap/sitemap.py:160 | the children picked by tag all carry the tag, come from the element, and are none exactly when no child has the tag |
| Xml.ReadAll | src/sitemap/sitemap.py:160 | reading a list succeeds exactly when every item reads, giving one value per item in order |

## Left out

- SQLite: the connection, cursor and SQL text. A table is a `map` from its key to its row, and `ORDER BY` is `Ordering.Sort`. The image table's rows are keyed by (page, image) because `register` never inserts a second row for one pair.
- The `closeable` package and `__enter__`/`__exit__`: a store has only a `closed` flag, and every method that calls `must_be_open` returns `StoreClosed` when it is set.
- XML schema validation and `to_dict`: a document is an `Xml.Element` tree, and a schema failure is a single `DecodeError`. The schemas' own value checks (URL length, the priority range, the changefreq enumeration) are not modelled. The schema would reject the whole document before anything is registered. In the model an unknown changefreq token is still rejected, by `UrlSitemaps.DecodeUrl`, as `ChangeFreq(...)` rejects it, but only when its entry is reached, after the entries before it have been registered.
- XML text: serialisation, escaping, the XML declaration, `use_indent` and writing the file are not modelled. A saved file is its path and the records it holds; the document is `FileElement` of it.
- Floating point: a priority is a whole number of thousandths. A written priority with more than three decimals, or a loaded one such as `0.1234`, is outside the model, and so is a negative priority, which `register` accepts.
- `datetime`: a time is a calendar date and a second of the day. Time zones, daylight saving, sub-second precision and the round trip through `timestamp()`/`fromtimestamp` are not modelled; the stored time is the time given. `fromisoformat` is modelled only on the YYYY-MM-DD form that the stores write.
- `Path.is_dir()` in `path_to_url` is the parameter `isDirOnDisk`, and `stat().st_mtime` in `AutoSitemapIndex.save_files` is the parameter `mtime`.
- `urllib.parse.urlunparse` is modelled as CPython 3.12 writes it, with its `uses_netloc` list of schemes.
- Generator laziness in `AutoSitemapIndex.save_files`: the model returns every file the generator hands on and whether it then ended or raised. A consumer that stops early, so that the closing line never runs, is not modelled.
- The child stores of `AutoSitemapIndex` appear only as what their own `save_files` returned: the written paths, or the exception it raised.
- Closing the internal index at the end of `AutoSitemapIndex.save_files` happens, but nothing can observe it, since the index is local.
- UrlSitemaps.Sitemap.Register: models the per-key upsert that the other two stores implement, not the update branch of `sitemap.py:104-106`, which raises. That branch is `UrlSitemaps.RegisterAsWritten`; see Findings.
- UrlSitemaps.ReadUrl: accepts a `<priority>` only as digits, optionally a point and at most three fraction digits. The code's `float` also loads `.5`, `+0.5`, `1.` and texts with more digits such as `0.1234`, which the model reads as a `DecodeError`.
- UrlSitemaps.DecodeUrl: parses `<lastmod>` only in the YYYY-MM-DD form. `fromisoformat` also accepts a W3C datetime such as `2025-01-23T10:00:00+00:00`, which the model rejects with the `ValueError`. It also keeps a `<priority>` of zero, as `UrlSitemaps.DecodePriority` does; see Findings row 2.
- UrlSitemaps.DecodePriority: keeps a decoded zero priority, where the code's `if priority_source:` turns it into 0.5. This is the corrected behaviour of Findings row 2; the code as written is `UrlSitemaps.DecodePriorityAsWritten`.
- UrlSitemaps.LoadDocumentIdempotent: relies on the per-key upsert of `UrlSitemaps.Sitemap.Register`. As written, a second load raises on the first loc already present (Findings row 1), after registering nothing.
- UrlSitemaps.Sitemap.Load: registers with the corrected upsert (Findings row 1) and the corrected priority decoding (Findings row 2).
- SitemapIndexes.DecodeSitemap: parses `<lastmod>` only in the YYYY-MM-DD form, like `UrlSitemaps.DecodeUrl`. A W3C datetime that `fromisoformat` accepts is rejected with the `ValueError`.
- `abc.py` and `__init__.py` are interfaces and re-exports; `loads` only wraps `load` around a string stream.

## Findings

| source | as written | input that shows it | evidently intended | confidence | as-written member | corrected member |
|---|---|---|---|---|---|---|
| src/sitemap/sitemap.py:104-106 | registering a loc that is already present runs an `UPDATE` whose `SET` names the qualified column `url.last_mod_seconds`. SQLite's `UPDATE` grammar rejects that. The statement also has no `WHERE`, so it would touch every row. | `register("https://example.com/", d)` called twice with the same loc, or a `load` of a document that repeats a loc or repeats one already stored | replace the record of that loc only, as `SitemapIndex.register` and `ImageSitemap.register` do | medium, not executed | UrlSitemaps.ReRegisterAsWrittenRaises | UrlSitemaps.Sitemap.Register |
| src/sitemap/sitemap.py:171-175 | `if priority_source:` is false for a decoded decimal zero, so a stored priority of 0.0 is written as `<priority>0.000</priority>` and loads back as 0.5 | a `Sitemap` holding one URL with priority 0.0, saved and loaded into an empty store | only an absent `<priority>` takes the default 0.5 | medium, not executed | UrlSitemaps.ZeroPriorityLostAsWritten | UrlSitemaps.SaveLoadRoundTrip |
