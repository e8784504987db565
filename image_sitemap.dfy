/** The image sitemap (`image_sitemap.py`): the store of images keyed by page
    and image URL, the grouping of its rows by page that `list_all` and
    `save_files` build, the `<urlset>` document with the image extension it
    writes, and the decoder that registers the images of such a document.

    The SQLite table `image` has no uniqueness constraint, but `register`
    updates the row of an existing (page, image) pair instead of inserting a
    second one, so the table is the map `table` from that pair to its row. */
module ImageSitemaps {
  import opened Results
  import opened Ordering
  import opened Tables
  import opened Xml
  import opened Paths
  import opened Batching
  import opened Loading
  import UrlSitemaps

  /** `Image`: one image of a page; an unset optional field is `""`. */
  datatype Image = Image(loc: string, caption: string, geoLocation: string, title: string, license: string)

  /** A row of the table `image`: a page and one of its images. */
  datatype Row = Row(page: string, image: Image)

  /** The columns `register`, `unregister` and the `ORDER BY` use: `(loc, image_loc)`. */
  function RowKey(r: Row): (string, string) {
    (r.page, r.image.loc)
  }

  /** `URL`: a page with its images. */
  datatype Page = Page(loc: string, images: seq<Image>)

  // Grouping rows by page: the `OrderedDict` of `list_all` and `save_files`.

  /** The position of the group of `page`, if it has one: the dictionary lookup. */
  function FindPage(groups: seq<Page>, page: string): (r: Option<nat>)
    ensures r.Some? ==> r.value < |groups| && groups[r.value].loc == page
    ensures r.None? <==> forall k :: 0 <= k < |groups| ==> groups[k].loc != page
    decreases |groups|
  {
    if groups == [] then None
    else if groups[0].loc == page then Some(0)
    else
      var rest := FindPage(groups[1..], page);
      assert forall k :: 1 <= k < |groups| ==> groups[k] == groups[1..][k - 1];
      if rest.None? then None else Some(rest.value + 1)
  }

  /** `url_images.setdefault(loc, []).append(image)`. */
  function AddRow(groups: seq<Page>, r: Row): seq<Page> {
    match FindPage(groups, r.page)
    case None => groups + [Page(r.page, [r.image])]
    case Some(k) => groups[k := groups[k].(images := groups[k].images + [r.image])]
  }

  /** The dictionary built from `rows`, taken in order. */
  function Group(rows: seq<Row>): seq<Page>
    decreases |rows|
  {
    if rows == [] then [] else AddRow(Group(rows[..|rows| - 1]), rows[|rows| - 1])
  }

  /** The rows of one page, image by image. */
  function RowsOf(p: Page): (r: seq<Row>)
    ensures |r| == |p.images| && forall i :: 0 <= i < |r| ==> r[i] == Row(p.loc, p.images[i])
  {
    seq(|p.images|, i requires 0 <= i < |p.images| => Row(p.loc, p.images[i]))
  }

  /** The rows a grouping holds, page after page: the inverse of `Group` on sorted rows. */
  function Ungroup(groups: seq<Page>): seq<Row> {
    if groups == [] then [] else RowsOf(groups[0]) + Ungroup(groups[1..])
  }

  lemma {:induction false} UngroupAppend(a: seq<Page>, b: seq<Page>)
    ensures Ungroup(a + b) == Ungroup(a) + Ungroup(b)
  {
    if a != [] {
      assert (a + b)[1..] == a[1..] + b;
      UngroupAppend(a[1..], b);
    } else {
      assert a + b == b;
    }
  }

  /** Every image of every group is a row of the grouping. */
  lemma {:induction false} UngroupMember(groups: seq<Page>, i: nat, j: nat)
    requires i < |groups| && j < |groups[i].images|
    ensures Row(groups[i].loc, groups[i].images[j]) in Ungroup(groups)
    decreases i
  {
    if i > 0 {
      UngroupMember(groups[1..], i - 1, j);
    } else {
      assert RowsOf(groups[0])[j] == Row(groups[i].loc, groups[i].images[j]);
    }
  }

  /** Pages in strictly ascending order, none of them without an image. */
  predicate WellGrouped(groups: seq<Page>) {
    (forall i, j :: 0 <= i < j < |groups| ==> StrLess(groups[i].loc, groups[j].loc))
    && forall i :: 0 <= i < |groups| ==> groups[i].images != []
  }

  /** Rows whose pages never go down: the rows of one page come together. */
  predicate PagesAscending(rows: seq<Row>) {
    forall i, j :: 0 <= i < j < |rows| ==> rows[i].page == rows[j].page || StrLess(rows[i].page, rows[j].page)
  }

  /** On rows whose pages never go down, grouping gives one group per page, in
      ascending page order, and ungrouping gives the rows back in their order. */
  lemma {:induction false} GroupSpec(rows: seq<Row>)
    requires PagesAscending(rows)
    ensures WellGrouped(Group(rows)) && Ungroup(Group(rows)) == rows
    ensures rows != [] ==> Group(rows) != [] && Group(rows)[|Group(rows)| - 1].loc == rows[|rows| - 1].page
    decreases |rows|
  {
    if rows != [] {
      var init, r := rows[..|rows| - 1], rows[|rows| - 1];
      PagesAscendingInit(rows);
      GroupSpec(init);
      assert rows == init + [r];
      GroupAppend(init, r);
    }
  }

  /** One more row, at or above the last page, keeps the grouping well formed and in order. */
  lemma GroupAppend(init: seq<Row>, r: Row)
    requires WellGrouped(Group(init)) && Ungroup(Group(init)) == init
    requires init != [] ==> Group(init) != [] && Group(init)[|Group(init)| - 1].loc == init[|init| - 1].page
    requires init != [] ==> init[|init| - 1].page == r.page || StrLess(init[|init| - 1].page, r.page)
    ensures WellGrouped(Group(init + [r])) && Ungroup(Group(init + [r])) == init + [r]
    ensures Group(init + [r]) != [] && Group(init + [r])[|Group(init + [r])| - 1].loc == r.page
  {
    assert (init + [r])[..|init|] == init;
    if init == [] {
      GroupFirst(r);
    } else {
      GroupStep(Group(init), init, r);
    }
  }

  lemma PagesAscendingInit(rows: seq<Row>)
    requires rows != [] && PagesAscending(rows)
    ensures PagesAscending(rows[..|rows| - 1])
    ensures |rows| > 1 ==> rows[|rows| - 2].page == rows[|rows| - 1].page || StrLess(rows[|rows| - 2].page, rows[|rows| - 1].page)
  {
    var init := rows[..|rows| - 1];
    forall i, j | 0 <= i < j < |init| ensures init[i].page == init[j].page || StrLess(init[i].page, init[j].page) {
      assert init[i] == rows[i] && init[j] == rows[j];
    }
  }

  lemma GroupFirst(r: Row)
    ensures Group([] + [r]) == [Page(r.page, [r.image])]
    ensures WellGrouped(Group([] + [r])) && Ungroup(Group([] + [r])) == [] + [r]
  {
    assert [] + [r] == [r];
    assert [r][..0] == [];
    UngroupNew([], r);
  }

  lemma GroupStep(gs: seq<Page>, init: seq<Row>, r: Row)
    requires WellGrouped(gs) && Ungroup(gs) == init
    requires gs != [] && (gs[|gs| - 1].loc == r.page || StrLess(gs[|gs| - 1].loc, r.page))
    ensures WellGrouped(AddRow(gs, r)) && Ungroup(AddRow(gs, r)) == init + [r]
    ensures AddRow(gs, r) != [] && AddRow(gs, r)[|AddRow(gs, r)| - 1].loc == r.page
  {
    var last := gs[|gs| - 1];
    if r.page == last.loc {
      GroupStepSame(gs, init, r);
    } else {
      AddNewPage(gs, r);
      UngroupNew(gs, r);
    }
  }

  lemma GroupStepSame(gs: seq<Page>, init: seq<Row>, r: Row)
    requires WellGrouped(gs) && Ungroup(gs) == init
    requires gs != [] && gs[|gs| - 1].loc == r.page
    ensures WellGrouped(AddRow(gs, r)) && Ungroup(AddRow(gs, r)) == init + [r]
    ensures AddRow(gs, r) != [] && AddRow(gs, r)[|AddRow(gs, r)| - 1].loc == r.page
  {
    var n := |gs| - 1;
    var last := gs[n];
    var grown := last.(images := last.images + [r.image]);
    AddToLast(gs, r);
    assert Ungroup(gs[..n] + [grown]) == init + [r] by {
      assert gs == gs[..n] + [last];
      UngroupLast(gs[..n], last, r.image);
      assert Row(last.loc, r.image) == r;
    }
    assert (gs[..n] + [grown])[n] == grown;
  }

  lemma UngroupSingle(g: Page)
    ensures Ungroup([g]) == RowsOf(g)
  {
    assert [g][1..] == [];
  }

  lemma UngroupLast(init: seq<Page>, last: Page, img: Image)
    ensures Ungroup(init + [last.(images := last.images + [img])]) == Ungroup(init + [last]) + [Row(last.loc, img)]
  {
    var last' := last.(images := last.images + [img]);
    UngroupAppend(init, [last]);
    UngroupAppend(init, [last']);
    UngroupSingle(last);
    UngroupSingle(last');
    RowsOfAppend(last, img);
  }

  lemma RowsOfAppend(p: Page, img: Image)
    ensures RowsOf(p.(images := p.images + [img])) == RowsOf(p) + [Row(p.loc, img)]
  {
    var a := RowsOf(p.(images := p.images + [img]));
    var b := RowsOf(p) + [Row(p.loc, img)];
    assert |a| == |b|;
    forall i | 0 <= i < |a| ensures a[i] == b[i] {
      if i < |p.images| {
        assert a[i] == Row(p.loc, p.images[i]);
      }
    }
  }

  lemma UngroupNew(gs: seq<Page>, r: Row)
    ensures Ungroup(gs + [Page(r.page, [r.image])]) == Ungroup(gs) + [r]
  {
    var g := Page(r.page, [r.image]);
    UngroupAppend(gs, [g]);
    UngroupSingle(g);
    assert RowsOf(g) == [r];
  }

  /** A row of the last page joins that page's images. */
  lemma AddToLast(gs: seq<Page>, r: Row)
    requires WellGrouped(gs) && gs != [] && r.page == gs[|gs| - 1].loc
    ensures AddRow(gs, r) == gs[..|gs| - 1] + [gs[|gs| - 1].(images := gs[|gs| - 1].images + [r.image])]
    ensures WellGrouped(AddRow(gs, r))
  {
    var n := |gs| - 1;
    var last := gs[n].(images := gs[n].images + [r.image]);
    FindLastPage(gs, r.page);
    assert AddRow(gs, r) == gs[n := last];
    assert gs[n := last] == gs[..n] + [last];
    WellGroupedUpdateLast(gs, last);
  }

  /** In a well-grouped list, the last page is found at the end. */
  lemma FindLastPage(gs: seq<Page>, page: string)
    requires WellGrouped(gs) && gs != [] && gs[|gs| - 1].loc == page
    ensures FindPage(gs, page) == Some(|gs| - 1)
  {
    var n := |gs| - 1;
    var k := FindPage(gs, page).value;
    if k < n {
      assert StrLess(gs[k].loc, gs[n].loc);
      StrLessIrreflexive(page);
      assert false;
    }
  }

  lemma WellGroupedUpdateLast(gs: seq<Page>, last: Page)
    requires WellGrouped(gs) && gs != [] && last.loc == gs[|gs| - 1].loc && last.images != []
    ensures WellGrouped(gs[|gs| - 1 := last])
  {
    var n := |gs| - 1;
    assert forall i :: 0 <= i < n ==> gs[n := last][i] == gs[i];
  }

  /** A row of a page above every page so far opens a new last page. */
  lemma AddNewPage(gs: seq<Page>, r: Row)
    requires WellGrouped(gs) && gs != [] && StrLess(gs[|gs| - 1].loc, r.page)
    ensures AddRow(gs, r) == gs + [Page(r.page, [r.image])]
    ensures WellGrouped(AddRow(gs, r))
  {
    var n := |gs| - 1;
    forall k | 0 <= k < |gs| ensures StrLess(gs[k].loc, r.page) {
      if k < n {
        StrLessTransitive(gs[k].loc, gs[n].loc, r.page);
      }
    }
    forall k | 0 <= k < |gs| ensures gs[k].loc != r.page {
      StrLessIrreflexive(r.page);
    }
  }

  /** `list_all`'s loop over the sorted rows, filling the dictionary. */
  method GroupRows(rows: seq<Row>) returns (groups: seq<Page>)
    ensures groups == Group(rows)
  {
    groups := [];
    for i := 0 to |rows|
      invariant groups == Group(rows[..i])
    {
      assert rows[..i + 1][..i] == rows[..i];
      ghost var before := groups;
      var row := rows[i];
      var k := FindPage(groups, row.page);
      var index: nat;
      if k.None? {
        groups := groups + [Page(row.page, [])];
        index := |groups| - 1;
      } else {
        index := k.value;
      }
      groups := groups[index := groups[index].(images := groups[index].images + [row.image])];
      if k.None? {
        assert [] + [row.image] == [row.image];
        assert groups[|before|] == Page(row.page, [row.image]);
        assert groups == before + [Page(row.page, [row.image])];
      }
    }
    assert rows[..|rows|] == rows;
  }

  // The listing.

  /** The rows in `(loc, image_loc)` order: `ORDER BY loc ASC, image_loc ASC`. */
  ghost function ImageListing(t: map<(string, string), Row>): seq<Row> {
    PairLessOrder();
    Listing(t, PairLess)
  }

  /** The pages `list_all` returns and `save_files` writes. */
  ghost function Pages(t: map<(string, string), Row>): seq<Page> {
    Group(ImageListing(t))
  }

  /** The pages hold every registered image once (the listing, which holds
      every row once in key order), grouped by page in strictly ascending page
      order, with no page left without images. */
  lemma PagesSpec(t: map<(string, string), Row>)
    requires Keyed(t, RowKey)
    ensures WellGrouped(Pages(t)) && Ungroup(Pages(t)) == ImageListing(t)
  {
    PairLessOrder();
    var rows := ImageListing(t);
    ListingSpec(t, PairLess, RowKey);
    assert PagesAscending(rows) by {
      forall i, j | 0 <= i < j < |rows| ensures rows[i].page == rows[j].page || StrLess(rows[i].page, rows[j].page) {
        assert PairLess(RowKey(rows[i]), RowKey(rows[j]));
      }
    }
    GroupSpec(rows);
  }

  /** The rows of one page: what `WHERE loc == ?` selects. */
  function PageRows(t: map<(string, string), Row>, loc: string): (r: map<(string, string), Row>)
    ensures forall k :: k in r <==> k in t && k.0 == loc
    ensures forall k :: k in r ==> r[k] == t[k]
  {
    map k | k in t && k.0 == loc :: t[k]
  }

  function ImageOf(r: Row): Image {
    r.image
  }

  /** What `get(loc)` returns: the page with its images in ascending image order, or `None`. */
  ghost function PageOf(t: map<(string, string), Row>, loc: string): Option<Page> {
    PairLessOrder();
    var rows := Listing(PageRows(t, loc), PairLess);
    if rows == [] then None else Some(Page(loc, MapSeq(rows, ImageOf)))
  }

  /** `images` are the images registered for page `loc`, each once, in strictly
      ascending order of image URL: every registered image of `loc` is among
      them, and each of them is registered. */
  ghost predicate ImagesOfPage(t: map<(string, string), Row>, loc: string, images: seq<Image>) {
    (forall i, j :: 0 <= i < j < |images| ==> StrLess(images[i].loc, images[j].loc))
    && (forall k :: k in t && k.0 == loc ==> exists i :: 0 <= i < |images| && images[i].loc == k.1)
    && (forall i :: 0 <= i < |images| ==> (loc, images[i].loc) in t && t[(loc, images[i].loc)].image == images[i])
  }

  /** `get(loc)` finds nothing exactly when no image is registered for `loc`;
      otherwise it gives the page `loc` with all of its images, in image order. */
  lemma PageOfSpec(t: map<(string, string), Row>, loc: string)
    requires Keyed(t, RowKey)
    ensures PageOf(t, loc).None? <==> forall k :: k in t ==> k.0 != loc
    ensures PageOf(t, loc).Some? ==> PageOf(t, loc).value.loc == loc && ImagesOfPage(t, loc, PageOf(t, loc).value.images)
  {
    PairLessOrder();
    var sub := PageRows(t, loc);
    assert Keyed(sub, RowKey);
    ListingSpec(sub, PairLess, RowKey);
    var rows := Listing(sub, PairLess);
    if rows != [] {
      assert RowKey(rows[0]) in sub;
      SubListingImages(t, loc, sub, rows);
    }
  }

  lemma SubListingImages(t: map<(string, string), Row>, loc: string, sub: map<(string, string), Row>, rows: seq<Row>)
    requires Keyed(t, RowKey) && StrictTotalOrder(PairLess) && sub == PageRows(t, loc) && rows == Listing(sub, PairLess)
    ensures ImagesOfPage(t, loc, MapSeq(rows, ImageOf))
  {
    assert Keyed(sub, RowKey);
    ListingSpec(sub, PairLess, RowKey);
    forall i | 0 <= i < |rows| ensures rows[i].page == loc && RowKey(rows[i]) in t && t[RowKey(rows[i])] == rows[i] {
      assert RowKey(rows[i]) in sub;
    }
    forall k | k in t && k.0 == loc ensures exists i :: 0 <= i < |rows| && RowKey(rows[i]) == k {
      assert k in sub;
    }
    ImagesOfRows(t, loc, rows);
  }

  lemma ImagesOfRows(t: map<(string, string), Row>, loc: string, rows: seq<Row>)
    requires forall i :: 0 <= i < |rows| ==> rows[i].page == loc && RowKey(rows[i]) in t && t[RowKey(rows[i])] == rows[i]
    requires forall i, j :: 0 <= i < j < |rows| ==> PairLess(RowKey(rows[i]), RowKey(rows[j]))
    requires forall k :: k in t && k.0 == loc ==> exists i :: 0 <= i < |rows| && RowKey(rows[i]) == k
    ensures ImagesOfPage(t, loc, MapSeq(rows, ImageOf))
  {
    var images := MapSeq(rows, ImageOf);
    SortedImages(loc, rows);
    forall i | 0 <= i < |images| ensures (loc, images[i].loc) in t && t[(loc, images[i].loc)].image == images[i] {
      assert RowKey(rows[i]) == (loc, images[i].loc);
    }
    forall k | k in t && k.0 == loc ensures exists i :: 0 <= i < |images| && images[i].loc == k.1 {
      var i :| 0 <= i < |rows| && RowKey(rows[i]) == k;
      assert images[i].loc == k.1;
    }
  }

  lemma SortedImages(loc: string, rows: seq<Row>)
    requires forall i :: 0 <= i < |rows| ==> rows[i].page == loc
    requires forall i, j :: 0 <= i < j < |rows| ==> PairLess(RowKey(rows[i]), RowKey(rows[j]))
    ensures forall i, j :: 0 <= i < j < |rows| ==> StrLess(MapSeq(rows, ImageOf)[i].loc, MapSeq(rows, ImageOf)[j].loc)
  {
    StrLessOrder();
  }

  // The document.

  const ImageNamespace: string := "http://www.google.com/schemas/sitemap-image/1.1"

  /** A child holding `text`, written only when `text` is not empty. */
  function Optional(tag: string, text: string): (r: seq<Element>)
    ensures |r| <= 1 && (r == [] <==> text == "")
    ensures forall i :: 0 <= i < |r| ==> r[i] == Leaf(tag, text)
  {
    if text == "" then [] else [Leaf(tag, text)]
  }

  /** One `<image:image>`: `<image:loc>`, then each optional field that is not empty. */
  function ImageElement(img: Image): (e: Element)
    ensures e.tag == "image:image" && |e.children| > 0 && e.children[0] == Leaf("image:loc", img.loc)
    ensures Tags(e.children) == ["image:loc"]
      + (if img.caption != "" then ["image:caption"] else [])
      + (if img.geoLocation != "" then ["image:geo_location"] else [])
      + (if img.title != "" then ["image:title"] else [])
      + (if img.license != "" then ["image:license"] else [])
  {
    Element("image:image", [], "", [Leaf("image:loc", img.loc)]
      + Optional("image:caption", img.caption) + Optional("image:geo_location", img.geoLocation)
      + Optional("image:title", img.title) + Optional("image:license", img.license))
  }

  /** One `<url>`: the page's `<loc>`, then one `<image:image>` per image. */
  function PageElement(p: Page): (e: Element)
    ensures e.tag == "url" && |e.children| > 0 && e.children[0] == Leaf("loc", p.loc)
    ensures Tags(e.children) == ["loc"] + seq(|p.images|, i => "image:image")
    ensures forall i :: 0 <= i < |p.images| ==>
      (|e.children[i + 1].children| > 0 && e.children[i + 1].children[0] == Leaf("image:loc", p.images[i].loc))
  {
    Element("url", [], "", [Leaf("loc", p.loc)] + MapSeq(p.images, ImageElement))
  }

  /** `ImageSitemapFile._as_element`: a `<urlset>` declaring the sitemap and image namespaces, one `<url>` per page. */
  function UrlsetElement(pages: seq<Page>): (e: Element)
    ensures e.tag == "urlset"
    ensures e.attrs == [("xmlns", UrlSitemaps.SitemapNamespace), ("xmlns:image", ImageNamespace)]
    ensures |e.children| == |pages|
    ensures forall i :: 0 <= i < |pages| ==>
      (e.children[i].tag == "url" && |e.children[i].children| > 0
        && e.children[i].children[0] == Leaf("loc", pages[i].loc))
  {
    Element("urlset", [("xmlns", UrlSitemaps.SitemapNamespace), ("xmlns:image", ImageNamespace)], "",
      MapSeq(pages, PageElement))
  }

  // Decoding.

  /** One `<image:image>` as the schema decoder hands it over. */
  datatype ImageEntry = ImageEntry(loc: string, caption: Option<string>, geoLocation: Option<string>,
                                   title: Option<string>, license: Option<string>)

  /** One `<url>` as the schema decoder hands it over; `images` is empty when
      the `<url>` has no `<image:image>`, whose key is then missing. */
  datatype PageEntry = PageEntry(loc: string, images: seq<ImageEntry>)

  /** The decoder's view of one `<image:image>`: the required `<image:loc>` must be there. */
  function ReadImage(e: Element): (r: Result<ImageEntry>)
    ensures r.Success? <==> ChildText(e, "image:loc").Some?
    ensures r.Success? ==> (r.value.loc == ChildText(e, "image:loc").value
      && r.value.caption == ChildText(e, "image:caption") && r.value.geoLocation == ChildText(e, "image:geo_location")
      && r.value.title == ChildText(e, "image:title") && r.value.license == ChildText(e, "image:license"))
  {
    match ChildText(e, "image:loc")
    case None => Failure(DecodeError)
    case Some(loc) =>
      Success(ImageEntry(loc, ChildText(e, "image:caption"), ChildText(e, "image:geo_location"),
        ChildText(e, "image:title"), ChildText(e, "image:license")))
  }

  /** The decoder's view of one `<url>`: a `<loc>` and well-formed images. */
  function ReadPage(e: Element): (r: Result<PageEntry>)
    ensures r.Success? <==> ChildText(e, "loc").Some? && ReadAll(Named(e.children, "image:image"), ReadImage).Success?
  {
    match ChildText(e, "loc")
    case None => Failure(DecodeError)
    case Some(loc) =>
      match ReadAll(Named(e.children, "image:image"), ReadImage)
      case Failure(err) => Failure(err)
      case Success(images) => Success(PageEntry(loc, images))
  }

  /** The schema pass over a whole document: a `<urlset>` root holding one or more `<url>`. */
  function ReadImageUrlset(doc: Element): (r: Result<seq<PageEntry>>)
    ensures r.Success? ==> doc.tag == "urlset" && |r.value| == |Named(doc.children, "url")| > 0
  {
    if doc.tag != "urlset" then Failure(DecodeError)
    else
      var urls := Named(doc.children, "url");
      if urls == [] then Failure(DecodeError) else ReadAll(urls, ReadPage)
  }

  /** `x if x else ""` for an optional field. */
  function OrEmpty(s: Option<string>): (r: string)
    ensures s.Some? ==> r == s.value
    ensures s.None? ==> r == ""
  {
    if s.Some? then s.value else ""
  }

  /** The row one image entry of a page describes, or the `ValueError` of an empty image URL. */
  function DecodeImage(page: string, e: ImageEntry): (r: Result<Row>)
    ensures r.Success? <==> e.loc != ""
    ensures r.Failure? ==> r.error == DecodeError
    ensures r.Success? ==> RowKey(r.value) == (page, e.loc)
  {
    if e.loc == "" then Failure(DecodeError)
    else Success(Row(page, Image(e.loc, OrEmpty(e.caption), OrEmpty(e.geoLocation), OrEmpty(e.title), OrEmpty(e.license))))
  }

  /** `load`'s inner loop: decode and register the images of one page in order,
      stopping at the first that fails. */
  function LoadImages(t: map<(string, string), Row>, page: string, images: seq<ImageEntry>): (map<(string, string), Row>, Outcome)
    decreases |images|
  {
    if images == [] then (t, Pass)
    else match DecodeImage(page, images[0])
      case Failure(err) => (t, Fail(err))
      case Success(row) => LoadImages(t[RowKey(row) := row], page, images[1..])
  }

  /** One page of `load`: an empty URL or a page without images stops the load. */
  function LoadPage(t: map<(string, string), Row>, p: PageEntry): (map<(string, string), Row>, Outcome) {
    if p.loc == "" || p.images == [] then (t, Fail(DecodeError))
    else LoadImages(t, p.loc, p.images)
  }

  /** `load`'s outer loop: page after page, stopping at the first failure; what
      was registered before it stays. */
  function LoadPages(t: map<(string, string), Row>, pages: seq<PageEntry>): (map<(string, string), Row>, Outcome) {
    LoadAll(t, pages, LoadPage)
  }

  /** `load`: the schema pass over the whole document, then the loops. */
  function LoadDocument(t: map<(string, string), Row>, doc: Element): (map<(string, string), Row>, Outcome) {
    match ReadImageUrlset(doc)
    case Failure(err) => (t, Fail(err))
    case Success(pages) => LoadPages(t, pages)
  }

  /** Loading a document into a table only adds or replaces rows, each under
      the key of the image it describes. */
  lemma {:induction false} LoadImagesKeyed(t: map<(string, string), Row>, page: string, images: seq<ImageEntry>)
    requires Keyed(t, RowKey)
    ensures Keyed(LoadImages(t, page, images).0, RowKey) && t.Keys <= LoadImages(t, page, images).0.Keys
    decreases |images|
  {
    if images != [] && DecodeImage(page, images[0]).Success? {
      var row := DecodeImage(page, images[0]).value;
      LoadImagesKeyed(t[RowKey(row) := row], page, images[1..]);
    }
  }

  // The round trip.

  function Opt(s: string): Option<string> {
    if s == "" then None else Some(s)
  }

  /** What the decoder reads back from `ImageElement(img)`. */
  function ImageEntryOf(img: Image): ImageEntry {
    ImageEntry(img.loc, Opt(img.caption), Opt(img.geoLocation), Opt(img.title), Opt(img.license))
  }

  /** What the decoder reads back from `PageElement(p)`. */
  function PageEntryOf(p: Page): PageEntry {
    PageEntry(p.loc, MapSeq(p.images, ImageEntryOf))
  }

  /** Each field of an image is found again in its `<image:image>`, the empty optional ones as absent. */
  lemma ImageElementFields(img: Image)
    ensures ChildText(ImageElement(img), "image:loc") == Some(img.loc)
    ensures ChildText(ImageElement(img), "image:caption") == Opt(img.caption)
    ensures ChildText(ImageElement(img), "image:geo_location") == Opt(img.geoLocation)
    ensures ChildText(ImageElement(img), "image:title") == Opt(img.title)
    ensures ChildText(ImageElement(img), "image:license") == Opt(img.license)
  {
    ChildTextAt(ImageElement(img), "image:loc", 0);
    CaptionField(img);
    GeoLocationField(img);
    TitleField(img);
    LicenseField(img);
  }

  lemma CaptionField(img: Image)
    ensures ChildText(ImageElement(img), "image:caption") == Opt(img.caption)
  {
    OptionalFieldNamed(img, "image:caption");
    NamedOptional("image:caption", img.caption, "image:caption");
    NamedOptional("image:geo_location", img.geoLocation, "image:caption");
    NamedOptional("image:title", img.title, "image:caption");
    NamedOptional("image:license", img.license, "image:caption");
  }

  lemma GeoLocationField(img: Image)
    ensures ChildText(ImageElement(img), "image:geo_location") == Opt(img.geoLocation)
  {
    OptionalFieldNamed(img, "image:geo_location");
    NamedOptional("image:caption", img.caption, "image:geo_location");
    NamedOptional("image:geo_location", img.geoLocation, "image:geo_location");
    NamedOptional("image:title", img.title, "image:geo_location");
    NamedOptional("image:license", img.license, "image:geo_location");
  }

  lemma TitleField(img: Image)
    ensures ChildText(ImageElement(img), "image:title") == Opt(img.title)
  {
    OptionalFieldNamed(img, "image:title");
    NamedOptional("image:caption", img.caption, "image:title");
    NamedOptional("image:geo_location", img.geoLocation, "image:title");
    NamedOptional("image:title", img.title, "image:title");
    NamedOptional("image:license", img.license, "image:title");
  }

  lemma LicenseField(img: Image)
    ensures ChildText(ImageElement(img), "image:license") == Opt(img.license)
  {
    OptionalFieldNamed(img, "image:license");
    NamedOptional("image:caption", img.caption, "image:license");
    NamedOptional("image:geo_location", img.geoLocation, "image:license");
    NamedOptional("image:title", img.title, "image:license");
    NamedOptional("image:license", img.license, "image:license");
  }

  /** The children with tag `t` of an optional field: itself when it is written and has that tag. */
  lemma NamedOptional(tag: string, text: string, t: string)
    ensures Named(Optional(tag, text), t) == if tag == t && text != "" then [Leaf(tag, text)] else []
  {
  }

  /** The children of an `<image:image>` with an optional field's tag. */
  lemma OptionalFieldNamed(img: Image, tag: string)
    requires tag != "image:loc"
    ensures Named(ImageElement(img).children, tag)
         == Named(Optional("image:caption", img.caption), tag) + Named(Optional("image:geo_location", img.geoLocation), tag)
          + Named(Optional("image:title", img.title), tag) + Named(Optional("image:license", img.license), tag)
  {
    ImageChildrenNamed(img, tag);
    assert Named([Leaf("image:loc", img.loc)], tag) == [];
  }

  /** The children of an `<image:image>` with a given tag, field by field. */
  lemma ImageChildrenNamed(img: Image, tag: string)
    ensures Named(ImageElement(img).children, tag)
         == Named([Leaf("image:loc", img.loc)], tag)
          + Named(Optional("image:caption", img.caption), tag) + Named(Optional("image:geo_location", img.geoLocation), tag)
          + Named(Optional("image:title", img.title), tag) + Named(Optional("image:license", img.license), tag)
  {
    var l := [Leaf("image:loc", img.loc)];
    var c, g := Optional("image:caption", img.caption), Optional("image:geo_location", img.geoLocation);
    var ti, li := Optional("image:title", img.title), Optional("image:license", img.license);
    NamedAppend(l, c, tag);
    NamedAppend(l + c, g, tag);
    NamedAppend(l + c + g, ti, tag);
    NamedAppend(l + c + g + ti, li, tag);
  }

  lemma ReadImageWritten(img: Image)
    ensures ReadImage(ImageElement(img)) == Success(ImageEntryOf(img))
  {
    ImageElementFields(img);
  }

  /** The `<image:image>` children of a written `<url>` are those of its images, in order. */
  lemma PageImagesNamed(p: Page)
    ensures Named(PageElement(p).children, "image:image") == MapSeq(p.images, ImageElement)
  {
    var images := MapSeq(p.images, ImageElement);
    NamedAppend([Leaf("loc", p.loc)], images, "image:image");
    assert Named([Leaf("loc", p.loc)], "image:image") == [];
    NamedAll(images, "image:image");
    assert [] + images == images;
  }

  /** Written images read back as their entries. */
  lemma ReadImagesWritten(imgs: seq<Image>)
    ensures ReadAll(MapSeq(imgs, ImageElement), ReadImage) == Success(MapSeq(imgs, ImageEntryOf))
  {
    var images := MapSeq(imgs, ImageElement);
    var entries := MapSeq(imgs, ImageEntryOf);
    forall i | 0 <= i < |images| ensures ReadImage(images[i]) == Success(entries[i]) {
      ReadImageOf(imgs, i);
    }
    ReadAllEach(images, ReadImage, entries);
  }

  lemma ReadImageOf(imgs: seq<Image>, i: nat)
    requires i < |imgs|
    ensures ReadImage(MapSeq(imgs, ImageElement)[i]) == Success(MapSeq(imgs, ImageEntryOf)[i])
  {
    ReadImageWritten(imgs[i]);
  }

  /** A written page reads back as its URL and the entries of its images. */
  lemma ReadPageWritten(p: Page)
    ensures ReadPage(PageElement(p)) == Success(PageEntryOf(p))
  {
    ChildTextAt(PageElement(p), "loc", 0);
    PageImagesNamed(p);
    ReadImagesWritten(p.images);
  }

  /** The decoder reads back from a written `<urlset>` exactly the entries of its pages. */
  lemma ReadImageUrlsetWritten(pages: seq<Page>)
    requires pages != []
    ensures ReadImageUrlset(UrlsetElement(pages)) == Success(MapSeq(pages, PageEntryOf))
  {
    var children := UrlsetElement(pages).children;
    var entries := MapSeq(pages, PageEntryOf);
    NamedAll(children, "url");
    forall i | 0 <= i < |children| ensures ReadPage(children[i]) == Success(entries[i]) {
      ReadPageOf(pages, i);
    }
    ReadAllEach(children, ReadPage, entries);
  }

  lemma ReadPageOf(pages: seq<Page>, i: nat)
    requires i < |pages|
    ensures ReadPage(MapSeq(pages, PageElement)[i]) == Success(MapSeq(pages, PageEntryOf)[i])
  {
    ReadPageWritten(pages[i]);
  }

  /** A page the decoder accepts back: a URL and at least one image, none with an empty URL. */
  predicate Loadable(p: Page) {
    p.loc != "" && p.images != [] && forall i :: 0 <= i < |p.images| ==> p.images[i].loc != ""
  }

  /** Loading a written page's images upserts exactly its rows. */
  lemma {:induction false} LoadImagesWritten(t: map<(string, string), Row>, page: string, images: seq<Image>)
    requires forall i :: 0 <= i < |images| ==> images[i].loc != ""
    ensures LoadImages(t, page, MapSeq(images, ImageEntryOf)) == (UpsertAll(t, RowsOf(Page(page, images)), RowKey), Pass)
    decreases |images|
  {
    if images != [] {
      var img := images[0];
      var row := Row(page, img);
      assert DecodeImage(page, ImageEntryOf(img)) == Success(row);
      assert MapSeq(images, ImageEntryOf)[1..] == MapSeq(images[1..], ImageEntryOf);
      LoadImagesWritten(t[RowKey(row) := row], page, images[1..]);
      assert RowsOf(Page(page, images))[0] == row;
      assert RowsOf(Page(page, images))[1..] == RowsOf(Page(page, images[1..]));
    }
  }

  /** Loading written pages upserts their rows, page after page. */
  lemma {:induction false} LoadPagesWritten(t: map<(string, string), Row>, pages: seq<Page>)
    requires forall i :: 0 <= i < |pages| ==> Loadable(pages[i])
    ensures LoadPages(t, MapSeq(pages, PageEntryOf)) == (UpsertAll(t, Ungroup(pages), RowKey), Pass)
    decreases |pages|
  {
    if pages != [] {
      var p := pages[0];
      LoadImagesWritten(t, p.loc, p.images);
      var next := UpsertAll(t, RowsOf(p), RowKey);
      assert LoadPage(t, PageEntryOf(p)) == (next, Pass);
      assert MapSeq(pages, PageEntryOf)[1..] == MapSeq(pages[1..], PageEntryOf);
      LoadPagesWritten(next, pages[1..]);
      UpsertAllAppend(t, RowsOf(p), Ungroup(pages[1..]), RowKey);
    }
  }

  /** Loading one written document registers exactly the rows of its pages. */
  lemma LoadWritten(t: map<(string, string), Row>, pages: seq<Page>)
    requires pages != [] && forall i :: 0 <= i < |pages| ==> Loadable(pages[i])
    ensures LoadDocument(t, UrlsetElement(pages)) == (UpsertAll(t, Ungroup(pages), RowKey), Pass)
  {
    ReadImageUrlsetWritten(pages);
    LoadPagesWritten(t, pages);
  }

  /** Loads documents one after the other, stopping at the first that fails. */
  function LoadDocuments(t: map<(string, string), Row>, docs: seq<Element>): (map<(string, string), Row>, Outcome) {
    LoadAll(t, docs, LoadDocument)
  }

  lemma {:induction false} LoadWrittenBatches(t: map<(string, string), Row>, batches: seq<seq<Page>>)
    requires forall i :: 0 <= i < |batches| ==> batches[i] != []
    requires forall i, j :: 0 <= i < |batches| && 0 <= j < |batches[i]| ==> Loadable(batches[i][j])
    ensures LoadDocuments(t, MapSeq(batches, UrlsetElement)) == (UpsertAll(t, Ungroup(Flatten(batches)), RowKey), Pass)
    decreases |batches|
  {
    if batches != [] {
      var first, rest := batches[0], batches[1..];
      LoadWritten(t, first);
      var next := UpsertAll(t, Ungroup(first), RowKey);
      assert MapSeq(batches, UrlsetElement)[1..] == MapSeq(rest, UrlsetElement);
      LoadWrittenBatches(next, rest);
      assert Flatten(batches) == first + Flatten(rest);
      UngroupAppend(first, Flatten(rest));
      UpsertAllAppend(t, Ungroup(first), Ungroup(Flatten(rest)), RowKey);
    }
  }

  /** The document written to one file. */
  function FileElement(f: FileBatch<Page>): Element {
    UrlsetElement(f.entries)
  }

  /** No registered image has an empty page URL or an empty image URL. */
  predicate NoEmptyUrls(t: map<(string, string), Row>) {
    forall k :: k in t ==> k.0 != "" && k.1 != ""
  }

  /** Every page a store writes can be loaded back. */
  lemma PagesLoadable(t: map<(string, string), Row>)
    requires Keyed(t, RowKey) && NoEmptyUrls(t)
    ensures forall i :: 0 <= i < |Pages(t)| ==> Loadable(Pages(t)[i])
  {
    PairLessOrder();
    PagesSpec(t);
    var rows := Ungroup(Pages(t));
    ListingSpec(t, PairLess, RowKey);
    forall n | 0 <= n < |rows| ensures rows[n].page != "" && rows[n].image.loc != "" {
      assert RowKey(rows[n]) in t;
    }
    GroupsLoadable(Pages(t));
  }

  lemma GroupsLoadable(gs: seq<Page>)
    requires WellGrouped(gs)
    requires forall n :: 0 <= n < |Ungroup(gs)| ==> Ungroup(gs)[n].page != "" && Ungroup(gs)[n].image.loc != ""
    ensures forall i :: 0 <= i < |gs| ==> Loadable(gs[i])
  {
    forall i | 0 <= i < |gs| ensures Loadable(gs[i]) {
      forall j | 0 <= j < |gs[i].images| ensures gs[i].images[j].loc != "" {
        UngroupRowNonEmpty(gs, i, j);
      }
      UngroupRowNonEmpty(gs, i, 0);
    }
  }

  lemma UngroupRowNonEmpty(gs: seq<Page>, i: nat, j: nat)
    requires i < |gs| && j < |gs[i].images|
    requires forall n :: 0 <= n < |Ungroup(gs)| ==> Ungroup(gs)[n].page != "" && Ungroup(gs)[n].image.loc != ""
    ensures gs[i].loc != "" && gs[i].images[j].loc != ""
  {
    UngroupMember(gs, i, j);
    var rows := Ungroup(gs);
    var n :| 0 <= n < |rows| && rows[n] == Row(gs[i].loc, gs[i].images[j]);
  }

  /** Upserting a store's pages, row by row, into an empty table rebuilds the table. */
  lemma PagesRestore(t: map<(string, string), Row>)
    requires Keyed(t, RowKey)
    ensures UpsertAll(map[], Ungroup(Pages(t)), RowKey) == t
  {
    PairLessOrder();
    var rows: seq<Row> := Listing(t, PairLess);
    assert Ungroup(Pages(t)) == rows by {
      assert ImageListing(t) == rows;
      PagesSpec(t);
    }
    assert UpsertAll(map[], rows, RowKey) == t by {
      ListingRestores(map[], t, PairLess, RowKey);
      assert map[] + t == t;
    }
  }

  /** The files of a save, put back together, hold the pages; none is empty and every page loads. */
  lemma SavedBatches(file: FilePath, t: map<(string, string), Row>)
    requires Keyed(t, RowKey) && NoEmptyUrls(t)
    requires PlanFiles(file, Pages(t)).Success?
    ensures Flatten(Contents(PlanFiles(file, Pages(t)).value)) == Pages(t)
    ensures forall i :: 0 <= i < |Contents(PlanFiles(file, Pages(t)).value)| ==>
      Contents(PlanFiles(file, Pages(t)).value)[i] != []
    ensures forall i, j :: (0 <= i < |Contents(PlanFiles(file, Pages(t)).value)|
      && 0 <= j < |Contents(PlanFiles(file, Pages(t)).value)[i]|) ==>
      Loadable(Contents(PlanFiles(file, Pages(t)).value)[i][j])
  {
    var gs := Pages(t);
    var batches: seq<seq<Page>> := Contents(PlanFiles(file, gs).value);
    PlanFilesSpec(file, gs);
    PagesLoadable(t);
    forall i, j | 0 <= i < |batches| && 0 <= j < |batches[i]| ensures Loadable(batches[i][j]) {
      FlattenMember(batches, i, j);
    }
  }

  /** Saving a store and loading every file it wrote, in order, into an empty
      store gives back exactly the same images, provided no page URL or image
      URL is empty. */
  lemma SaveLoadRoundTrip(file: FilePath, t: map<(string, string), Row>)
    requires Keyed(t, RowKey) && NoEmptyUrls(t)
    requires PlanFiles(file, Pages(t)).Success?
    ensures LoadDocuments(map[], MapSeq(PlanFiles(file, Pages(t)).value, FileElement)) == (t, Pass)
  {
    var files: seq<FileBatch<Page>> := PlanFiles(file, Pages(t)).value;
    var batches := Contents(files);
    SavedBatches(file, t);
    assert MapSeq(files, FileElement) == MapSeq(batches, UrlsetElement);
    LoadWrittenBatches(map[], batches);
    PagesRestore(t);
  }

  // The store.

  /** `ImageSitemap`: an open or closed store of images that saves to `file`. */
  class ImageSitemap {
    const file: FilePath
    var table: map<(string, string), Row>
    var closed: bool

    ghost predicate Valid()
      reads this
    {
      Keyed(table, RowKey)
    }

    constructor(file: FilePath)
      ensures Valid() && this.file == file && table == map[] && !closed
    {
      this.file := file;
      table := map[];
      closed := false;
    }

    /** Closing twice is the same as closing once. */
    method Close()
      modifies this
      ensures closed && table == old(table)
    {
      closed := true;
    }

    /** `register`: replaces the image `imageLoc` of page `loc`, or adds it. */
    method Register(loc: string, imageLoc: string, caption: string, geoLocation: string, title: string, license: string)
      returns (o: Outcome)
      requires Valid()
      modifies this
      ensures Valid() && closed == old(closed)
      ensures old(closed) ==> o == Fail(StoreClosed) && table == old(table)
      ensures !old(closed) ==> (o == Pass
        && table == old(table)[(loc, imageLoc) := Row(loc, Image(imageLoc, caption, geoLocation, title, license))])
    {
      if closed {
        return Fail(StoreClosed);
      }
      table := table[(loc, imageLoc) := Row(loc, Image(imageLoc, caption, geoLocation, title, license))];
      return Pass;
    }

    /** `unregister`: drops the image `imageLoc` of page `loc`, if registered. */
    method Unregister(loc: string, imageLoc: string) returns (o: Outcome)
      requires Valid()
      modifies this
      ensures Valid() && closed == old(closed)
      ensures old(closed) ==> o == Fail(StoreClosed) && table == old(table)
      ensures !old(closed) ==> o == Pass && table == old(table) - {(loc, imageLoc)}
    {
      if closed {
        return Fail(StoreClosed);
      }
      table := table - {(loc, imageLoc)};
      return Pass;
    }

    /** `clear`: drops every image. */
    method Clear() returns (o: Outcome)
      requires Valid()
      modifies this
      ensures Valid() && closed == old(closed)
      ensures old(closed) ==> o == Fail(StoreClosed) && table == old(table)
      ensures !old(closed) ==> o == Pass && table == map[]
    {
      if closed {
        return Fail(StoreClosed);
      }
      table := map[];
      return Pass;
    }

    /** `get`: the page `loc` with its images in image order, `None` when it has none. */
    method Get(loc: string) returns (r: Result<Option<Page>>)
      ensures closed ==> r == Failure(StoreClosed)
      ensures !closed ==> r == Success(PageOf(table, loc))
    {
      if closed {
        return Failure(StoreClosed);
      }
      PairLessOrder();
      var rows := ListRows(PageRows(table, loc), PairLess);
      if rows == [] {
        return Success(None);
      }
      return Success(Some(Page(loc, MapSeq(rows, ImageOf))));
    }

    /** `list_all`: the pages in page order, each with its images in image order. */
    method ListAll() returns (r: Result<seq<Page>>)
      ensures closed ==> r == Failure(StoreClosed)
      ensures !closed ==> r == Success(Pages(table))
    {
      if closed {
        return Failure(StoreClosed);
      }
      PairLessOrder();
      var rows := ListRows(table, PairLess);
      var pages := GroupRows(rows);
      return Success(pages);
    }

    /** `save_files`: the files written, each with the pages it holds; at most
        50000 pages per file. There is no open check: on a closed store the
        query fails on the closed cursor. */
    method SaveFiles() returns (r: Result<seq<FileBatch<Page>>>)
      ensures closed ==> r == Failure(CursorClosed)
      ensures !closed ==> r == PlanFiles(file, Pages(table))
    {
      if closed {
        return Failure(CursorClosed);
      }
      PairLessOrder();
      var rows := ListRows(table, PairLess);
      var pages := GroupRows(rows);
      r := SaveBatches(file, pages);
    }

    /** `load`: registers the images of a document, page by page and image by image. */
    method Load(doc: Element) returns (o: Outcome)
      requires Valid()
      modifies this
      ensures Valid() && closed == old(closed)
      ensures old(closed) ==> o == Fail(StoreClosed) && table == old(table)
      ensures !old(closed) ==> (table, o) == LoadDocument(old(table), doc)
    {
      if closed {
        return Fail(StoreClosed);
      }
      var read := ReadImageUrlset(doc);
      if read.Failure? {
        return Fail(read.error);
      }
      var pages := read.value;
      for i := 0 to |pages|
        invariant Valid() && !closed
        invariant LoadDocument(old(table), doc) == LoadPages(table, pages[i..])
      {
        assert pages[i..][1..] == pages[i + 1..];
        var page := pages[i];
        if page.loc == "" || page.images == [] {
          return Fail(DecodeError);
        }
        ghost var start := table;
        for j := 0 to |page.images|
          invariant Valid() && !closed
          invariant LoadPage(start, page) == LoadImages(table, page.loc, page.images[j..])
        {
          assert page.images[j..][1..] == page.images[j + 1..];
          var image := page.images[j];
          if image.loc == "" {
            return Fail(DecodeError);
          }
          var registered := Register(page.loc, image.loc, OrEmpty(image.caption), OrEmpty(image.geoLocation),
            OrEmpty(image.title), OrEmpty(image.license));
        }
      }
      return Pass;
    }
  }
}
