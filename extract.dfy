/**
 * What `handle_page` in main.py does with a product page once BeautifulSoup
 * has parsed it. The parser's answers are inputs here: the element each
 * `soup.find` returns (or its absence), the `src` attribute of each
 * thumbnail image, the cells of each row of the details table, and the
 * breadcrumb items.
 */
module PageExtraction {
  import opened Wrappers
  import opened PyStrings
  import opened ImageNaming

  /** An element the parser found, given by its text nodes in document order. */
  datatype Element = Element(strings: seq<string>)

  /** `''.join(parts)` */
  function Concat(parts: seq<string>): string {
    if parts == [] then [] else parts[0] + Concat(parts[1..])
  }

  /** `element.text.strip()`: all text nodes run together, then stripped. */
  function StrippedText(e: Element): string {
    Strip(Concat(e.strings))
  }

  /** `element.get_text(strip=True)`: each text node stripped, then run together. */
  function StrippedStrings(e: Element): string {
    Concat(seq(|e.strings|, i requires 0 <= i < |e.strings| => Strip(e.strings[i])))
  }

  /** What the parser finds on one product page. */
  datatype ParsedPage = ParsedPage(
    title: Option<Element>,                   // soup.find('h1', class_='title h1')
    sku: Option<Element>,                     // soup.find('h3', class_='h3')
    description: Option<Element>,             // soup.find('p', class_='description')
    thumbnails: Option<seq<Option<string>>>,  // the 'list-unstyled thumbs' list: each img's src, if it has one
    details: Option<seq<seq<Element>>>,       // the 'collapseOne' div: the td cells of each tr
    breadcrumbs: seq<Element>)                // the 'breadcrumb-item' list items

  /**
   * Why a page yields no record: `.text` on a missing mandatory element
   * (AttributeError), or `img_tag['src']` on an image without that
   * attribute (KeyError), given by the image's position.
   */
  datatype ExtractError = MissingTitle | MissingSku | MissingDescription | MissingSrc(index: nat)

  /** The dictionary `handle_page` returns. */
  datatype ProductRecord = ProductRecord(
    title: string,
    sku: string,
    description: string,
    imageUrls: seq<string>,
    breadcrumbPath: string,
    tableData: map<string, string>)

  // ---------------------------------------------------------------------------
  // image_urls
  // ---------------------------------------------------------------------------

  /**
   * The image list built from the thumbnails' `src` attributes: each one
   * normalised, in document order; the first image without `src` aborts.
   */
  function ImageUrlsOf(srcs: seq<Option<string>>): Result<seq<string>, ExtractError>
  {
    if srcs == [] then Success([])
    else
      match ImageUrlsOf(srcs[..|srcs| - 1])
      case Failure(e) => Failure(e)
      case Success(urls) =>
        match srcs[|srcs| - 1]
        case None => Failure(MissingSrc(|srcs| - 1))
        case Some(src) => Success(urls + [FixImageUrl(src)])
  }

  /**
   * The image list exists exactly when every image has a `src`; it then holds
   * one normalised URL per image, in order, and otherwise the error names the
   * first image without `src`.
   */
  lemma {:induction false} ImageUrlsOfMeaning(srcs: seq<Option<string>>)
    ensures ImageUrlsOf(srcs).Success? <==> forall i :: 0 <= i < |srcs| ==> srcs[i].Some?
    ensures ImageUrlsOf(srcs).Success? ==>
      && |ImageUrlsOf(srcs).value| == |srcs|
      && forall i :: 0 <= i < |srcs| ==> ImageUrlsOf(srcs).value[i] == FixImageUrl(srcs[i].value)
    ensures forall k :: 0 <= k < |srcs| && srcs[k].None? && (forall i :: 0 <= i < k ==> srcs[i].Some?) ==>
      ImageUrlsOf(srcs) == Failure(MissingSrc(k))
  {
    if srcs != [] {
      var n := |srcs| - 1;
      var front := srcs[..n];
      ImageUrlsOfMeaning(front);
      assert forall i :: 0 <= i < n ==> front[i] == srcs[i];
    }
  }

  /** Once an image without `src` has been met, later images change nothing. */
  lemma {:induction false} ImageUrlsFailureStays(srcs: seq<Option<string>>, n: nat)
    requires n <= |srcs| && ImageUrlsOf(srcs[..n]).Failure?
    ensures ImageUrlsOf(srcs) == ImageUrlsOf(srcs[..n])
    decreases |srcs| - n
  {
    if n < |srcs| {
      assert srcs[..n + 1][..n] == srcs[..n];
      ImageUrlsFailureStays(srcs, n + 1);
    } else {
      assert srcs[..n] == srcs;
    }
  }

  // ---------------------------------------------------------------------------
  // table_data
  // ---------------------------------------------------------------------------

  /** A table row counts when it has exactly two cells: a key and a value. */
  predicate IsEntry(row: seq<Element>) {
    |row| == 2
  }

  /** The dictionary filled row by row: later rows overwrite earlier ones. */
  function TableOf(rows: seq<seq<Element>>): map<string, string>
  {
    if rows == [] then map[]
    else
      var table := TableOf(rows[..|rows| - 1]);
      var row := rows[|rows| - 1];
      if IsEntry(row) then table[StrippedText(row[0]) := StrippedText(row[1])] else table
  }

  /** A key is in the table exactly when some two-cell row has it as its first cell. */
  lemma {:induction false} TableKeys(rows: seq<seq<Element>>, key: string)
    ensures key in TableOf(rows) <==>
      exists i :: 0 <= i < |rows| && IsEntry(rows[i]) && StrippedText(rows[i][0]) == key
  {
    if rows != [] {
      var n := |rows| - 1;
      TableKeys(rows[..n], key);
      assert forall i :: 0 <= i < n ==> rows[..n][i] == rows[i];
      if key in TableOf(rows[..n]) {
        var i :| 0 <= i < n && IsEntry(rows[..n][i]) && StrippedText(rows[..n][i][0]) == key;
        assert IsEntry(rows[i]) && StrippedText(rows[i][0]) == key;
      }
    }
  }

  /** The value of a key comes from the last two-cell row that has that key. */
  lemma {:induction false} TableLastWins(rows: seq<seq<Element>>, i: nat)
    requires i < |rows| && IsEntry(rows[i])
    requires forall j :: i < j < |rows| && IsEntry(rows[j]) ==> StrippedText(rows[j][0]) != StrippedText(rows[i][0])
    ensures StrippedText(rows[i][0]) in TableOf(rows)
    ensures TableOf(rows)[StrippedText(rows[i][0])] == StrippedText(rows[i][1])
  {
    var n := |rows| - 1;
    if i < n {
      assert rows[..n][i] == rows[i];
      TableLastWins(rows[..n], i);
    } else {
      assert rows[..n] + [rows[n]] == rows;
    }
  }

  /** A row with any other number of cells has no effect on the table. */
  lemma {:induction false} TableSkipsRow(front: seq<seq<Element>>, row: seq<Element>, back: seq<seq<Element>>)
    requires !IsEntry(row)
    ensures TableOf(front + [row] + back) == TableOf(front + back)
    decreases |back|
  {
    if back == [] {
      assert (front + [row] + back)[..|front|] == front;
      assert front + back == front;
    } else {
      var n := |back| - 1;
      TableSkipsRow(front, row, back[..n]);
      assert (front + [row] + back)[..|front| + 1 + n] == front + [row] + back[..n];
      assert (front + back)[..|front| + n] == front + back[..n];
    }
  }

  // ---------------------------------------------------------------------------
  // breadcrumb_path
  // ---------------------------------------------------------------------------

  /** `items[n:]` */
  function Drop<T>(items: seq<T>, n: nat): seq<T> {
    if |items| <= n then [] else items[n..]
  }

  /** `" > ".join(items[2:])`: the first two breadcrumbs are site navigation. */
  function BreadcrumbPath(items: seq<string>): string {
    Join(Drop(items, 2), " > ")
  }

  /** The breadcrumb texts, in document order. */
  function BreadcrumbTexts(items: seq<Element>): (texts: seq<string>)
    ensures |texts| == |items|
  {
    seq(|items|, i requires 0 <= i < |items| => StrippedStrings(items[i]))
  }

  /** With two breadcrumbs or fewer the path is empty; with three it is the third one. */
  lemma BreadcrumbPathShort(items: seq<string>)
    ensures |items| <= 2 ==> BreadcrumbPath(items) == ""
    ensures |items| == 3 ==> BreadcrumbPath(items) == items[2]
  {
  }

  lemma {:induction false} JoinAppend(parts: seq<string>, sep: string, last: string)
    requires parts != []
    ensures Join(parts + [last], sep) == Join(parts, sep) + sep + last
  {
    if |parts| == 1 {
      assert (parts + [last])[1..] == [last];
    } else {
      assert (parts + [last])[1..] == parts[1..] + [last];
      JoinAppend(parts[1..], sep, last);
    }
  }

  /** Each further breadcrumb after the third is appended after a `" > "`. */
  lemma BreadcrumbPathAppend(items: seq<string>, last: string)
    requires |items| >= 3
    ensures BreadcrumbPath(items + [last]) == BreadcrumbPath(items) + " > " + last
  {
    assert (items + [last])[2..] == items[2..] + [last];
    JoinAppend(items[2..], " > ", last);
  }

  lemma BreadcrumbPathExample()
    ensures BreadcrumbPath(["Home", "Category", "A", "B"]) == "A > B"
    ensures BreadcrumbPath(["Home"]) == ""
  {
    BreadcrumbPathAppend(["Home", "Category", "A"], "B");
    assert ["Home", "Category", "A"] + ["B"] == ["Home", "Category", "A", "B"];
  }

  // ---------------------------------------------------------------------------
  // The record
  // ---------------------------------------------------------------------------

  /**
   * The record of a page: title, SKU and description are mandatory and
   * checked in that order; an absent thumbnail list gives no images, an
   * absent details container an empty table.
   */
  function Extract(page: ParsedPage): Result<ProductRecord, ExtractError>
  {
    if page.title.None? then Failure(MissingTitle)
    else if page.sku.None? then Failure(MissingSku)
    else if page.description.None? then Failure(MissingDescription)
    else
      var images := if page.thumbnails.None? then Success([]) else ImageUrlsOf(page.thumbnails.value);
      if images.Failure? then Failure(images.error)
      else
        Success(ProductRecord(
          StrippedText(page.title.value),
          StrippedText(page.sku.value),
          StrippedText(page.description.value),
          images.value,
          BreadcrumbPath(BreadcrumbTexts(page.breadcrumbs)),
          if page.details.None? then map[] else TableOf(page.details.value)))
  }

  /** The thumbnails' `src` attributes, none when the list is absent. */
  function Sources(page: ParsedPage): seq<Option<string>> {
    if page.thumbnails.None? then [] else page.thumbnails.value
  }

  /**
   * A page fails exactly when a mandatory element is missing or an image has
   * no `src`; title is checked before SKU, SKU before description, and all
   * three before the images.
   */
  lemma ExtractFails(page: ParsedPage)
    ensures Extract(page).Failure? <==>
      || page.title.None? || page.sku.None? || page.description.None?
      || exists i :: 0 <= i < |Sources(page)| && Sources(page)[i].None?
    ensures page.title.None? ==> Extract(page) == Failure(MissingTitle)
    ensures page.title.Some? && page.sku.None? ==> Extract(page) == Failure(MissingSku)
    ensures page.title.Some? && page.sku.Some? && page.description.None? ==>
      Extract(page) == Failure(MissingDescription)
  {
    ImageUrlsOfMeaning(Sources(page));
  }

  /**
   * The record of a page that yields one: the stripped texts, one normalised
   * URL per thumbnail in document order, the breadcrumbs from the third one
   * on, and the table of its two-cell rows.
   */
  lemma ExtractSucceeds(page: ParsedPage)
    requires Extract(page).Success?
    ensures var r := Extract(page).value;
      && r.title == StrippedText(page.title.value)
      && r.sku == StrippedText(page.sku.value)
      && r.description == StrippedText(page.description.value)
      && |r.imageUrls| == |Sources(page)|
      && (forall i :: 0 <= i < |r.imageUrls| ==> Sources(page)[i].Some? && r.imageUrls[i] == FixImageUrl(Sources(page)[i].value))
      && r.breadcrumbPath == Join(Drop(BreadcrumbTexts(page.breadcrumbs), 2), " > ")
      && r.tableData == (if page.details.None? then map[] else TableOf(page.details.value))
  {
    ImageUrlsOfMeaning(Sources(page));
  }

  /** A page with its mandatory fields but no thumbnails and no details gives no images and an empty table. */
  lemma ExtractWithoutOptionalParts(page: ParsedPage)
    requires page.title.Some? && page.sku.Some? && page.description.Some?
    requires page.thumbnails.None? && page.details.None?
    ensures Extract(page).Success?
    ensures Extract(page).value.imageUrls == [] && Extract(page).value.tableData == map[]
  {
  }

  /** Every URL in a record is already normalised and has no query string. */
  lemma ExtractedUrlsNormalised(page: ParsedPage)
    requires Extract(page).Success?
    ensures forall u :: u in Extract(page).value.imageUrls ==> '?' !in u && FixImageUrl(u) == u
  {
    ExtractSucceeds(page);
    var urls := Extract(page).value.imageUrls;
    forall u | u in urls ensures '?' !in u && FixImageUrl(u) == u {
      var i :| 0 <= i < |urls| && urls[i] == u;
      FixImageUrlIdempotent(Sources(page)[i].value);
      FixImageUrlMeaning(Sources(page)[i].value);
    }
  }

  // ---------------------------------------------------------------------------
  // handle_page
  // ---------------------------------------------------------------------------

  /**
   * The first loop of `handle_page`: the normalised `src` of every image in
   * the thumbnail list, stopping at the first image without one.
   */
  method CollectImageUrls(imgs: seq<Option<string>>) returns (r: Result<seq<string>, ExtractError>)
    ensures r == ImageUrlsOf(imgs)
  {
    var imageUrls: seq<string> := [];
    for i := 0 to |imgs|
      invariant ImageUrlsOf(imgs[..i]) == Success(imageUrls)
    {
      assert imgs[..i + 1][..i] == imgs[..i];
      if imgs[i].None? {
        ImageUrlsFailureStays(imgs, i + 1);
        return Failure(MissingSrc(i));
      }
      imageUrls := imageUrls + [FixImageUrl(imgs[i].value)];
    }
    assert imgs[..|imgs|] == imgs;
    r := Success(imageUrls);
  }

  /**
   * The second loop of `handle_page`: every row with exactly two cells sets
   * its key to its value in the dictionary.
   */
  method FillTable(rows: seq<seq<Element>>) returns (tableData: map<string, string>)
    ensures tableData == TableOf(rows)
  {
    tableData := map[];
    for i := 0 to |rows|
      invariant tableData == TableOf(rows[..i])
    {
      assert rows[..i + 1][..i] == rows[..i];
      var tds := rows[i];
      if |tds| == 2 {
        var key := StrippedText(tds[0]);
        var value := StrippedText(tds[1]);
        tableData := tableData[key := value];
      }
    }
    assert rows[..|rows|] == rows;
  }

  /** The third loop of `handle_page`: the text of every breadcrumb item, in order. */
  method CollectBreadcrumbs(items: seq<Element>) returns (breadcrumbItems: seq<string>)
    ensures breadcrumbItems == BreadcrumbTexts(items)
  {
    breadcrumbItems := [];
    for i := 0 to |items|
      invariant |breadcrumbItems| == i
      invariant forall k :: 0 <= k < i ==> breadcrumbItems[k] == StrippedStrings(items[k])
    {
      breadcrumbItems := breadcrumbItems + [StrippedStrings(items[i])];
    }
  }

  /**
   * `handle_page` after the fetch: reads the mandatory fields, then builds
   * the image list, the table and the breadcrumb path.
   */
  method HandlePage(page: ParsedPage) returns (r: Result<ProductRecord, ExtractError>)
    ensures r == Extract(page)
  {
    var imageUrls: seq<string> := [];
    var tableData: map<string, string> := map[];

    if page.title.None? {
      return Failure(MissingTitle);
    }
    var title := StrippedText(page.title.value);
    if page.sku.None? {
      return Failure(MissingSku);
    }
    var sku := StrippedText(page.sku.value);
    if page.description.None? {
      return Failure(MissingDescription);
    }
    var description := StrippedText(page.description.value);

    if page.thumbnails.Some? {
      var images := CollectImageUrls(page.thumbnails.value);
      if images.Failure? {
        return Failure(images.error);
      }
      imageUrls := images.value;
    }
    if page.details.Some? {
      tableData := FillTable(page.details.value);
    }
    var breadcrumbItems := CollectBreadcrumbs(page.breadcrumbs);

    var breadcrumbPath := BreadcrumbPath(breadcrumbItems);
    r := Success(ProductRecord(title, sku, description, imageUrls, breadcrumbPath, tableData));
  }
}
