/**
 * Image URLs and image file names in main.py: `fix_image_url`,
 * `clean_filename`, the extension taken in `download_image`, and the
 * per-page download list that `save_images` builds.
 */
module ImageNaming {
  import opened PyStrings

  /**
   * The CDN host and path that `fix_image_url` rewrites, and the site host
   * and path it is rewritten to. They are spelled in short pieces so that
   * every character is visible to the verifier.
   */
  const CdnPath: string :=
    "panduit-h." + "assetsadobe" + ".com/is/im" + "age/conten" +
    "t/dam/pand" + "uit/en/pro" + "ducts/asse" + "ts/"
  const SitePath: string :=
    "www.pandui" + "t.com/cont" + "ent/dam/pa" + "nduit/en/p" +
    "roducts/as" + "sets/"

  /**
   * The site path cannot recreate the CDN path: it starts with `w`, which
   * the CDN path lacks, and no tail of it overlaps the CDN path's head
   * (`panduit-` needs a `-` seven places after a `p`).
   */
  lemma CdnPathCompatible()
    ensures Compatible(CdnPath, SitePath)
  {
    CdnPathFacts();
    SitePathFacts();
    CompatibleByMarker(CdnPath, SitePath, 7);
  }

  lemma CdnPathFacts()
    ensures |CdnPath| > 7 && CdnPath[0] == 'p' && CdnPath[7] == '-'
    ensures 'w' !in CdnPath
  {
  }

  lemma SitePathFacts()
    ensures |SitePath| >= 7 && SitePath[0] == 'w' && '-' !in SitePath
    ensures 'p' !in SitePath[|SitePath| - 7..]
  {
    assert SitePath[|SitePath| - 7..] == "assets/";
  }

  // ---------------------------------------------------------------------------
  // fix_image_url
  // ---------------------------------------------------------------------------

  /**
   * `fix_image_url`: every occurrence of the CDN path becomes the site path,
   * then the URL is cut at its first `?`. The result is the part of the
   * rewritten URL before its first `?`.
   */
  function FixImageUrl(url: string): (r: string)
  {
    Split(Replace(url, CdnPath, SitePath), '?')[0]
  }

  /**
   * The normalised URL has no `?`: it is the part of the rewritten URL before
   * its first `?`, or all of it when there is none.
   */
  lemma FixImageUrlMeaning(url: string)
    ensures var rewritten, r := Replace(url, CdnPath, SitePath), FixImageUrl(url);
      && '?' !in r
      && StartsWith(rewritten, r)
      && (r == rewritten || rewritten[|r|] == '?')
  {
    var parts := Split(Replace(url, CdnPath, SitePath), '?');
    SplitNoSeparator(Replace(url, CdnPath, SitePath), '?');
    assert '?' !in parts[0];
    SplitFirst(Replace(url, CdnPath, SitePath), '?');
  }

  /** A URL holding neither the CDN path nor a `?` is left as it is. */
  lemma FixImageUrlUnchanged(url: string)
    requires !Occurs(CdnPath, url) && '?' !in url
    ensures FixImageUrl(url) == url
  {
    ReplaceAbsent(url, CdnPath, SitePath);
    SplitPieces(url, '?');
  }

  /** Normalising a normalised URL changes nothing. */
  lemma FixImageUrlIdempotent(url: string)
    ensures FixImageUrl(FixImageUrl(url)) == FixImageUrl(url)
  {
    var t := Replace(url, CdnPath, SitePath);
    var u := FixImageUrl(url);
    CdnPathCompatible();
    ReplaceRemovesAll(url, CdnPath, SitePath);
    FixImageUrlMeaning(url);
    if Occurs(CdnPath, u) {
      OccursInPrefix(CdnPath, t, u);
      assert false;
    }
    FixImageUrlUnchanged(u);
  }

  // ---------------------------------------------------------------------------
  // clean_filename
  // ---------------------------------------------------------------------------

  /** The nine characters that `clean_filename` replaces: \ / * ? : " < > | */
  predicate IsReserved(ch: char) {
    ch in "\\/*?:\"<>|"
  }

  /**
   * `clean_filename`: each reserved character becomes `_`, every other
   * character stays where it is, so no reserved character is left.
   */
  function CleanFilename(name: string): (r: string)
    ensures |r| == |name|
    ensures forall i :: 0 <= i < |name| ==> r[i] == (if IsReserved(name[i]) then '_' else name[i])
    ensures forall i :: 0 <= i < |r| ==> !IsReserved(r[i])
  {
    if name == [] then []
    else [if IsReserved(name[0]) then '_' else name[0]] + CleanFilename(name[1..])
  }

  /** A name without reserved characters is already clean. */
  lemma CleanFilenameUnchanged(name: string)
    requires forall i :: 0 <= i < |name| ==> !IsReserved(name[i])
    ensures CleanFilename(name) == name
  {
  }

  /** Cleaning twice is cleaning once. */
  lemma CleanFilenameIdempotent(name: string)
    ensures CleanFilename(CleanFilename(name)) == CleanFilename(name)
  {
    CleanFilenameUnchanged(CleanFilename(name));
  }

  /** Cleaning works character by character, so it distributes over concatenation. */
  lemma CleanFilenameConcat(a: string, b: string)
    ensures CleanFilename(a + b) == CleanFilename(a) + CleanFilename(b)
  {
    var l, r := CleanFilename(a + b), CleanFilename(a) + CleanFilename(b);
    assert |l| == |r|;
    forall i | 0 <= i < |l| ensures l[i] == r[i] {
      if i < |a| {
        assert (a + b)[i] == a[i];
      } else {
        assert (a + b)[i] == b[i - |a|];
      }
    }
  }

  // ---------------------------------------------------------------------------
  // Image files: download_image and save_images
  // ---------------------------------------------------------------------------

  /**
   * `url.split('.')[-1]`: the text after the last `.` of the whole URL, or
   * the whole URL when it has no `.`.
   */
  function Extension(url: string): (ext: string)
  {
    var parts := Split(url, '.');
    parts[|parts| - 1]
  }

  /**
   * The extension holds no `.`, ends the URL, and is either the whole URL
   * (exactly when it has no `.`) or preceded by a `.`.
   */
  lemma ExtensionMeaning(url: string)
    ensures var ext := Extension(url);
      && '.' !in ext && EndsWith(url, ext)
      && (ext == url || url[|url| - |ext| - 1] == '.')
      && ('.' !in url ==> ext == url)
  {
    var parts := Split(url, '.');
    var ext := parts[|parts| - 1];
    assert Extension(url) == ext;
    SplitNoSeparator(url, '.');
    assert '.' !in ext;
    SplitLast(url, '.');
    assert EndsWith(url, ext) && (ext == url || url[|url| - |ext| - 1] == '.');
    SplitSingle(url, '.');
    assert '.' !in url ==> |parts| == 1;
  }

  /** The text after the last `.` may include `/` when the last path segment has no `.`. */
  lemma ExtensionOfUrlWithoutSuffix()
    ensures Extension("http://a.b/c") == "b/c"
  {
    assert "http://a.b/c" == "http://a" + ['.'] + "b/c";
    SplitAfterPiece("http://a", '.', "b/c");
    SplitSingle("b/c", '.');
    SplitFirst("b/c", '.');
  }

  /** `f'{sku}_{idx}'`: the base name of the image at 1-based position `idx`. */
  function ImageBaseName(sku: string, idx: nat): string {
    sku + "_" + NatToString(idx)
  }

  /** `f'images/{clean_filename(filename)}.{ext}'`: where an image is saved. */
  function ImageFilePath(url: string, name: string): string {
    "images/" + CleanFilename(name) + "." + Extension(url)
  }

  /** One `download_image(session, url, name)` call of `save_images`. */
  datatype DownloadTask = DownloadTask(url: string, name: string)

  function TargetPath(task: DownloadTask): string {
    ImageFilePath(task.url, task.name)
  }

  /** The downloads `save_images` starts: one per URL, in order, numbered from 1. */
  function ImageTasks(imageUrls: seq<string>, sku: string): (tasks: seq<DownloadTask>)
    ensures |tasks| == |imageUrls|
  {
    seq(|imageUrls|, i requires 0 <= i < |imageUrls| => DownloadTask(imageUrls[i], ImageBaseName(sku, i + 1)))
  }

  lemma ConcatAssoc(a: string, b: string, c: string)
    ensures a + b + c == a + (b + c)
  {
  }

  /** The `_` and the digits of a base name are not reserved. */
  lemma NumberSuffixClean(idx: nat)
    ensures forall i :: 0 <= i < |"_" + NatToString(idx)| ==> !IsReserved(("_" + NatToString(idx))[i])
  {
    var d := NatToString(idx);
    forall i | 0 <= i < |"_" + d| ensures !IsReserved(("_" + d)[i]) {
      if i > 0 {
        assert ("_" + d)[i] == d[i - 1];
        assert IsDigit(d[i - 1]);
      }
    }
  }

  /** Cleaning a base name cleans the SKU and keeps `_` and the number. */
  lemma CleanBaseName(sku: string, idx: nat)
    ensures CleanFilename(ImageBaseName(sku, idx)) == CleanFilename(sku) + "_" + NatToString(idx)
  {
    var suffix := "_" + NatToString(idx);
    CleanFilenameConcat(sku, suffix);
    NumberSuffixClean(idx);
    CleanFilenameUnchanged(suffix);
    ConcatAssoc(sku, "_", NatToString(idx));
    ConcatAssoc(CleanFilename(sku), "_", NatToString(idx));
  }

  lemma SamePieceBeforeSeparator(a: string, x: string, b: string, y: string, sep: char)
    requires sep !in a && sep !in b && a + [sep] + x == b + [sep] + y
    ensures a == b
  {
    SplitAfterPiece(a, sep, x);
    SplitAfterPiece(b, sep, y);
    assert ([a] + Split(x, sep))[0] == a;
    assert ([b] + Split(y, sep))[0] == b;
  }

  lemma NoDotInNumber(n: nat)
    ensures '.' !in NatToString(n)
  {
    var d := NatToString(n);
    forall k | 0 <= k < |d| ensures d[k] != '.' {
      assert IsDigit(d[k]);
    }
  }

  /** The saved path is a common prefix, then the number, a `.` and the extension. */
  lemma TargetPathShape(url: string, sku: string, idx: nat)
    ensures ImageFilePath(url, ImageBaseName(sku, idx))
         == ("images/" + CleanFilename(sku) + "_") + (NatToString(idx) + "." + Extension(url))
  {
    CleanBaseName(sku, idx);
  }

  lemma CancelPrefix(p: string, x: string, y: string)
    requires p + x == p + y
    ensures x == y
  {
    assert (p + x)[|p|..] == x;
    assert (p + y)[|p|..] == y;
  }

  /**
   * Two images of one page are saved under the same path only if they are
   * the same image: the number before the extension tells them apart.
   */
  lemma TargetPathDeterminesIndex(imageUrls: seq<string>, sku: string, i: nat, j: nat)
    requires i < |imageUrls| && j < |imageUrls|
    requires TargetPath(ImageTasks(imageUrls, sku)[i]) == TargetPath(ImageTasks(imageUrls, sku)[j])
    ensures i == j
  {
    var pre := "images/" + CleanFilename(sku) + "_";
    var di, dj := NatToString(i + 1), NatToString(j + 1);
    var ei, ej := Extension(imageUrls[i]), Extension(imageUrls[j]);
    var ti, tj := ImageTasks(imageUrls, sku)[i], ImageTasks(imageUrls, sku)[j];
    assert ti == DownloadTask(imageUrls[i], ImageBaseName(sku, i + 1));
    assert tj == DownloadTask(imageUrls[j], ImageBaseName(sku, j + 1));
    TargetPathShape(imageUrls[i], sku, i + 1);
    TargetPathShape(imageUrls[j], sku, j + 1);
    assert TargetPath(ti) == pre + (di + "." + ei);
    assert TargetPath(tj) == pre + (dj + "." + ej);
    CancelPrefix(pre, di + "." + ei, dj + "." + ej);
    NoDotInNumber(i + 1);
    NoDotInNumber(j + 1);
    SamePieceBeforeSeparator(di, ei, dj, ej, '.');
    NatToStringInjective(i + 1, j + 1);
  }

  /** No two downloads of one page write the same file. */
  lemma TargetPathsDistinct(imageUrls: seq<string>, sku: string)
    ensures forall i, j :: 0 <= i < j < |imageUrls| ==>
      TargetPath(ImageTasks(imageUrls, sku)[i]) != TargetPath(ImageTasks(imageUrls, sku)[j])
  {
    forall i, j | 0 <= i < j < |imageUrls|
      ensures TargetPath(ImageTasks(imageUrls, sku)[i]) != TargetPath(ImageTasks(imageUrls, sku)[j])
    {
      if TargetPath(ImageTasks(imageUrls, sku)[i]) == TargetPath(ImageTasks(imageUrls, sku)[j]) {
        TargetPathDeterminesIndex(imageUrls, sku, i, j);
        assert false;
      }
    }
  }

  /** The two images of the page with SKU `ABC123` are named `ABC123_1` and `ABC123_2`. */
  lemma ImageTasksExample()
    ensures ImageTasks(["x/a.jpg", "x/b.png"], "ABC123")
         == [DownloadTask("x/a.jpg", "ABC123_1"), DownloadTask("x/b.png", "ABC123_2")]
  {
    assert NatToString(1) == "1";
    assert NatToString(2) == "2";
    assert ImageBaseName("ABC123", 1) == "ABC123_1";
    assert ImageBaseName("ABC123", 2) == "ABC123_2";
  }

  /**
   * The loop of `save_images`: one download per URL, in order, named
   * `sku_1 … sku_n`; no two of them write the same file.
   */
  method SaveImages(imageUrls: seq<string>, sku: string) returns (tasks: seq<DownloadTask>)
    ensures tasks == ImageTasks(imageUrls, sku)
    ensures forall i, j :: 0 <= i < j < |tasks| ==> TargetPath(tasks[i]) != TargetPath(tasks[j])
  {
    tasks := [];
    var idx := 1;
    for k := 0 to |imageUrls|
      invariant idx == k + 1
      invariant |tasks| == k
      invariant forall m :: 0 <= m < k ==> tasks[m] == DownloadTask(imageUrls[m], ImageBaseName(sku, m + 1))
    {
      tasks := tasks + [DownloadTask(imageUrls[k], ImageBaseName(sku, idx))];
      idx := idx + 1;
    }
    TargetPathsDistinct(imageUrls, sku);
  }
}
