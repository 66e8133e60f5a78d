# ParsePanduit — a Dafny model of the scraper core

ParsePanduit is a batch scraper. It reads a list of product-page links and fetches each page in order. For each page it extracts a record: title, SKU, description, image URLs, breadcrumb path and a key/value table. It downloads the page's images as `images/{sku}_{n}.{ext}` and finally writes all records to `data.json`. The first error aborts the whole run.

This project models the pure and loop-shaped core of `main.py`.

- **`pystrings.dfy`** (module `PyStrings`) models the Python string operations the scraper relies on.
  - `str.replace` is modelled exactly: left to right, non-overlapping, including the empty-pattern case.
  - `split` on one character and `join` are proved inverse to each other.
  - `strip` uses the characters for which `str.isspace` holds.
  - `str(n)` is modelled for naturals.
- **`naming.dfy`** (module `ImageNaming`) models:
  - `fix_image_url`: the CDN path is rewritten to the site path and the query string is cut;
  - `clean_filename`;
  - the extension and save path of `download_image`;
  - the download list of `save_images`.

  It proves that `fix_image_url` is idempotent, and that no two images of one page are saved under the same path.
- **`extract.dfy`** (module `PageExtraction`) models what `handle_page` does once BeautifulSoup has parsed the page.
  - Each `soup.find` result is an `Option` of an element, and the thumbnail `src` attributes and the table cells are inputs.
  - The record is specified by the function `Extract`.
  - The method `HandlePage` and its three loops (`CollectImageUrls`, `FillTable`, `CollectBreadcrumbs`) are proved to compute it.
- **`batch.dfy`** (module `BatchDriver`) models the loop of `main`. The network is two function parameters: the response to a page request, and the status of an image request.
  - The run is specified by `RunOf`, which collects the per-line outcomes and stops at the first failure.
  - The method `Run` is proved to compute it.
- **`wrappers.dfy`** holds `Option` and `Result`.

Python exceptions become `Failure` values:

| Python exception | model value |
|---|---|
| `AttributeError` on a missing title, SKU or description | `MissingTitle`, `MissingSku`, `MissingDescription` |
| `KeyError` on an image without `src` | `MissingSrc(i)` |
| `raise_for_status` (status of 400 or more) on a page | `PageFetchFailed` |
| `raise_for_status` on an image | `ImageFetchFailed` |
| `FileNotFoundError` from `open` when the extension holds `/` | `ImageWriteFailed` |

Behaviour of the code that is easy to misread:

- `fix_image_url` rewrites with `str.replace`, so every occurrence of the CDN path in a URL is rewritten, wherever it stands.
- `breadcrumb_items[2:]` is empty for two items or fewer, so such pages get the empty breadcrumb path.
- The extension is `url.split('.')[-1]`, the text after the last `.` anywhere in the URL. When the last path segment has no `.`, the extension holds a `/`. For `http://a.b/c` it is `b/c` (lemma `ImageNaming.ExtensionOfUrlWithoutSuffix`). Writing that file then fails (see `BatchDriver.Writable`).
- A URL without any `.` has the whole URL as its extension.
- The SKU may be empty: the code never checks it.

## Model

| member | source | states |
|---|---|---|
| PyStrings.Replace | main.py:14-15 | `s.replace(pat, rep)`: scanning from the left, each non-overlapping occurrence of `pat` becomes `rep`; an empty `pat` inserts `rep` before every character and at the end |
| PyStrings.ReplaceAbsent | main.py:14-15 | `str.replace` leaves a string without the pattern unchanged |
| PyStrings.ReplaceRemovesAll | main.py:14-15 | when the replacement cannot recreate the pattern, no occurrence of the pattern is left after replacing |
| PyStrings.Split | main.py:18 | `split` always yields at least one piece |
| PyStrings.SplitPieces | main.py:18 | no piece contains the separator; the first piece precedes the first separator; the last piece follows the last separator; there is one piece exactly when the separator is absent |
| PyStrings.JoinSplit | main.py:18 | joining the pieces of a split with the separator gives back the string |
| PyStrings.SplitJoin | main.py:18 | the inverse of `Split`: splitting a join of separator-free pieces gives back the pieces |
| PyStrings.Join | main.py:127 | `sep.join(parts)`: the pieces in order with `sep` between neighbours; the empty string for no pieces |
| PyStrings.JoinLast | main.py:127 | a join of two or more pieces ends with the separator and the last piece |
| PyStrings.Strip | main.py:79-82 | `s.strip()`: `s` without its leading and trailing `isspace` characters |
| PyStrings.StripMeaning | main.py:79-82 | `strip` returns a substring of the input that is empty or has no whitespace at either end |
| PyStrings.StripExact | main.py:79-82 | stripping whitespace, then text without whitespace at its ends, then whitespace gives exactly that text |
| PyStrings.StripIdempotent | main.py:79-82 | stripping twice is stripping once |
| PyStrings.NatToString | main.py:55 | `str(n)` is a non-empty run of decimal digits, a single digit exactly when n < 10 |
| PyStrings.NatToStringInjective | main.py:55 | different image numbers are written differently |
| ImageNaming.CdnPathCompatible | main.py:14-15 | the site path cannot recreate the CDN path it replaces |
| ImageNaming.FixImageUrl | main.py:12-20 | `fix_image_url`: every CDN path replaced by the site path, then the part before the first `?` |
| ImageNaming.FixImageUrlMeaning | main.py:12-20 | the normalised URL has no `?` and is the part of the rewritten URL before its first `?` |
| ImageNaming.FixImageUrlUnchanged | main.py:12-20 | a URL with neither the CDN path nor a `?` is returned unchanged |
| ImageNaming.FixImageUrlIdempotent | main.py:12-20 | normalising an already normalised URL changes nothing |
| ImageNaming.CleanFilename | main.py:23-24 | the length is kept; each reserved character `\ / * ? : " < > \|` becomes `_` and every other character stays; no reserved character is left |
| ImageNaming.CleanFilenameUnchanged | main.py:23-24 | a name without reserved characters is already clean |
| ImageNaming.CleanFilenameIdempotent | main.py:23-24 | cleaning twice is cleaning once |
| ImageNaming.CleanFilenameConcat | main.py:23-24 | cleaning distributes over concatenation |
| ImageNaming.Extension | main.py:32 | `url.split('.')[-1]`: the last piece of the URL split at `.` |
| ImageNaming.ExtensionMeaning | main.py:32 | the extension has no `.`, ends the URL, and is the whole URL (exactly when there is no `.`) or follows a `.` |
| ImageNaming.ExtensionOfUrlWithoutSuffix | main.py:32 | the extension of `http://a.b/c` is `b/c` |
| ImageNaming.ImageBaseName | main.py:55 | `f'{sku}_{idx}'` |
| ImageNaming.ImageFilePath | main.py:39 | `f'images/{clean_filename(name)}.{ext}'` with the extension of the URL |
| ImageNaming.ImageTasks | main.py:54-55 | one download per image URL |
| ImageNaming.CleanBaseName | main.py:39 | cleaning `{sku}_{idx}` cleans only the SKU part |
| ImageNaming.TargetPathShape | main.py:39 | the save path is `images/`, the cleaned SKU, `_`, the number, `.` and the extension |
| ImageNaming.TargetPathDeterminesIndex | main.py:39-55 | two images of one page with the same save path are the same image |
| ImageNaming.TargetPathsDistinct | main.py:39-55 | no two downloads of one page write the same file |
| ImageNaming.ImageTasksExample | main.py:54-55 | the two images of SKU `ABC123` are named `ABC123_1` and `ABC123_2` |
| ImageNaming.SaveImages | main.py:43-58 | the loop builds one download per URL, in order, named `sku_1 … sku_n`; their save paths are pairwise distinct |
| PageExtraction.StrippedText | main.py:79-82 | `element.text.strip()`: all text nodes run together, then stripped (also the table cells of main.py:104-105) |
| PageExtraction.StrippedStrings | main.py:114 | `element.get_text(strip=True)`: each text node stripped, then run together |
| PageExtraction.ImageUrlsOf | main.py:88-92 | the thumbnails' `src` values through `fix_image_url`, in order; the first image without `src` gives `MissingSrc` at its position |
| PageExtraction.ImageUrlsOfMeaning | main.py:88-92 | the image list exists exactly when every image has a `src`; it then holds each `src` normalised, in order; otherwise the error names the first image without `src` |
| PageExtraction.ImageUrlsFailureStays | main.py:90-92 | after an image without `src`, the later images change nothing |
| PageExtraction.TableOf | main.py:95-107 | the dictionary filled row by row: a two-cell row sets its stripped first cell to its stripped second cell, overwriting an earlier value |
| PageExtraction.TableKeys | main.py:95-107 | a key is in the table exactly when some two-cell row has it as its stripped first cell |
| PageExtraction.TableLastWins | main.py:103-107 | a key's value comes from the last two-cell row with that key |
| PageExtraction.TableSkipsRow | main.py:103 | a row without exactly two cells has no effect on the table |
| PageExtraction.BreadcrumbTexts | main.py:113-115 | one text per breadcrumb item |
| PageExtraction.BreadcrumbPath | main.py:127 | `" > ".join(items[2:])` |
| PageExtraction.BreadcrumbPathShort | main.py:127 | two items or fewer give the empty path; three give the third item |
| PageExtraction.BreadcrumbPathAppend | main.py:127 | each item after the third is appended after ` > ` |
| PageExtraction.BreadcrumbPathExample | main.py:127 | `Home, Category, A, B` gives `A > B`; `Home` gives the empty path |
| PageExtraction.Extract | main.py:66-137 | the record of a parsed page: title, SKU and description checked in that order; then the image list (empty without the thumbnail list), the breadcrumb path, and the table (empty without the details block) |
| PageExtraction.ExtractFails | main.py:79-92 | a page fails exactly when title, SKU or description is missing or an image has no `src`; title is checked before SKU, and SKU before description |
| PageExtraction.ExtractSucceeds | main.py:79-137 | a record holds the stripped title, SKU and description, one normalised URL per thumbnail in order, the breadcrumbs from the third one joined by ` > `, and the table of the two-cell rows |
| PageExtraction.ExtractWithoutOptionalParts | main.py:84-107 | without a thumbnail list and a details block, a page gives no images and an empty table |
| PageExtraction.ExtractedUrlsNormalised | main.py:92 | every URL in a record has no `?` and is a fixed point of `fix_image_url` |
| PageExtraction.CollectImageUrls | main.py:88-92 | the image loop computes the image list, stopping at the first image without `src` |
| PageExtraction.FillTable | main.py:95-107 | the table loop computes the table of the two-cell rows |
| PageExtraction.CollectBreadcrumbs | main.py:110-115 | the breadcrumb loop collects each item's stripped text, in order |
| PageExtraction.HandlePage | main.py:66-137 | `handle_page` after the fetch gives exactly the record or the error of `Extract` |
| BatchDriver.StatusOk | main.py:29 | `raise_for_status()` passes for a status below 400 |
| BatchDriver.Writable | main.py:39 | the image file can be created only when the extension holds no `/` |
| BatchDriver.DownloadOk | main.py:27-40 | `download_image` succeeds when the request passes `raise_for_status` and the file can be created |
| BatchDriver.FirstFailedDownload | main.py:27-40 | the result is absent exactly when every download succeeds; otherwise it is the first failing download, and all earlier ones succeed |
| BatchDriver.DownloadError | main.py:29-39 | a refused request reports `ImageFetchFailed` with its status; otherwise the failure is `ImageWriteFailed` at the save path |
| BatchDriver.ProcessLine | main.py:153-156 | one iteration of `main`: fetch the stripped link, extract the record, then start and check its downloads |
| BatchDriver.ProcessLineSucceeds | main.py:153-156 | a link processed in full has a passing fetch; its record is the page's `Extract`; its downloads are that record's `ImageTasks`, and every one of them succeeds |
| BatchDriver.UrlWithoutSuffixNotWritable | main.py:32-39 | the image `http://a.b/c` cannot be written, because its extension `b/c` holds `/` |
| BatchDriver.Collect | main.py:151-159 | the outcomes in order: records are appended and downloads saved, until the first failure, which becomes the run's error |
| BatchDriver.Downloads | main.py:156 | the downloads of the successful outcomes, concatenated in order |
| BatchDriver.SavedImages | main.py:156 | each record's `ImageTasks`, concatenated in order |
| BatchDriver.DownloadsAreImageTasks | main.py:156 | when each outcome carries its record's `ImageTasks`, the downloads are the records' saved images |
| BatchDriver.RunOf | main.py:151-163 | the run over the links: `Collect` of each link's `ProcessLine` |
| BatchDriver.Outcomes | main.py:151-156 | one outcome per link |
| BatchDriver.CollectSucceeds | main.py:151-159 | the run produces output exactly when every page succeeds; the output then holds their records, in order, and the saved images are their downloads, in order |
| BatchDriver.CollectFails | main.py:151-159 | a failed run reports the error of its first failing page; every earlier page succeeded |
| BatchDriver.CollectStopsAtFailure | main.py:151-159 | after a failure, later pages change nothing |
| BatchDriver.RunSucceeds | main.py:151-163 | `data.json` is written exactly when every link is processed; it then holds one record per link, in input order, and the images saved are each record's `ImageTasks`, in the same order |
| BatchDriver.RunFails | main.py:151-159 | a failing run reports the first failing link, with that link's own error; every earlier link was processed |
| BatchDriver.ProcessLineErrorLine | main.py:151-156 | the error of a link names that link's position |
| BatchDriver.FirstLineFails | main.py:151-156 | when the first link fails, no output is written and nothing is recorded in `saved` |
| BatchDriver.Run | main.py:140-163 | the loop of `main` computes exactly the run `RunOf`: the records, or the first error, and the images saved |

## Left out

- Reading `new_links.txt` is not modelled: the lines are the input of `Run`.
- The HTTP session and requests (aiohttp) are not modelled: pages and image statuses are function parameters. `raise_for_status` is modelled only as "status of 400 or more".
- HTML parsing (BeautifulSoup) is not modelled. The elements `find`/`find_all` return are given as a `ParsedPage`, and an element is its sequence of text nodes.
- Creating the directory, writing image bytes, `json.dump` and the `print` calls are not modelled, because they are file and console I/O.
- `asyncio.gather` runs a page's downloads concurrently; the model checks them in list order. `FirstFailedDownload` reports the first refused download in that order, not whichever fails first in time.
- Downloads that finish before a failing download of the same page are not part of `saved`. Only the images of pages that succeeded in full are.
- `re.sub` is modelled by its effect for this one character class, not as a general regular-expression engine.
- `BatchDriver.Run`: a network exception other than an HTTP status error (a timeout, a refused connection) is not modelled.
- `BatchDriver.Writable`: of the ways `open` can fail, only an extension holding `/` is modelled. The model assumes no directory of that name exists under `images/`. Other file-system errors (permissions, a full disk, a name too long) are not modelled.
- `PageExtraction.TableOf`: the table is a `map`, which has no key order. A Python dict keeps keys in first-insertion order, and a later duplicate key updates the value in place. `json.dump` writes the keys in the dict's order, and the model does not capture that order.

