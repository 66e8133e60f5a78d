/**
 * The loop of `main` in main.py: every line of the link list is fetched,
 * extracted and its images downloaded, one page after the other; the first
 * error ends the run before `data.json` is written. The network is given as
 * two functions: the response to a page request and the status of an image
 * request.
 */
module BatchDriver {
  import opened Wrappers
  import opened PyStrings
  import opened ImageNaming
  import opened PageExtraction

  /** The response to a page request: its HTTP status and what the parser finds in its body. */
  datatype PageResponse = PageResponse(status: int, page: ParsedPage)

  /** `raise_for_status()` raises for a status of 400 or more. */
  predicate StatusOk(status: int) {
    status < 400
  }

  /** Why a run ends early; `line` is the 0-based position in the link list. */
  datatype BatchError =
    | PageFetchFailed(line: nat, status: int)
    | ExtractFailed(line: nat, error: ExtractError)
    | ImageFetchFailed(line: nat, url: string, status: int)
    | ImageWriteFailed(line: nat, path: string)

  /** A page done: its record and the images saved for it. */
  datatype PageResult = PageResult(record: ProductRecord, downloads: seq<DownloadTask>)

  /**
   * `open(f'images/{…}.{ext}', 'wb')` can create the file only when the
   * extension holds no `/`: the cleaned name never does, so otherwise the
   * save path names a directory under `images/` that nothing creates.
   */
  predicate Writable(task: DownloadTask) {
    '/' !in Extension(task.url)
  }

  /** One `download_image` call succeeds: the request is answered and the file can be written. */
  predicate DownloadOk(task: DownloadTask, imageStatus: string -> int) {
    StatusOk(imageStatus(task.url)) && Writable(task)
  }

  /** The first download, in order, that fails, if any. */
  function FirstFailedDownload(tasks: seq<DownloadTask>, imageStatus: string -> int): (r: Option<nat>)
    ensures r.None? <==> forall i :: 0 <= i < |tasks| ==> DownloadOk(tasks[i], imageStatus)
    ensures r.Some? ==>
      && r.value < |tasks|
      && !DownloadOk(tasks[r.value], imageStatus)
      && forall i :: 0 <= i < r.value ==> DownloadOk(tasks[i], imageStatus)
  {
    if tasks == [] then None
    else if !DownloadOk(tasks[0], imageStatus) then Some(0)
    else
      match FirstFailedDownload(tasks[1..], imageStatus)
      case None => None
      case Some(k) => Some(k + 1)
  }

  /**
   * One iteration of `main`: `handle_page` on the stripped line, then
   * `save_images` for the record's image URLs and SKU.
   */
  function ProcessLine(line: string, index: nat, fetchPage: string -> PageResponse, imageStatus: string -> int)
    : Result<PageResult, BatchError>
  {
    var response := fetchPage(Strip(line));
    if !StatusOk(response.status) then Failure(PageFetchFailed(index, response.status))
    else
      match Extract(response.page)
      case Failure(e) => Failure(ExtractFailed(index, e))
      case Success(record) =>
        var tasks := ImageTasks(record.imageUrls, record.sku);
        match FirstFailedDownload(tasks, imageStatus)
        case Some(k) => Failure(DownloadError(index, tasks[k], imageStatus))
        case None => Success(PageResult(record, tasks))
  }

  /** The error of a failed download: a refused request, else a file that cannot be written. */
  function DownloadError(index: nat, task: DownloadTask, imageStatus: string -> int): BatchError {
    if !StatusOk(imageStatus(task.url)) then ImageFetchFailed(index, task.url, imageStatus(task.url))
    else ImageWriteFailed(index, TargetPath(task))
  }

  /**
   * A link processed in full yields the record `handle_page` extracts from
   * its page and the downloads `save_images` starts for that record.
   */
  lemma ProcessLineSucceeds(line: string, index: nat, fetchPage: string -> PageResponse, imageStatus: string -> int)
    requires ProcessLine(line, index, fetchPage, imageStatus).Success?
    ensures var r := ProcessLine(line, index, fetchPage, imageStatus).value;
      && StatusOk(fetchPage(Strip(line)).status)
      && Extract(fetchPage(Strip(line)).page) == Success(r.record)
      && r.downloads == ImageTasks(r.record.imageUrls, r.record.sku)
      && forall i :: 0 <= i < |r.downloads| ==> DownloadOk(r.downloads[i], imageStatus)
  {
  }

  /** An image URL whose last segment has no `.` cannot be saved: its extension holds `/`. */
  lemma UrlWithoutSuffixNotWritable(name: string)
    ensures !Writable(DownloadTask("http://a.b/c", name))
  {
    ExtensionOfUrlWithoutSuffix();
    assert "b/c"[1] == '/';
  }

  /** What a run leaves: the records written to `data.json` (or the error), and the images saved. */
  datatype BatchRun = BatchRun(output: Result<seq<ProductRecord>, BatchError>, saved: seq<DownloadTask>)

  /**
   * The pages' outcomes taken one after the other: records are appended in
   * order, and the first failure ends the run.
   */
  function Collect(outcomes: seq<Result<PageResult, BatchError>>): BatchRun
  {
    if outcomes == [] then BatchRun(Success([]), [])
    else
      var n := |outcomes| - 1;
      var before := Collect(outcomes[..n]);
      if before.output.Failure? then before
      else
        match outcomes[n]
        case Failure(e) => BatchRun(Failure(e), before.saved)
        case Success(p) => BatchRun(Success(before.output.value + [p.record]), before.saved + p.downloads)
  }

  /** The outcome the loop of `main` would reach for each line of the link list. */
  function Outcomes(lines: seq<string>, fetchPage: string -> PageResponse, imageStatus: string -> int)
    : (outcomes: seq<Result<PageResult, BatchError>>)
    ensures |outcomes| == |lines|
  {
    seq(|lines|, i requires 0 <= i < |lines| => ProcessLine(lines[i], i, fetchPage, imageStatus))
  }

  /** The downloads of the successful outcomes, in order. */
  function Downloads(outcomes: seq<Result<PageResult, BatchError>>): seq<DownloadTask>
  {
    if outcomes == [] then []
    else
      var n := |outcomes| - 1;
      Downloads(outcomes[..n]) + (if outcomes[n].Success? then outcomes[n].value.downloads else [])
  }

  /** The images `save_images` saves for the records, in order: each record's `ImageTasks`. */
  function SavedImages(records: seq<ProductRecord>): seq<DownloadTask>
  {
    if records == [] then []
    else
      var n := |records| - 1;
      SavedImages(records[..n]) + ImageTasks(records[n].imageUrls, records[n].sku)
  }

  /** The run over the link list. */
  function RunOf(lines: seq<string>, fetchPage: string -> PageResponse, imageStatus: string -> int): BatchRun {
    Collect(Outcomes(lines, fetchPage, imageStatus))
  }

  /**
   * The collected output exists exactly when every page succeeded; it then
   * holds their records in order, and the saved images are theirs, in order.
   */
  lemma {:induction false} CollectSucceeds(outcomes: seq<Result<PageResult, BatchError>>)
    ensures Collect(outcomes).output.Success? <==> forall i :: 0 <= i < |outcomes| ==> outcomes[i].Success?
    ensures Collect(outcomes).output.Success? ==>
      && |Collect(outcomes).output.value| == |outcomes|
      && (forall i :: 0 <= i < |outcomes| ==> Collect(outcomes).output.value[i] == outcomes[i].value.record)
      && Collect(outcomes).saved == Downloads(outcomes)
  {
    if outcomes != [] {
      var n := |outcomes| - 1;
      CollectSucceeds(outcomes[..n]);
      assert forall i :: 0 <= i < n ==> outcomes[..n][i] == outcomes[i];
    }
  }

  /** When every outcome carries a record and its `ImageTasks`, the downloads are the records' saved images. */
  lemma {:induction false} DownloadsAreImageTasks(outcomes: seq<Result<PageResult, BatchError>>, records: seq<ProductRecord>)
    requires |outcomes| == |records|
    requires forall i :: 0 <= i < |outcomes| ==>
      outcomes[i] == Success(PageResult(records[i], ImageTasks(records[i].imageUrls, records[i].sku)))
    ensures Downloads(outcomes) == SavedImages(records)
  {
    if outcomes != [] {
      var n := |outcomes| - 1;
      assert forall i :: 0 <= i < n ==> outcomes[..n][i] == outcomes[i] && records[..n][i] == records[i];
      DownloadsAreImageTasks(outcomes[..n], records[..n]);
    }
  }

  /** A failed collection reports the first failing page, and every earlier page succeeded. */
  lemma {:induction false} CollectFails(outcomes: seq<Result<PageResult, BatchError>>)
    requires Collect(outcomes).output.Failure?
    ensures exists k ::
      && 0 <= k < |outcomes| && outcomes[k] == Failure(Collect(outcomes).output.error)
      && forall i :: 0 <= i < k ==> outcomes[i].Success?
  {
    var n := |outcomes| - 1;
    assert forall i :: 0 <= i < n ==> outcomes[..n][i] == outcomes[i];
    if Collect(outcomes[..n]).output.Failure? {
      CollectFails(outcomes[..n]);
      var k :| 0 <= k < n && outcomes[..n][k] == Failure(Collect(outcomes[..n]).output.error) &&
        forall i :: 0 <= i < k ==> outcomes[..n][i].Success?;
      assert outcomes[k] == Failure(Collect(outcomes).output.error);
    } else {
      CollectSucceeds(outcomes[..n]);
      assert outcomes[n] == Failure(Collect(outcomes).output.error);
    }
  }

  /** Once a prefix has failed, the later pages change nothing. */
  lemma {:induction false} CollectStopsAtFailure(outcomes: seq<Result<PageResult, BatchError>>, n: nat)
    requires n <= |outcomes| && Collect(outcomes[..n]).output.Failure?
    ensures Collect(outcomes) == Collect(outcomes[..n])
    decreases |outcomes| - n
  {
    if n < |outcomes| {
      assert outcomes[..n + 1][..n] == outcomes[..n];
      CollectStopsAtFailure(outcomes, n + 1);
    } else {
      assert outcomes[..n] == outcomes;
    }
  }

  /**
   * A run writes its output exactly when every line is processed; the
   * output then holds one record per line, in input order, and the images
   * saved are each record's downloads, in the same order.
   */
  lemma RunSucceeds(lines: seq<string>, fetchPage: string -> PageResponse, imageStatus: string -> int)
    ensures RunOf(lines, fetchPage, imageStatus).output.Success? <==>
      forall i :: 0 <= i < |lines| ==> ProcessLine(lines[i], i, fetchPage, imageStatus).Success?
    ensures RunOf(lines, fetchPage, imageStatus).output.Success? ==>
      var records := RunOf(lines, fetchPage, imageStatus).output.value;
      && |records| == |lines|
      && forall i :: 0 <= i < |lines| ==>
           ProcessLine(lines[i], i, fetchPage, imageStatus).Success? &&
           records[i] == ProcessLine(lines[i], i, fetchPage, imageStatus).value.record
    ensures RunOf(lines, fetchPage, imageStatus).output.Success? ==>
      RunOf(lines, fetchPage, imageStatus).saved == SavedImages(RunOf(lines, fetchPage, imageStatus).output.value)
  {
    var outcomes := Outcomes(lines, fetchPage, imageStatus);
    CollectSucceeds(outcomes);
    assert forall i :: 0 <= i < |lines| ==> outcomes[i] == ProcessLine(lines[i], i, fetchPage, imageStatus);
    if Collect(outcomes).output.Success? {
      var records := Collect(outcomes).output.value;
      forall i | 0 <= i < |lines|
        ensures outcomes[i] == Success(PageResult(records[i], ImageTasks(records[i].imageUrls, records[i].sku)))
      {
        ProcessLineSucceeds(lines[i], i, fetchPage, imageStatus);
      }
      DownloadsAreImageTasks(outcomes, records);
    }
  }

  /**
   * A run that fails reports the first line that fails, with that line's
   * own error; every earlier line was processed.
   */
  lemma RunFails(lines: seq<string>, fetchPage: string -> PageResponse, imageStatus: string -> int)
    requires RunOf(lines, fetchPage, imageStatus).output.Failure?
    ensures var e := RunOf(lines, fetchPage, imageStatus).output.error;
      && e.line < |lines|
      && ProcessLine(lines[e.line], e.line, fetchPage, imageStatus) == Failure(e)
      && forall i :: 0 <= i < e.line ==> ProcessLine(lines[i], i, fetchPage, imageStatus).Success?
  {
    var outcomes := Outcomes(lines, fetchPage, imageStatus);
    CollectFails(outcomes);
    var k :| 0 <= k < |outcomes| && outcomes[k] == Failure(Collect(outcomes).output.error) &&
      forall i :: 0 <= i < k ==> outcomes[i].Success?;
    assert outcomes[k] == ProcessLine(lines[k], k, fetchPage, imageStatus);
    ProcessLineErrorLine(lines[k], k, fetchPage, imageStatus);
    assert forall i :: 0 <= i < k ==> outcomes[i] == ProcessLine(lines[i], i, fetchPage, imageStatus);
  }

  /** The error of a line names that line. */
  lemma ProcessLineErrorLine(line: string, index: nat, fetchPage: string -> PageResponse, imageStatus: string -> int)
    requires ProcessLine(line, index, fetchPage, imageStatus).Failure?
    ensures ProcessLine(line, index, fetchPage, imageStatus).error.line == index
  {
  }

  /** When the first link already fails, no output is written and nothing is recorded as saved. */
  lemma FirstLineFails(lines: seq<string>, fetchPage: string -> PageResponse, imageStatus: string -> int)
    requires |lines| >= 1 && ProcessLine(lines[0], 0, fetchPage, imageStatus).Failure?
    ensures RunOf(lines, fetchPage, imageStatus)
         == BatchRun(Failure(ProcessLine(lines[0], 0, fetchPage, imageStatus).error), [])
  {
    var outcomes := Outcomes(lines, fetchPage, imageStatus);
    assert outcomes[..1][..0] == [];
    CollectStopsAtFailure(outcomes, 1);
  }

  /**
   * `main`'s loop: process each line in order, append its record, stop at
   * the first error; on success the records are what `data.json` receives.
   */
  method Run(lines: seq<string>, fetchPage: string -> PageResponse, imageStatus: string -> int)
    returns (output: Result<seq<ProductRecord>, BatchError>, saved: seq<DownloadTask>)
    ensures BatchRun(output, saved) == RunOf(lines, fetchPage, imageStatus)
  {
    ghost var outcomes := Outcomes(lines, fetchPage, imageStatus);
    var data: seq<ProductRecord> := [];
    saved := [];
    for i := 0 to |lines|
      invariant Collect(outcomes[..i]) == BatchRun(Success(data), saved)
    {
      assert outcomes[..i + 1][..i] == outcomes[..i];
      var response := fetchPage(Strip(lines[i]));
      var error: Option<BatchError> := None;
      var tasks: seq<DownloadTask> := [];
      var record: ProductRecord;
      if !StatusOk(response.status) {
        error := Some(PageFetchFailed(i, response.status));
      } else {
        var pageData := HandlePage(response.page);
        if pageData.Failure? {
          error := Some(ExtractFailed(i, pageData.error));
        } else {
          record := pageData.value;
          tasks := SaveImages(record.imageUrls, record.sku);
          var failed := FirstFailedDownload(tasks, imageStatus);
          if failed.Some? {
            var task := tasks[failed.value];
            if !StatusOk(imageStatus(task.url)) {
              error := Some(ImageFetchFailed(i, task.url, imageStatus(task.url)));
            } else {
              error := Some(ImageWriteFailed(i, TargetPath(task)));
            }
          }
        }
      }
      assert outcomes[i] == if error.Some? then Failure(error.value) else Success(PageResult(record, tasks));
      if error.Some? {
        CollectStopsAtFailure(outcomes, i + 1);
        return Failure(error.value), saved;
      }
      data := data + [record];
      saved := saved + tasks;
    }
    assert outcomes[..|lines|] == outcomes;
    output := Success(data);
  }
}
