/**
 * Request handlers of the process page: list parameters and their defaults,
 * the page arithmetic and page-number window of the process table, and the
 * input checks of the kill and stop actions.
 */
module Tasks {
  import opened Wrappers
  import opened Text
  import Process

  // ---------------------------------------------------------------------------
  // ServeTasksList
  // ---------------------------------------------------------------------------

  const PageSize: nat := 15
  const WindowSize: nat := 5

  datatype ListParams = ListParams(query: string, sortBy: string, sortDir: string)

  /** The sort column defaults to "cpu" and the direction to "desc"; given values are kept. */
  function WithDefaults(query: string, sortBy: string, sortDir: string): (p: ListParams)
    ensures p.query == query && p.sortBy != "" && p.sortDir != ""
    ensures sortBy != "" ==> p.sortBy == sortBy
    ensures sortDir != "" ==> p.sortDir == sortDir
    ensures sortBy == "" ==> p.sortBy == "cpu"
    ensures sortDir == "" ==> p.sortDir == "desc"
  {
    ListParams(query, if sortBy == "" then "cpu" else sortBy, if sortDir == "" then "desc" else sortDir)
  }

  /** What the list partial shows: one page of rows and the pager around it. */
  datatype PageView<T> = PageView(
    rows: seq<T>, page: int, totalPages: int, pages: seq<int>,
    hasPrev: bool, hasNext: bool, prevPage: int, nextPage: int)

  /** The requested page: a parsed positive number, else 1. */
  function RequestedPage(pageParam: Option<int>): (p: int)
    ensures p >= 1
    ensures pageParam.Some? && pageParam.value > 0 ==> p == pageParam.value
  {
    if pageParam.Some? && pageParam.value > 0 then pageParam.value else 1
  }

  /**
   * ServeTasksList's paging: 15 rows a page, the page lowered to the last one
   * when it is past the end, the rows of that page, and a window of at most
   * five consecutive page numbers around it.
   */
  method Paginate<T>(procs: seq<T>, pageParam: Option<int>) returns (v: PageView<T>)
    ensures (v.totalPages - 1) * PageSize < |procs| <= v.totalPages * PageSize || (|procs| == 0 && v.totalPages == 0)
    ensures v.page == if v.totalPages > 0 && RequestedPage(pageParam) > v.totalPages then v.totalPages else RequestedPage(pageParam)
    ensures 1 <= v.page && (v.totalPages > 0 ==> v.page <= v.totalPages)
    ensures var start := (v.page - 1) * PageSize;
      v.rows == if start < |procs| then procs[start..Min(start + PageSize, |procs|)] else []
    ensures |v.rows| <= PageSize && (|procs| > 0 ==> v.rows != [])
    ensures |v.pages| == Min(WindowSize, v.totalPages)
    ensures forall k :: 0 <= k < |v.pages| ==> v.pages[k] == v.pages[0] + k && 1 <= v.pages[k] <= v.totalPages
    ensures |procs| > 0 ==> v.page in v.pages
    ensures v.hasPrev <==> v.page > 1
    ensures v.hasNext <==> v.page < v.totalPages
    ensures v.prevPage == v.page - 1 && v.nextPage == v.page + 1
  {
    var page := 1;
    if pageParam.Some? && pageParam.value > 0 {
      page := pageParam.value;
    }
    var total := |procs|;
    var totalPages := (total + PageSize - 1) / PageSize;
    if page > totalPages && totalPages > 0 {
      page := totalPages;
    }

    var start := (page - 1) * PageSize;
    if start < 0 {
      start := 0;
    }
    var end := start + PageSize;
    if end > total {
      end := total;
    }
    var rows: seq<T> := [];
    if start < total {
      rows := procs[start..end];
    }

    var startPage := page - 2;
    if startPage < 1 {
      startPage := 1;
    }
    var endPage := startPage + 4;
    if endPage > totalPages {
      endPage := totalPages;
      startPage := endPage - 4;
      if startPage < 1 {
        startPage := 1;
      }
    }
    assert total > 0 ==> startPage <= page <= endPage;
    var pages: seq<int> := [];
    var i := startPage;
    while i <= endPage
      invariant startPage <= i <= if endPage < startPage then startPage else endPage + 1
      invariant |pages| == i - startPage
      invariant forall k :: 0 <= k < |pages| ==> pages[k] == startPage + k
    {
      pages := pages + [i];
      i := i + 1;
    }
    if total > 0 {
      assert pages[page - startPage] == page;
    }
    v := PageView(rows, page, totalPages, pages, page > 1, page < totalPages, page - 1, page + 1);
  }

  // ---------------------------------------------------------------------------
  // HandleKillProcess
  // ---------------------------------------------------------------------------

  /** The kill handler's answers: 405, 400, or the outcome of signalling the parsed PID. */
  datatype KillResponse = KillNotAllowed | KillInvalidPid | KillFailed(pid: int) | SignalSent(pid: int)

  function StatusOf(r: KillResponse): int {
    match r
    case KillNotAllowed => 405
    case KillInvalidPid => 400
    case _ => 200
  }

  /**
   * HandleKillProcess: only a POST whose pid parses as a base-10 32-bit integer
   * reaches the kill; `killed` is whether signalling that process succeeded.
   */
  function HandleKillProcess(isPost: bool, pidStr: string, killed: bool): (r: KillResponse)
    ensures r == KillNotAllowed <==> !isPost
    ensures r == KillInvalidPid <==> isPost && ParseInt32(pidStr).None?
    ensures r.KillFailed? || r.SignalSent? ==> ParseInt32(pidStr) == Some(r.pid) && Int32Min <= r.pid <= Int32Max
    ensures r.SignalSent? <==> isPost && ParseInt32(pidStr).Some? && killed
  {
    if !isPost then KillNotAllowed
    else
      match ParseInt32(pidStr)
      case None => KillInvalidPid
      case Some(pid) => if killed then SignalSent(pid) else KillFailed(pid)
  }

  /** Any PID the process table shows (rendered with %d) is accepted by the kill handler. */
  lemma KillAcceptsListedPid(pid: int, killed: bool)
    requires Int32Min <= pid <= Int32Max
    ensures HandleKillProcess(true, Decimal(pid), killed) == if killed then SignalSent(pid) else KillFailed(pid)
  {
    DecimalParseRoundTrip(pid);
  }

  /** Empty and sign-only PIDs are rejected with 400. */
  lemma KillRejectsMalformed()
    ensures StatusOf(HandleKillProcess(true, "", true)) == 400
    ensures StatusOf(HandleKillProcess(true, "-", true)) == 400
    ensures StatusOf(HandleKillProcess(false, "1", true)) == 405
  {
  }

  // ---------------------------------------------------------------------------
  // HandleStopContainer
  // ---------------------------------------------------------------------------

  /** The stop handler's answers; `StopDone` carries the id echoed in the confirmation. */
  datatype StopResponse = StopNotAllowed | StopInvalidId | StopFailed(id: string) | StopDone(shortId: string)

  /**
   * The stop handler as written: the confirmation slices the id to its first 12
   * characters without checking its length, so a successful stop of a
   * shorter id has no response (None: the slice panics).
   */
  function HandleStopContainerAsWritten(isPost: bool, id: string, stopped: bool): (r: Option<StopResponse>)
    ensures r.None? <==> isPost && id != "" && stopped && |id| < Process.ShortIdLength
  {
    if !isPost then Some(StopNotAllowed)
    else if id == "" then Some(StopInvalidId)
    else if !stopped then Some(StopFailed(id))
    else if |id| < Process.ShortIdLength then None
    else Some(StopDone(id[..Process.ShortIdLength]))
  }

  /** A container name such as "web", which the daemon accepts as an id, makes the handler panic after stopping it. */
  lemma StopShortIdPanics()
    ensures HandleStopContainerAsWritten(true, "web", true).None?
  {
  }

  /**
   * The stop handler with the echoed id truncated safely: it always answers,
   * rejects non-POST and empty ids, and echoes at most 12 leading characters.
   */
  function HandleStopContainer(isPost: bool, id: string, stopped: bool): (r: StopResponse)
    ensures r == StopNotAllowed <==> !isPost
    ensures r == StopInvalidId <==> isPost && id == ""
    ensures r.StopDone? <==> isPost && id != "" && stopped
    ensures r.StopDone? ==> r.shortId == Process.TruncateID(id) && r.shortId != "" && |r.shortId| <= Process.ShortIdLength
  {
    if !isPost then StopNotAllowed
    else if id == "" then StopInvalidId
    else if !stopped then StopFailed(id)
    else StopDone(Process.TruncateID(id))
  }

  /** Wherever the handler as written answers, the corrected one answers the same. */
  lemma StopCorrectionAgrees(isPost: bool, id: string, stopped: bool)
    requires HandleStopContainerAsWritten(isPost, id, stopped).Some?
    ensures HandleStopContainerAsWritten(isPost, id, stopped).value == HandleStopContainer(isPost, id, stopped)
  {
  }
}
