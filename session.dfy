/**
 * The downloader's state and its four operations (src/http_dl.c):
 * CURL_AddTransfer, CURL_CheckDownloads, cleanup_transfer and CURL_Cleanup.
 * The results of libcurl and filesystem calls are parameters.
 */
module HttpDownload {
  import opened Options
  import opened CStrings
  import opened Logins
  import opened TransferState

  /** The parts of fileneeded_t this file reads and writes; the file on disk is two flags. */
  class FileNeeded {
    var filename: string
    var status: FileStatus
    var fileOpen: bool
    var fileExists: bool

    constructor (filename: string, status: FileStatus, fileExists: bool)
      ensures this.filename == filename && this.status == status
      ensures !fileOpen && this.fileExists == fileExists
    {
      this.filename := filename;
      this.status := status;
      this.fileOpen := false;
      this.fileExists := fileExists;
    }
  }

  /** curlinfo_t, with the error buffer the source hands to libcurl. */
  class Transfer {
    const urlSize: nat          // sizeof(url), HTTP_MAX_URL_LENGTH
    const filenameSize: nat     // sizeof(filename), MAX_WADPATH
    const fileinfo: FileNeeded
    var url: string
    var startTime: int
    var handle: Option<nat>     // the easy handle; None is NULL
    var userpwd: Option<string> // CURLOPT_USERPWD set on the handle
    var filename: string
    var errorBuffer: string

    constructor (urlSize: nat, filenameSize: nat, fileinfo: FileNeeded)
      ensures this.urlSize == urlSize && this.filenameSize == filenameSize && this.fileinfo == fileinfo
      ensures url == [] && startTime == 0 && handle == None && userpwd == None
      ensures filename == [] && errorBuffer == []
    {
      this.urlSize := urlSize;
      this.filenameSize := filenameSize;
      this.fileinfo := fileinfo;
      url, startTime, handle, userpwd := [], 0, None, None;
      filename, errorBuffer := [], [];
    }

    function Job(): Job
      reads this, fileinfo
    {
      TransferState.Job(fileinfo.status, errorBuffer, fileinfo.fileOpen, fileinfo.fileExists, handle)
    }
  }

  /** The session globals of src/http_dl.c. */
  class Session {
    var initStatus: int              // curl_initstatus
    var activeTransfers: nat         // curl_active_transfers (UINT32)
    var totalTransfers: nat          // curl_total_transfers (UINT32)
    var failedDownload: bool         // curl_faileddownload
    var downloadCompletedNum: nat    // downloadcompletednum
    var lastFileNum: int             // lastfilenum
    var logins: seq<Login>           // curl_logins
    var liveHandles: set<nat>        // easy handles libcurl holds allocated
    ghost var globalInits: nat       // how often curl_global_init was called

    ghost predicate Valid()
      reads this
    {
      (initStatus == 0 || initStatus == 1) && activeTransfers < U32 && totalTransfers < U32
    }

    function Globals(): Globals
      reads this
    {
      TransferState.Globals(initStatus, activeTransfers, totalTransfers, failedDownload,
                            downloadCompletedNum, lastFileNum, liveHandles)
    }

    function StateOf(ti: Transfer): State
      reads this, ti, ti.fileinfo
    {
      State(Globals(), ti.Job())
    }

    /** The globals as the program starts: everything zero, false or empty. */
    constructor (logins: seq<Login>)
      ensures Valid() && this.logins == logins
      ensures initStatus == 0 && activeTransfers == 0 && totalTransfers == 0 && !failedDownload
      ensures downloadCompletedNum == 0 && liveHandles == {} && globalInits == 0
    {
      initStatus, activeTransfers, totalTransfers := 0, 0, 0;
      failedDownload, downloadCompletedNum, lastFileNum := false, 0, 0;
      this.logins := logins;
      liveHandles, globalInits := {}, 0;
    }

    /**
     * CURL_AddTransfer. `multiInitOk` is whether curl_multi_init would return a
     * handle, `easyHandle` what curl_easy_init returns, `destPath` the name
     * strcatbf builds in the download directory, `fopenOk` whether fopen succeeds
     * and `now` the value of I_GetTime()/TICRATE.
     */
    method AddTransfer(curl: Transfer, url: string, filenum: int, multiInitOk: bool,
                       easyHandle: Option<nat>, destPath: string, fopenOk: bool, now: int)
      returns (ok: bool)
      requires Valid()
      requires easyHandle.Some? ==> easyHandle.value !in liveHandles
      modifies this, curl, curl.fileinfo
      ensures Valid()
      ensures globalInits == old(globalInits) + (if old(initStatus) == 0 then 1 else 0)
      ensures initStatus == InitAfter(old(initStatus), multiInitOk)
      ensures ok <==> initStatus == 1 && easyHandle.Some?
      ensures failedDownload == (old(failedDownload) || !ok)
      ensures activeTransfers == old(activeTransfers) && totalTransfers == old(totalTransfers)
      ensures downloadCompletedNum == old(downloadCompletedNum) && logins == old(logins)
      ensures lastFileNum == (if ok then filenum else old(lastFileNum))
      ensures liveHandles == old(liveHandles) + (if ok then HandleSet(easyHandle) else {})
      ensures curl.handle == (if initStatus == 1 then easyHandle else old(curl.handle))
      ensures ok ==>
        && curl.filename == StrlcpyContent(old(curl.filename), old(curl.fileinfo.filename), curl.filenameSize)
        && curl.url == StrlcpyContent(old(curl.url), url + "/" + curl.filename, curl.urlSize)
        && curl.userpwd == AuthFor(logins, url)
        && curl.startTime == now
        && curl.fileinfo.filename == destPath
        && curl.fileinfo.status == Downloading
        && curl.fileinfo.fileOpen == fopenOk
        && curl.fileinfo.fileExists == (old(curl.fileinfo.fileExists) || fopenOk)
      ensures !ok ==>
        && unchanged(curl.fileinfo)
        && curl.url == old(curl.url) && curl.filename == old(curl.filename)
        && curl.startTime == old(curl.startTime) && curl.userpwd == old(curl.userpwd)
      ensures curl.errorBuffer == old(curl.errorBuffer)
    {
      if initStatus == 0 {
        globalInits := globalInits + 1;    // curl_global_init
        if multiInitOk {
          initStatus := 1;
        }
      }
      if initStatus == 1 {
        curl.handle := easyHandle;
        if easyHandle.Some? {
          SetupTransfer(curl, url, filenum, easyHandle.value, destPath, fopenOk, now);
          return true;
        }
      }
      failedDownload := true;
      return false;
    }

    /** The body of CURL_AddTransfer once an easy handle `h` has been obtained. */
    method SetupTransfer(curl: Transfer, url: string, filenum: int, h: nat,
                         destPath: string, fopenOk: bool, now: int)
      modifies this`liveHandles, this`lastFileNum, curl, curl.fileinfo
      ensures liveHandles == old(liveHandles) + {h} && lastFileNum == filenum
      ensures curl.handle == old(curl.handle) && curl.errorBuffer == old(curl.errorBuffer)
      ensures curl.filename == StrlcpyContent(old(curl.filename), old(curl.fileinfo.filename), curl.filenameSize)
      ensures curl.url == StrlcpyContent(old(curl.url), url + "/" + curl.filename, curl.urlSize)
      ensures curl.userpwd == AuthFor(logins, url)
      ensures curl.startTime == now
      ensures curl.fileinfo.filename == destPath
      ensures curl.fileinfo.status == Downloading
      ensures curl.fileinfo.fileOpen == fopenOk
      ensures curl.fileinfo.fileExists == (old(curl.fileinfo.fileExists) || fopenOk)
    {
      var name := StrlcpyContent(curl.filename, curl.fileinfo.filename, curl.filenameSize);
      var fullUrl := StrlcpyContent(curl.url, url + "/" + name, curl.urlSize);
      var login, _ := GetLogin(logins, url, false);    // looked up by the base URL
      var auth := if login.Some? then Some(logins[login.value].auth) else None;
      curl.filename, curl.url, curl.userpwd := name, fullUrl, auth;
      // strcatbf(filename, downloaddir, "/"), then fopen(filename, "wb")
      curl.fileinfo.filename, curl.fileinfo.fileOpen := destPath, fopenOk;
      curl.fileinfo.fileExists := curl.fileinfo.fileExists || fopenOk;
      liveHandles := liveHandles + {h};                 // curl_multi_add_handle
      curl.startTime := now;
      curl.fileinfo.status := Downloading;
      lastFileNum := filenum;
    }

    /** cleanup_transfer: both counters down by one (UINT32), the handle released and set to NULL. */
    method CleanupTransfer(ti: Transfer)
      requires Valid()
      modifies this, ti
      ensures Valid()
      ensures activeTransfers == Dec32(old(activeTransfers)) && totalTransfers == Dec32(old(totalTransfers))
      ensures liveHandles == old(liveHandles) - HandleSet(old(ti.handle))
      ensures ti.handle == None
      ensures initStatus == old(initStatus) && failedDownload == old(failedDownload)
      ensures downloadCompletedNum == old(downloadCompletedNum) && lastFileNum == old(lastFileNum)
      ensures logins == old(logins) && globalInits == old(globalInits)
      ensures ti.url == old(ti.url) && ti.startTime == old(ti.startTime) && ti.userpwd == old(ti.userpwd)
      ensures ti.filename == old(ti.filename) && ti.errorBuffer == old(ti.errorBuffer)
    {
      activeTransfers := Dec32(activeTransfers);
      totalTransfers := Dec32(totalTransfers);
      liveHandles := liveHandles - HandleSet(ti.handle);
      ti.handle := None;
    }

    /** The handling of one DONE message with result `code`, before cleanup_transfer. */
    method FinishTransfer(ti: Transfer, code: CurlCode)
      modifies this`failedDownload, this`downloadCompletedNum, ti`errorBuffer, ti.fileinfo
      ensures StateOf(ti) == Finish(old(StateOf(ti)), code)
      ensures ti.fileinfo.filename == old(ti.fileinfo.filename)
    {
      if code.CurleFailed? {
        if ti.errorBuffer == [] {
          ti.errorBuffer := StrlcpyContent(ti.errorBuffer, code.text, |code.text|);
        }
        ti.fileinfo.status := Fallback;
        ti.fileinfo.fileOpen := false;      // fclose
        ti.fileinfo.fileExists := false;    // remove
        failedDownload := true;
      } else {
        downloadCompletedNum := downloadCompletedNum + 1;
        ti.fileinfo.status := Found;
        ti.fileinfo.fileOpen := false;      // fclose
      }
    }

    /**
     * CURL_CheckDownloads: read messages from the multi handle's queue `queue`
     * and apply every DONE message to `ti`, until the queue is empty or the
     * total reaches 0. Without a multi handle nothing is read. Returns the
     * number of messages read; the rest stay queued.
     */
    method CheckDownloads(ti: Transfer, queue: seq<CurlMsg>) returns (consumed: nat)
      requires Valid()
      modifies this, ti, ti.fileinfo
      ensures Valid()
      ensures old(initStatus) == 1 ==>
        consumed == Consumed(old(totalTransfers), queue) && StateOf(ti) == Drain(old(StateOf(ti)), queue)
      ensures old(initStatus) != 1 ==> consumed == 0 && StateOf(ti) == old(StateOf(ti))
      ensures logins == old(logins) && globalInits == old(globalInits)
      ensures ti.url == old(ti.url) && ti.startTime == old(ti.startTime) && ti.userpwd == old(ti.userpwd)
      ensures ti.filename == old(ti.filename) && ti.fileinfo.filename == old(ti.fileinfo.filename)
    {
      consumed := 0;
      if initStatus != 1 {
        return;
      }
      ghost var st0 := StateOf(ti);
      ghost var total0 := totalTransfers;
      while consumed < |queue|
        invariant Valid() && initStatus == 1
        invariant consumed <= |queue|
        invariant StateOf(ti) == ApplyAll(st0, Dones(queue[..consumed]))
        invariant consumed + Consumed(totalTransfers, queue[consumed..]) == Consumed(total0, queue)
        invariant logins == old(logins) && globalInits == old(globalInits)
        invariant ti.url == old(ti.url) && ti.startTime == old(ti.startTime) && ti.userpwd == old(ti.userpwd)
        invariant ti.filename == old(ti.filename) && ti.fileinfo.filename == old(ti.fileinfo.filename)
      {
        var m := queue[consumed];
        DrainStep(st0, queue, consumed);
        ConsumedStep(totalTransfers, queue, consumed);
        consumed := consumed + 1;
        if m.Done? {
          FinishTransfer(ti, m.result);
          CleanupTransfer(ti);
          if totalTransfers == 0 {
            break;
          }
        }
      }
    }

    /**
     * CURL_Cleanup: with the session initialised, release the handle of each of
     * the first curl_total_transfers entries that has one, tear down libcurl and
     * reset the status to 0. The entries keep their (now dangling) handles.
     */
    method Cleanup(curlc: array<Transfer>)
      requires Valid()
      requires initStatus == 1 ==> totalTransfers <= curlc.Length
      modifies this
      ensures Valid()
      ensures activeTransfers == old(activeTransfers) && totalTransfers == old(totalTransfers)
      ensures initStatus == 0
      ensures old(initStatus) == 1 ==> liveHandles == old(liveHandles) - HandlesOf(curlc[..totalTransfers])
      ensures old(initStatus) == 1 ==> forall k :: 0 <= k < totalTransfers && curlc[k].handle.Some? ==>
        curlc[k].handle.value !in liveHandles
      ensures old(initStatus) != 1 ==> unchanged(this)
      ensures failedDownload == old(failedDownload) && downloadCompletedNum == old(downloadCompletedNum)
      ensures lastFileNum == old(lastFileNum) && logins == old(logins) && globalInits == old(globalInits)
    {
      if initStatus == 1 {
        var i := 0;
        while i < totalTransfers
          invariant 0 <= i <= totalTransfers <= curlc.Length
          invariant liveHandles == old(liveHandles) - HandlesOf(curlc[..i])
          invariant unchanged(this`initStatus, this`activeTransfers, this`totalTransfers, this`failedDownload)
          invariant unchanged(this`downloadCompletedNum, this`lastFileNum, this`logins, this`globalInits)
        {
          assert curlc[..i + 1][..i] == curlc[..i];
          if curlc[i].handle.Some? {
            liveHandles := liveHandles - {curlc[i].handle.value};
          }
          i := i + 1;
        }
        forall k | 0 <= k < totalTransfers && curlc[k].handle.Some?
          ensures curlc[k].handle.value !in liveHandles
        {
          HandlesOfHas(curlc[..totalTransfers], k);
        }
        initStatus := 0;
      }
    }
  }

  /** The handles held by a prefix of the transfer array. */
  function HandlesOf(ts: seq<Transfer>): set<nat>
    reads ts
    decreases |ts|
  {
    if ts == [] then {} else HandlesOf(ts[..|ts| - 1]) + HandleSet(ts[|ts| - 1].handle)
  }

  lemma {:induction false} HandlesOfHas(ts: seq<Transfer>, k: nat)
    requires k < |ts| && ts[k].handle.Some?
    ensures ts[k].handle.value in HandlesOf(ts)
    decreases |ts|
  {
    if k < |ts| - 1 {
      assert ts[..|ts| - 1][k] == ts[k];
      HandlesOfHas(ts[..|ts| - 1], k);
    }
  }

  /** Tearing down twice is the same as tearing down once. */
  method CleanupTwice(s: Session, curlc: array<Transfer>)
    requires s.Valid()
    requires s.initStatus == 1 ==> s.totalTransfers <= curlc.Length
    modifies s
    ensures s.Valid() && s.initStatus == 0 && s.totalTransfers == old(s.totalTransfers)
    ensures old(s.initStatus) == 1 ==> s.liveHandles == old(s.liveHandles) - HandlesOf(curlc[..s.totalTransfers])
    ensures old(s.initStatus) != 1 ==> unchanged(s)
    ensures s.activeTransfers == old(s.activeTransfers) && s.failedDownload == old(s.failedDownload)
    ensures s.downloadCompletedNum == old(s.downloadCompletedNum) && s.lastFileNum == old(s.lastFileNum)
    ensures s.logins == old(s.logins) && s.globalInits == old(s.globalInits)
  {
    s.Cleanup(curlc);
    ghost var once := s.Globals();
    s.Cleanup(curlc);
    assert s.Globals() == once;
  }
}
