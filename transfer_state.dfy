/**
 * The bookkeeping of one download session (src/http_dl.c) as values: the
 * session globals, the per-transfer fields that CURL_CheckDownloads touches,
 * and the transitions applied to them for each DONE message.
 */
module TransferState {
  import opened Options
  import opened CStrings

  /** UINT32 counters wrap modulo 2^32. */
  const U32: nat := 0x1_0000_0000

  /** The fileneeded_t statuses this file sets; OtherStatus stands for every status set elsewhere. */
  datatype FileStatus = Downloading | Found | Fallback | OtherStatus

  /** The result of a finished transfer; `text` is what curl_easy_strerror gives for the code. */
  datatype CurlCode = CurleOk | CurleFailed(text: string)

  /**
   * A message read from the multi handle with curl_multi_info_read. A DONE
   * message names the easy handle it is about; CURL_CheckDownloads never looks
   * at it and applies every DONE message to the one transfer it was given.
   */
  datatype CurlMsg = Done(easyHandle: nat, result: CurlCode) | OtherMsg

  /**
   * The session globals: curl_initstatus, curl_active_transfers,
   * curl_total_transfers, curl_faileddownload, downloadcompletednum, lastfilenum,
   * and the easy handles libcurl holds allocated.
   */
  datatype Globals = Globals(initStatus: int, active: nat, total: nat, failed: bool,
                             completed: nat, lastFileNum: int, liveHandles: set<nat>)

  /** The fields of one transfer that finishing it changes; `handle` None is NULL. */
  datatype Job = Job(status: FileStatus, errorBuffer: string, fileOpen: bool,
                     fileExists: bool, handle: Option<nat>)

  datatype State = State(g: Globals, j: Job)

  predicate InRange(g: Globals)
  {
    g.active < U32 && g.total < U32
  }

  /** Unsigned 32-bit decrement: the inverse of a wrapping increment. */
  function Dec32(x: nat): (r: nat)
    requires x < U32
    ensures r < U32 && (r + 1) % U32 == x
  {
    if x == 0 then U32 - 1 else x - 1
  }

  /** n wrapping decrements of a UINT32 counter. */
  function Sub32(x: nat, n: nat): (r: nat)
    requires x < U32
    ensures r < U32
    decreases n
  {
    if n == 0 then x else Sub32(Dec32(x), n - 1)
  }

  function HandleSet(h: Option<nat>): set<nat>
  {
    if h.Some? then {h.value} else {}
  }

  /** The classification of one DONE message (a failure records the first error, drops the file). */
  function Finish(st: State, code: CurlCode): (r: State)
    ensures r.j.status == (if code.CurleOk? then Found else Fallback) && !r.j.fileOpen
    ensures r.j.fileExists == (st.j.fileExists && code.CurleOk?)
    ensures r.g.failed == (st.g.failed || code.CurleFailed?)
    ensures r.g.completed == st.g.completed + (if code.CurleOk? then 1 else 0)
    ensures st.j.errorBuffer != [] || code.CurleOk? ==> r.j.errorBuffer == st.j.errorBuffer
    ensures st.j.errorBuffer == [] && code.CurleFailed? ==>
      r.j.errorBuffer <= code.text && |r.j.errorBuffer| == (if code.text == [] then 0 else |code.text| - 1)
    ensures r.j.handle == st.j.handle
    ensures r.g.(failed := st.g.failed, completed := st.g.completed) == st.g
  {
    match code
    case CurleFailed(text) =>
      var buffer := if st.j.errorBuffer == [] then StrlcpyContent(st.j.errorBuffer, text, |text|)
                    else st.j.errorBuffer;
      State(st.g.(failed := true),
            st.j.(errorBuffer := buffer, status := Fallback, fileOpen := false, fileExists := false))
    case CurleOk =>
      State(st.g.(completed := st.g.completed + 1), st.j.(status := Found, fileOpen := false))
  }

  /** cleanup_transfer: both counters go down by one (wrapping) and the handle is released and cleared. */
  function Release(st: State): (r: State)
    requires InRange(st.g)
    ensures InRange(r.g)
    ensures (r.g.active + 1) % U32 == st.g.active && (r.g.total + 1) % U32 == st.g.total
    ensures r.j.handle == None && r.g.liveHandles == st.g.liveHandles - HandleSet(st.j.handle)
    ensures r.g.(active := st.g.active, total := st.g.total, liveHandles := st.g.liveHandles) == st.g
    ensures r.j.(handle := st.j.handle) == st.j
  {
    State(st.g.(active := Dec32(st.g.active), total := Dec32(st.g.total),
                liveHandles := st.g.liveHandles - HandleSet(st.j.handle)),
          st.j.(handle := None))
  }

  /** Everything one DONE message does to the session and to the transfer passed in. */
  function Apply(st: State, code: CurlCode): (r: State)
    requires InRange(st.g)
    ensures InRange(r.g)
    ensures (r.g.total + 1) % U32 == st.g.total && (r.g.active + 1) % U32 == st.g.active
    ensures r.j.handle == None && r.g.liveHandles == st.g.liveHandles - HandleSet(st.j.handle)
    ensures r.j.status == (if code.CurleOk? then Found else Fallback) && !r.j.fileOpen
    ensures r.g.initStatus == st.g.initStatus && r.g.lastFileNum == st.g.lastFileNum
  {
    Release(Finish(st, code))
  }

  /** The DONE messages applied in order. */
  function ApplyAll(st: State, codes: seq<CurlCode>): (r: State)
    requires InRange(st.g)
    ensures InRange(r.g)
    ensures r.g.initStatus == st.g.initStatus && r.g.lastFileNum == st.g.lastFileNum
    ensures r.g.liveHandles <= st.g.liveHandles
    ensures codes != [] ==> r.j.handle == None && !r.j.fileOpen
    decreases |codes|
  {
    if codes == [] then st else ApplyAll(Apply(st, codes[0]), codes[1..])
  }

  /** The results of the DONE messages of a queue, in order. */
  function Dones(q: seq<CurlMsg>): seq<CurlCode>
  {
    if q == [] then []
    else (if q[0].Done? then [q[0].result] else []) + Dones(q[1..])
  }

  /** How many DONE messages it takes, from a total of `total`, to bring the total to 0. */
  function Budget(total: nat): nat
  {
    if total == 0 then U32 else total
  }

  /**
   * How many messages the drain loop of CURL_CheckDownloads reads from `q`: it
   * stops after the DONE message that brings the total to 0, or at the end.
   */
  function Consumed(total: nat, q: seq<CurlMsg>): (n: nat)
    requires total < U32
    ensures n <= |q| && (q != [] ==> n > 0)
    decreases |q|
  {
    if q == [] then 0
    else if !q[0].Done? then 1 + Consumed(total, q[1..])
    else if Dec32(total) == 0 then 1
    else 1 + Consumed(Dec32(total), q[1..])
  }

  /** The state after CURL_CheckDownloads drains `q` with transfer st.j passed in. */
  function Drain(st: State, q: seq<CurlMsg>): (r: State)
    requires InRange(st.g)
    ensures InRange(r.g)
    ensures r.g.initStatus == st.g.initStatus && r.g.lastFileNum == st.g.lastFileNum
    ensures r.g.liveHandles <= st.g.liveHandles
  {
    ApplyAll(st, Dones(q[..Consumed(st.g.total, q)]))
  }

  /** curl_initstatus after the init block of CURL_AddTransfer. */
  function InitAfter(status: int, multiOk: bool): (r: int)
    ensures r == 1 <==> status == 1 || (status == 0 && multiOk)
    ensures r != status ==> status == 0 && multiOk
  {
    if status == 0 && multiOk then 1 else status
  }

  /** curl_initstatus after a series of CURL_AddTransfer calls, given whether each multi init would succeed. */
  function InitAfterAll(status: int, multiOks: seq<bool>): int
    decreases |multiOks|
  {
    if multiOks == [] then status else InitAfterAll(InitAfter(status, multiOks[0]), multiOks[1..])
  }

  /** How many of those calls create a multi handle and move the status from 0 to 1. */
  function Creations(status: int, multiOks: seq<bool>): nat
    decreases |multiOks|
  {
    if multiOks == [] then 0
    else (if status == 0 && multiOks[0] then 1 else 0) + Creations(InitAfter(status, multiOks[0]), multiOks[1..])
  }

  // ---------------------------------------------------------------------------
  // Lemmas

  /** Until the session is cleaned up, the multi handle is created at most once, and the status is 1 exactly when it was. */
  lemma {:induction false} InitAtMostOnce(status: int, multiOks: seq<bool>)
    requires status == 0 || status == 1
    ensures Creations(status, multiOks) <= 1
    ensures status == 1 ==> Creations(status, multiOks) == 0
    ensures InitAfterAll(status, multiOks) == (if status == 1 || true in multiOks then 1 else 0)
    decreases |multiOks|
  {
    if multiOks != [] {
      InitAtMostOnce(InitAfter(status, multiOks[0]), multiOks[1..]);
      assert multiOks == [multiOks[0]] + multiOks[1..];
    }
  }

  lemma {:induction false} DonesAppend(a: seq<CurlMsg>, b: seq<CurlMsg>)
    ensures Dones(a + b) == Dones(a) + Dones(b)
    decreases |a|
  {
    if a == [] {
      assert a + b == b;
    } else {
      assert (a + b)[0] == a[0] && (a + b)[1..] == a[1..] + b;
      DonesAppend(a[1..], b);
    }
  }

  lemma {:induction false} ApplyAllAppend(st: State, a: seq<CurlCode>, b: seq<CurlCode>)
    requires InRange(st.g)
    ensures ApplyAll(st, a + b) == ApplyAll(ApplyAll(st, a), b)
    decreases |a|
  {
    if a == [] {
      assert a + b == b;
    } else {
      assert (a + b)[0] == a[0] && (a + b)[1..] == a[1..] + b;
      ApplyAllAppend(Apply(st, a[0]), a[1..], b);
    }
  }

  /**
   * The drain loop handles Min(Budget(total), number of DONE messages) of them,
   * and when it stops early, it stopped right after a DONE message.
   */
  lemma {:induction false} DrainHandlesBudget(total: nat, q: seq<CurlMsg>)
    requires total < U32
    ensures |Dones(q[..Consumed(total, q)])| == Min(Budget(total), |Dones(q)|)
    ensures Consumed(total, q) < |q| ==>
      |Dones(q[..Consumed(total, q)])| == Budget(total) && q[Consumed(total, q) - 1].Done?
    decreases |q|
  {
    if q != [] {
      var c := Consumed(total, q);
      var head := if q[0].Done? then 1 else 0;
      DonesCons(q, c);
      assert |Dones(q[..c])| == head + |Dones(q[1..][..c - 1])|;
      assert |Dones(q)| == head + |Dones(q[1..])|;
      if !q[0].Done? {
        DrainHandlesBudget(total, q[1..]);
        assert c - 1 == Consumed(total, q[1..]);
      } else if Dec32(total) == 0 {
        assert c == 1 && total == 1;
      } else {
        DrainHandlesBudget(Dec32(total), q[1..]);
        assert c - 1 == Consumed(Dec32(total), q[1..]);
        assert Budget(total) == Budget(Dec32(total)) + 1;
      }
    }
  }

  lemma DonesCons(q: seq<CurlMsg>, c: nat)
    requires 0 < c <= |q|
    ensures Dones(q[..c]) == (if q[0].Done? then [q[0].result] else []) + Dones(q[1..][..c - 1])
  {
    assert q[..c] == [q[0]] + q[1..][..c - 1];
    assert q[..c][1..] == q[1..][..c - 1];
  }

  lemma DonesSnoc(q: seq<CurlMsg>, c: nat)
    requires c < |q|
    ensures Dones(q[..c + 1]) == Dones(q[..c]) + (if q[c].Done? then [q[c].result] else [])
  {
    assert q[..c + 1] == q[..c] + [q[c]];
    DonesAppend(q[..c], [q[c]]);
    assert Dones([q[c]]) == (if q[c].Done? then [q[c].result] else []) + Dones([]);
  }

  lemma ApplyAllSnoc(st: State, codes: seq<CurlCode>, x: CurlCode)
    requires InRange(st.g)
    ensures ApplyAll(st, codes + [x]) == Apply(ApplyAll(st, codes), x)
  {
    ApplyAllAppend(st, codes, [x]);
    assert [x][1..] == [];
  }

  /** One more message read: a DONE message is applied, any other is skipped. */
  lemma DrainStep(st: State, q: seq<CurlMsg>, c: nat)
    requires InRange(st.g) && c < |q|
    ensures ApplyAll(st, Dones(q[..c + 1])) ==
      if q[c].Done? then Apply(ApplyAll(st, Dones(q[..c])), q[c].result) else ApplyAll(st, Dones(q[..c]))
  {
    DonesSnoc(q, c);
    if q[c].Done? {
      ApplyAllSnoc(st, Dones(q[..c]), q[c].result);
    } else {
      assert Dones(q[..c + 1]) == Dones(q[..c]);
    }
  }

  /** Consumed, unfolded at position c of the queue. */
  lemma ConsumedStep(total: nat, q: seq<CurlMsg>, c: nat)
    requires total < U32 && c < |q|
    ensures Consumed(total, q[c..]) ==
      if !q[c].Done? then 1 + Consumed(total, q[c + 1..])
      else if Dec32(total) == 0 then 1
      else 1 + Consumed(Dec32(total), q[c + 1..])
  {
    assert q[c..][0] == q[c] && q[c..][1..] == q[c + 1..];
  }

  function OkCount(codes: seq<CurlCode>): nat
  {
    if codes == [] then 0 else (if codes[0].CurleOk? then 1 else 0) + OkCount(codes[1..])
  }

  /** The counters after a series of DONE messages: each one takes one off both (wrapping). */
  lemma {:induction false} ApplyAllCounters(st: State, codes: seq<CurlCode>)
    requires InRange(st.g)
    ensures ApplyAll(st, codes).g.active == Sub32(st.g.active, |codes|)
    ensures ApplyAll(st, codes).g.total == Sub32(st.g.total, |codes|)
    decreases |codes|
  {
    if codes != [] {
      var next := Apply(st, codes[0]);
      assert next.g.active == Dec32(st.g.active) && next.g.total == Dec32(st.g.total);
      ApplyAllCounters(next, codes[1..]);
    }
  }

  /** n wrapping decrements are subtraction modulo 2^32. */
  lemma {:induction false} Sub32IsMod(x: nat, n: nat)
    requires x < U32
    ensures Sub32(x, n) == (x - n) % U32
    decreases n
  {
    if n > 0 {
      Sub32IsMod(Dec32(x), n - 1);
      assert Dec32(x) == (x - 1) % U32;
      ModSub(x, n);
    }
  }

  /** Without wrapping, n decrements subtract n. */
  lemma {:induction false} Sub32Exact(x: nat, n: nat)
    requires n <= x < U32
    ensures Sub32(x, n) == x - n
    decreases n
  {
    if n > 0 {
      Sub32Exact(x - 1, n - 1);
    }
  }

  /** downloadcompletednum counts the successes. */
  lemma {:induction false} ApplyAllCompleted(st: State, codes: seq<CurlCode>)
    requires InRange(st.g)
    ensures ApplyAll(st, codes).g.completed == st.g.completed + OkCount(codes)
    decreases |codes|
  {
    if codes != [] {
      ApplyAllCompleted(Apply(st, codes[0]), codes[1..]);
    }
  }

  /** curl_faileddownload is set exactly when some message failed, and stays set. */
  lemma {:induction false} ApplyAllFailed(st: State, codes: seq<CurlCode>)
    requires InRange(st.g)
    ensures ApplyAll(st, codes).g.failed == (st.g.failed || exists k :: 0 <= k < |codes| && codes[k].CurleFailed?)
    decreases |codes|
  {
    if codes != [] {
      ApplyAllFailed(Apply(st, codes[0]), codes[1..]);
      if codes[0].CurleFailed? {
        assert exists k :: 0 <= k < |codes| && codes[k].CurleFailed?;
      } else if exists k :: 0 <= k < |codes| && codes[k].CurleFailed? {
        var k :| 0 <= k < |codes| && codes[k].CurleFailed?;
        assert codes[1..][k - 1].CurleFailed?;
      }
    }
  }

  lemma ModSub(x: nat, n: nat)
    requires x < U32 && n > 0
    ensures ((x - 1) % U32 - (n - 1)) % U32 == (x - n) % U32
  {
    var y := (x - 1) % U32;
    assert y == x - 1 || y == x - 1 + U32;
    if y == x - 1 + U32 {
      assert (y - (n - 1)) == (x - n) + U32;
    }
  }

  /** The transfer after at least one DONE message: closed, handle cleared, status from the last message, file kept only if none failed. */
  lemma {:induction false} ApplyAllJob(st: State, codes: seq<CurlCode>)
    requires InRange(st.g)
    requires codes != []
    ensures ApplyAll(st, codes).j.status == (if codes[|codes| - 1].CurleOk? then Found else Fallback)
    ensures !ApplyAll(st, codes).j.fileOpen
    ensures ApplyAll(st, codes).j.handle == None
    ensures ApplyAll(st, codes).j.fileExists ==
      (st.j.fileExists && forall k :: 0 <= k < |codes| ==> codes[k].CurleOk?)
    decreases |codes|
  {
    var next := Apply(st, codes[0]);
    if |codes| > 1 {
      ApplyAllJob(next, codes[1..]);
      if !forall k :: 0 <= k < |codes| ==> codes[k].CurleOk? {
        var k :| 0 <= k < |codes| && !codes[k].CurleOk?;
        if k > 0 {
          assert !codes[1..][k - 1].CurleOk?;
        }
      }
    } else {
      assert ApplyAll(next, codes[1..]) == next;
    }
  }

  /** First error wins: a non-empty error buffer is never overwritten. */
  lemma {:induction false} ErrorBufferKept(st: State, codes: seq<CurlCode>)
    requires InRange(st.g)
    requires st.j.errorBuffer != []
    ensures ApplyAll(st, codes).j.errorBuffer == st.j.errorBuffer
    decreases |codes|
  {
    if codes != [] {
      ErrorBufferKept(Apply(st, codes[0]), codes[1..]);
    }
  }

  /** Successful messages never write the error buffer. */
  lemma {:induction false} SuccessKeepsErrorBuffer(st: State, codes: seq<CurlCode>)
    requires InRange(st.g)
    requires forall k :: 0 <= k < |codes| ==> codes[k].CurleOk?
    ensures ApplyAll(st, codes).j.errorBuffer == st.j.errorBuffer
    decreases |codes|
  {
    if codes != [] {
      assert codes[0].CurleOk?;
      SuccessKeepsErrorBuffer(Apply(st, codes[0]), codes[1..]);
    }
  }

  /**
   * Starting from an empty buffer, the first failure's text is recorded,
   * without its last character (the size passed to strlcpy is the text's length).
   */
  lemma FirstErrorRecorded(st: State, codes: seq<CurlCode>, i: nat)
    requires InRange(st.g)
    requires st.j.errorBuffer == []
    requires i < |codes| && codes[i].CurleFailed? && |codes[i].text| >= 2
    requires forall k :: 0 <= k < i ==> codes[k].CurleOk?
    ensures ApplyAll(st, codes).j.errorBuffer == codes[i].text[..|codes[i].text| - 1]
  {
    ApplyAllSplit(st, codes, i);
    var mid := ApplyAll(st, codes[..i]);
    SuccessKeepsErrorBuffer(st, codes[..i]);
    var after := Apply(mid, codes[i]);
    ErrorBufferKept(after, codes[i + 1..]);
  }

  /** The messages before position i, then the one at i, then the rest. */
  lemma ApplyAllSplit(st: State, codes: seq<CurlCode>, i: nat)
    requires InRange(st.g) && i < |codes|
    ensures ApplyAll(st, codes) == ApplyAll(Apply(ApplyAll(st, codes[..i]), codes[i]), codes[i + 1..])
  {
    var tail := [codes[i]] + codes[i + 1..];
    assert codes == codes[..i] + tail;
    ApplyAllAppend(st, codes[..i], tail);
    assert tail[0] == codes[i] && tail[1..] == codes[i + 1..];
  }

  /** With a total between 1 and the number of DONE messages queued, draining brings the total to exactly 0. */
  lemma DrainReachesZero(st: State, q: seq<CurlMsg>)
    requires InRange(st.g)
    requires 0 < st.g.total <= |Dones(q)|
    ensures Drain(st, q).g.total == 0
    ensures Drain(st, q).g.active == Sub32(st.g.active, st.g.total)
  {
    DrainCount(st.g.total, q);
    DrainCounters(st, q, st.g.total);
    Sub32Exact(st.g.total, st.g.total);
  }

  /** With a total between 1 and the number of DONE messages queued, exactly `total` of them are handled. */
  lemma DrainCount(total: nat, q: seq<CurlMsg>)
    requires 0 < total <= |Dones(q)| && total < U32
    ensures |Dones(q[..Consumed(total, q)])| == total
  {
    DrainHandlesBudget(total, q);
  }

  /** Draining takes one off both counters (wrapping) for each DONE message handled. */
  lemma DrainCounters(st: State, q: seq<CurlMsg>, n: nat)
    requires InRange(st.g)
    requires n == |Dones(q[..Consumed(st.g.total, q)])|
    ensures Drain(st, q).g.total == Sub32(st.g.total, n)
    ensures Drain(st, q).g.active == Sub32(st.g.active, n)
  {
    ApplyAllCounters(st, Dones(q[..Consumed(st.g.total, q)]));
  }
}
