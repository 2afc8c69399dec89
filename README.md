# Verified model of the SRB2Kart HTTP file downloader

This project models `src/http_dl.c`, the libcurl-based downloader that the game
client uses to fetch missing game files from a server before joining. It covers three parts:

- **The session bookkeeping.** `CURL_AddTransfer` initialises libcurl and queues a transfer. `CURL_CheckDownloads` drains
  the multi handle's DONE messages, classifying each as a success (`FS_FOUND`, file kept) or a
  failure (`FS_FALLBACK`, first error kept, file closed and removed). `cleanup_transfer` decrements the two
  UINT32 counters, wrapping at 0. `CURL_Cleanup` releases the handles and resets `curl_initstatus`.
- **The credential lookup `CURLGetLogin`.** It is a first-match, exact-equality search of the
  insertion-ordered login list that can also return the link leading to the match.
- **`ChangeFileExtension`.** It overwrites a file name's buffer in place from its first `.` on.

Modules:

| file | module | contents |
|---|---|---|
| options.dfy | `Options` | `Option`, standing for a pointer that may be NULL |
| cstrings.dfy | `CStrings` | NUL-terminated buffers, `strstr`/`strlen`, the size rule of `strlcpy`/`snprintf`, an in-place `Strlcpy` |
| extension.dfy | `FileExtension` | `ChangeFileExtension` on a `char` array, its specification and the finding below |
| logins.dfy | `Logins` | `HTTP_login` list, `CURLGetLogin` as a loop, its reference definition `FirstMatch` |
| transfer_state.dfy | `TransferState` | session globals and transfer fields as values; one DONE message as `Apply`; the drain loop as `Consumed`/`Drain`; lemmas |
| session.dfy | `HttpDownload` | classes `FileNeeded`, `Transfer` (`curlinfo_t` plus its error buffer) and `Session` (the globals), whose methods are the C functions |

The results of libcurl and of the filesystem are parameters of the methods:

- whether `curl_multi_init` succeeds;
- the handle `curl_easy_init` returns;
- whether `fopen` succeeds;
- the path `strcatbf` builds;
- the clock value;
- the queue of messages `curl_multi_info_read` would return.

Easy handles are numbered. `Session.liveHandles` is the set of handles libcurl
holds allocated. A file on disk is two flags of `FileNeeded`: open and exists.

Behaviour worth knowing, as written in the code and modelled so:

- Every DONE message is applied to the one transfer passed to `CURL_CheckDownloads`.
  The easy handle the message names is never looked at.
- The error text recorded on failure loses its last character. The size given to
  `strlcpy` is the text's length, so a one-character text records nothing and
  leaves the buffer open for a later error.
- A DONE message when `curl_total_transfers` is 0 wraps it to 2^32 - 1, and
  `curl_active_transfers` too if it is also 0.
  The loop then goes on until 2^32 DONE messages have been handled or the queue is empty.
- `CURL_Cleanup` releases the handles of the first `curl_total_transfers` array
  entries but leaves the pointers in place. It does not reset any counter.

Behaviour a reader might expect that the code does not have:

- Credentials are matched by exact string equality (`strcmp`), not by URL prefix.
  They are looked up with the server's base URL.
- Teardown resets only `curl_initstatus`; the counters keep their values.
- There is no concurrency ceiling, stall timeout logic or retry in this file.
  The low-speed options are handed to libcurl. Progress accounting is done by
  `progress_cb`, which is left out (see below).

## Model

| member | source | states |
|---|---|---|
| `CStrings.FirstIndex` | src/http_dl.c:32 | the position found is the first occurrence of the character: it holds it and nothing before it does |
| `CStrings.FirstIndexUnique` | src/http_dl.c:32 | a position holding the character with none before it is the first occurrence |
| `CStrings.StrLen` | src/http_dl.c:33 | strlen is the position of the first NUL of the buffer |
| `CStrings.CStr` | src/http_dl.c:32-33 | a buffer's string is NUL-free, a prefix of the buffer and followed by a NUL |
| `CStrings.StrlcpyContent` | src/http_dl.c:142-143 | with size 0 the destination is untouched; otherwise it receives the longest prefix of the source shorter than the size |
| `CStrings.StrlcpyFits` | src/http_dl.c:142 | a source shorter than the size is copied whole |
| `CStrings.Strlcpy` | src/http_dl.c:33 | in place: Min(length, size - 1) characters written from the offset, then a NUL, every other character unchanged |
| `FileExtension.ChangeFileExtension` | src/http_dl.c:29-34 | the name in the buffer becomes `ReplaceExtension` of the old name; characters after the new NUL are unchanged |
| `FileExtension.ReplaceExtension` | src/http_dl.c:29-34 | the name left in the buffer is strictly shorter than the old one |
| `FileExtension.ReplaceExtensionIs` | src/http_dl.c:32-33 | the new name written out: the stem before the first `.`, then the new extension cut to one less than the old suffix's length |
| `FileExtension.ReplaceExtensionKeepsStem` | src/http_dl.c:32-33 | the text before the first `.` is kept |
| `FileExtension.ReplaceExtensionSuffix` | src/http_dl.c:33 | from the first `.` on, the name is the new extension cut to one less than the old suffix's length |
| `FileExtension.SameLengthExtensionIsCut` | src/http_dl.c:33 | an extension as long as the old suffix loses its last character |
| `FileExtension.WadToPk3IsCut` | src/http_dl.c:33 | "map.wad" with ".pk3" becomes "map.pk" |
| `FileExtension.IntendedExtension` | src/http_dl.c:33 | with size strlen + 1 the name never grows |
| `FileExtension.IntendedExtensionFits` | src/http_dl.c:33 | with size strlen + 1 an extension no longer than the old suffix is written whole |
| `Logins.FirstMatch` | src/http_dl.c:244-258 | the result is the first node whose url equals the query, or none when no node's url does |
| `Logins.AuthFor` | src/http_dl.c:148-153 | credentials are attached exactly when some node matches the base URL, and they are the first match's |
| `Logins.NoPrefixMatch` | src/http_dl.c:249 | an entry whose url is a proper prefix of the URL looked up (a server's entry, a longer path on it) is never the one returned |
| `Logins.GetLogin` | src/http_dl.c:238-259 | returns the first exact match (or none); when asked, also returns the link pointing at it: the head for node 0, the previous node's `next` otherwise |
| `TransferState.Dec32` | src/http_dl.c:189-190 | the UINT32 decrement is the inverse of a wrapping increment and stays below 2^32 |
| `TransferState.Sub32IsMod` | src/http_dl.c:189-190 | n wrapping UINT32 decrements are subtraction modulo 2^32 |
| `TransferState.Sub32Exact` | src/http_dl.c:189-190 | n decrements of a counter of at least n subtract n |
| `TransferState.Finish` | src/http_dl.c:209-229 | one DONE message: status Found on success and Fallback on failure, file closed, file kept only on success, failed flag set on failure, completed count up by one on success, a non-empty error buffer kept, an empty one given the error text minus its last character, nothing else changed |
| `TransferState.Release` | src/http_dl.c:187-194 | both counters are one wrapping decrement below the old ones, the handle is NULL and no longer live, nothing else changed |
| `TransferState.Apply` | src/http_dl.c:204-234 | one DONE message then cleanup: both counters one wrapping decrement lower, the handle released and NULL, status Found or Fallback, file closed, init status and lastfilenum untouched |
| `TransferState.ApplyAll` | src/http_dl.c:204-234 | a run of DONE messages keeps the counters below 2^32, init status and lastfilenum; no handle becomes live; after at least one, the handle is NULL and the file closed |
| `TransferState.Consumed` | src/http_dl.c:204-235 | the loop reads no more messages than are queued, and at least one when the queue is not empty |
| `TransferState.Drain` | src/http_dl.c:204-235 | draining keeps the counters below 2^32, init status and lastfilenum, and makes no handle live |
| `TransferState.InitAfter` | src/http_dl.c:119-130 | the status is 1 afterwards exactly when it was 1, or was 0 and curl_multi_init succeeded; it changes only in that last case |
| `TransferState.InitAtMostOnce` | src/http_dl.c:119-130 | over any series of adds the multi handle is created at most once, never when already initialised, and the status ends at 1 exactly when one init succeeded or it was 1 already |
| `TransferState.DonesAppend` | src/http_dl.c:204-206 | the DONE messages of two queues in a row are those of the first followed by those of the second |
| `TransferState.ApplyAllAppend` | src/http_dl.c:204-235 | applying two runs of DONE messages is applying the first and then the second |
| `TransferState.DrainHandlesBudget` | src/http_dl.c:204-235 | the loop handles Min(total, number of DONE messages) of them, counting 2^32 for a total of 0; when it stops early it stops right after a DONE message |
| `TransferState.DrainStep` | src/http_dl.c:204-234 | reading one more message applies it when it is a DONE message and skips it otherwise |
| `TransferState.ApplyAllCounters` | src/http_dl.c:187-194 | after n DONE messages both counters have gone through n wrapping UINT32 decrements |
| `TransferState.ApplyAllCompleted` | src/http_dl.c:223-229 | downloadcompletednum grows by exactly the number of successful messages |
| `TransferState.ApplyAllFailed` | src/http_dl.c:209-221 | curl_faileddownload is set after exactly when it was set before or some message failed |
| `TransferState.ApplyAllJob` | src/http_dl.c:209-231 | after at least one message the file is closed, the handle NULL, the status Found or Fallback after the last message, and the file still exists only if it did and no message failed |
| `TransferState.ErrorBufferKept` | src/http_dl.c:211-215 | a non-empty error buffer is never overwritten |
| `TransferState.SuccessKeepsErrorBuffer` | src/http_dl.c:223-229 | successful messages never write the error buffer |
| `TransferState.FirstErrorRecorded` | src/http_dl.c:211-215 | from an empty buffer, a first failure text of two or more characters, minus its last character, is what the buffer holds at the end |
| `TransferState.DrainCount` | src/http_dl.c:231-233 | with 1 to (number of queued DONE messages) transfers outstanding, exactly that many DONE messages are handled |
| `TransferState.DrainCounters` | src/http_dl.c:204-235 | draining takes one wrapping decrement off both counters per DONE message handled |
| `TransferState.DrainReachesZero` | src/http_dl.c:231-233 | with 1 to (number of queued DONE messages) transfers outstanding, draining leaves the total at exactly 0 and the active count reduced by the old total, wrapping |
| `HttpDownload.Session.constructor` | src/http_dl.c:21-27 | the globals start at 0, false and no handles |
| `HttpDownload.Session.AddTransfer` | src/http_dl.c:111-169 | global init runs only while the status is 0; the status follows `InitAfter`; success exactly when initialised and a handle was obtained. On success: URL is base + "/" + name, bounded; credentials from the base URL; file opened; status Downloading; start time and lastfilenum set. On failure: the failed flag is set and the file's record untouched. The counters never change |
| `HttpDownload.Session.SetupTransfer` | src/http_dl.c:138-163 | the transfer set-up once an easy handle was obtained, field by field |
| `HttpDownload.Session.CleanupTransfer` | src/http_dl.c:187-194 | both counters go down by one (UINT32), the handle is released and set to NULL, nothing else changes |
| `HttpDownload.Session.FinishTransfer` | src/http_dl.c:208-229 | one DONE message is classified as `Finish` describes: failure keeps the first error, sets Fallback, closes and removes the file and sets the failed flag; success counts, sets Found and closes the file |
| `HttpDownload.Session.CheckDownloads` | src/http_dl.c:196-236 | with a multi handle, reads exactly `Consumed` messages and leaves the session and transfer as `Drain` of the queue; without one, reads nothing and changes nothing; URL, names, start time and credentials untouched |
| `HttpDownload.Session.Cleanup` | src/http_dl.c:90-109 | when initialised, releases the handle of every one of the first total entries that has one and resets the status to 0; otherwise changes nothing; counters and flags untouched |
| `HttpDownload.HandlesOfHas` | src/http_dl.c:96-103 | every handle held by an entry of the prefix is among the prefix's handles |
| `HttpDownload.CleanupTwice` | src/http_dl.c:90-109 | two teardowns in a row end where one does: status 0, the handles of the first total entries released, counters, flags, lastfilenum and logins as before; with the session not initialised nothing changes |

## Left out

- `set_common_opts` (options handed to libcurl), `CURL_DownloadFiles` (the transport pump and its bounded wait), `write_data_cb` (a plain `fwrite`): foreign calls with no logic of their own.
- `progress_cb`: it writes `currentsize` and `totalsize` of the file record and the global `getbytes` from floating-point values and the clock; it can divide by zero when the current time equals the start time.
- The `PARANOIA` / `-nodownload` check, `I_mkdir`, console output, and `strcatbf`: they depend on code that is not part of this model. `strcatbf`'s result is the `destPath` parameter.
- `curl_global_cleanup`, `curl_multi_cleanup`, `curl_multi_add_handle` and `curl_multi_remove_handle` are not modelled one by one. A handle is either live (in `liveHandles`) or released.
- libcurl writes its own message into the error buffer (`CURLOPT_ERRORBUFFER`). The model treats the buffer as written only by `CURL_CheckDownloads`, and as a string without the fixed `CURL_ERROR_SIZE` capacity.
- `HttpDownload.Session.CheckDownloads`: after `CURL_Cleanup` the static `multi_handle` still points at the freed handle. The model treats the multi handle as absent whenever `curl_initstatus` is 0.
- `HttpDownload.Session.CheckDownloads`: calling `fclose` on a file that `fopen` failed to open is not distinguished from closing an open file.
- `HttpDownload.Session.CheckDownloads`: every DONE message is applied to the one transfer passed in. A second DONE message for it calls `fclose` again on the `FILE*` the first one already closed (src/http_dl.c:218, 228), and on failure `remove` again. A second `fclose` of the same stream is undefined behaviour in C. The model treats both as no-ops (`fileOpen` and `fileExists` stay false), so `TransferState.ApplyAllJob`, `TransferState.DrainReachesZero` and `CheckDownloads`'s tie to `Drain` describe runs of two or more messages only under that assumption.
- `HttpDownload.Session.Cleanup`: requires `totalTransfers <= curlc.Length` when the session is initialised. The loop at src/http_dl.c:96 has no such bound: once `curl_total_transfers` has wrapped to 2^32 - 1 it reads past the end of `curlc`, which the model does not capture.
- `HttpDownload.Session.Cleanup`: the model does not check that the array entries' handles are still live. A second teardown after re-initialising, over stale entries, would free a handle twice in the source.
- `downloadcompletednum`, `lastfilenum`, `MAX_WADPATH`, `HTTP_MAX_URL_LENGTH` and the `fileneeded_t` statuses are declared outside this file. The counter is unbounded here, the buffer sizes are constants of each `Transfer`, and the other statuses are `OtherStatus`.
- The login list is a sequence. A node is its position, and a pointer to a link is the `Link` datatype.
- src/http-serv.c, src/http-serv.h, src/upnp.h, src/linux/systemd-notify.c, src/linux/systemd-notify.h, src/i_joy.h: independent integrations, declarations or concurrency, with no state shared with the downloader.

## Findings

| source | as written | input that shows it | evidently intended | confidence | as-written member | corrected member |
|---|---|---|---|---|---|---|
| src/http_dl.c:33 | the size passed to `strlcpy` is the length of the old suffix, so one character fewer than the suffix fits | name "map.wad", new extension ".pk3": the result is "map.pk" | size one larger (room for the NUL), so an extension no longer than the old one is written whole | medium, not executed; the function has no caller in this file | `FileExtension.SameLengthExtensionIsCut` | `FileExtension.IntendedExtensionFits` |
