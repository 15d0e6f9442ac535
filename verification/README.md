# Verified model of the ESP32 over-the-air update client

This project models the update pipeline of esp32-ota-https and proves what it keeps: the TLS request loop
(`main/wifi_tls.c`), the incremental HTTP/1.1 response processor and the key/value parsers
(`main/https_client.c`), the in-application programmer (`main/iap.c`), and the coordinator that joins them
(`main/iap_https.c`), with its task, its event bits and its timer. The layers are proved one by one and then
composed: `Download.ActivationSafety` and `Download.DownloadInstallsBody` are about a whole download,
`UpdateCheck.CheckReadsMetadata` about a whole check for updates, `Response.ServedImageIsInstalled` and
`Response.ServedMetadataIsApplied` go from what a server writes to what the device has installed or decided, and
`TaskRound.CodeRefinesProtocol` ties every interleaving of the code to the concurrent protocol of module `Polling`.

## How to read it

Every C function appears once as a function on values, which is what the lemmas talk about, and, where the source
updates state, once more in its own imperative form: the classes `InAppProgrammer`, `HttpRequest`, `TlsContext`,
`Coordinator` and `UpdaterTask`. Each of their methods ensures that its new state and result are those of the value
function.

| module | content |
|---|---|
| `Platform` | heap, flash driver calls, boot partition: the oracles |
| `Iap`, `IapModule`, `IapProofs`, `IapImage` | the programmer on values; as a class; its invariants over all call sequences; its refinement of appending an image |
| `CStrings`, `Request`, `Metadata`, `MetadataTail`, `MetadataMemory` | C strings and parsers; the request text; the metadata file; a last line without a line end; a buffer without a NUL |
| `Http`, `HttpModule`, `HttpPlan`, `HttpStream`, `HttpOverrun`, `HttpWait`, `HttpTrace`, `HttpCount` | the response processor on values; as a class over one buffer; what it does for any client; stream mode; header blocks that do not fit; wait mode; the order of callbacks; the counters |
| `Tls`, `TlsModule`, `TlsProofs`, `Exchange` | the request loop and the connection; which server is believed and what it is told |
| `Updater`, `UpdaterProofs`, `CoordinatorModule` | the coordinator's callbacks |
| `Download`, `UpdateCheck`, `Connections` | whole downloads and whole checks over one connection; what becomes of the connection |
| `StaleImage`, `FailingRuns` | a wrongly copied byte up to the flash and to the metadata callback; constructed runs that go wrong |
| `Response`, `Refusal` | the responses a server writes, and what the device makes of them; what it refuses |
| `Polling`, `TaskRound`, `TaskModule` | the protocol of the task, the timer and manual checks; the code that refines it; the task as a class |

Conventions:

- Bytes are `char`; a character of the model may be any value, which includes all bytes. Numbers have the width of the
  source where it matters: `WORD` is 2^32, for `size_t` and `uint32_t`; `ToInt32` converts to `int`; `iap_write`
  receives its length modulo 2^16.
- The heap, the flash driver and the partition table are decided by `Env`: one arbitrary answer for each call, by the
  number of calls made so far. A call that fails changes nothing. The flash is its history of successful
  operations, `Device.ops`, and `Contents` is what a partition holds after it.
- The results of mbedTLS are finite lists, `Network`. `Blocked` is the result when a list ends: the next call has not
  come back. I/O on a context that has been reset fails.
- Undefined behaviour of C (using NULL or a dangling pointer, freeing twice, reading on past the end of a buffer in a
  search, a conversion or a copy) is a fault: `Device.fault`, `Updater.State.fault`, the verdict `Fault`, the status `Crashed` or the
  plan `Broken`.
- `Config.source` says which buffer leftover body bytes are copied from. `LatestChunk` is the code as written, used in
  everything about the updater; `Accumulated` is a corrected variant.

## Where the code differs from what it says or is expected to do

- Leftover body bytes are copied from the latest TLS chunk, at an offset computed in the accumulated buffer
  (`main/https_client.c:239`). That is right exactly if the header block ends in the first chunk, or no body byte shares
  a chunk with its end: `HttpStream.LatestChunkCopiesRightIff`, `HttpWait.WaitCopiesRightIff`, and up to the
  flash `StaleImage.BodyInstalledIff`, with a wrong image in `FailingRuns.WrongImageIsBooted`. With `Accumulated` it is
  always right.
- The overflow check admits a full buffer, in which the search for the end of the headers then has no NUL to stop at
  (`main/https_client.c:162`, `181`). `HttpOverrun.BrokenIff` says exactly when that happens, and
  `Connections.CheckCrashesIff` and `Connections.DownloadCrashesIff` what it does to the task;
  `FailingRuns.FullBufferCrashes` are two runs in which it does.
- In wait mode the body can also cover every NUL. The metadata callback then reads past the buffer exactly if one of its
  keys is missing or the value of one goes on to the end: `HttpWait.TextBehindBody`, `MetadataMemory.ApplyMemoryIs`,
  `UpdateCheck.FullBodyFaultsIff`, and `FailingRuns.MetadataReadPastEnd` for a body that does.
- Otherwise old header text can follow the body (`main/https_client.c:241`). It does no harm to lines that are ended
  (`UpdateCheck.CheckReadsMetadata`), but digits of it change the version in a last line that is not:
  `UpdateCheck.StaleDigitsAskIff`, and `Response.StaleDigitsChangeVersion` for a file that does.
- `iap_commit` drops the result of the final page write (`main/iap.c:203-208`). The activated image is the data exactly
  if that write succeeded: `IapImage.CommitActivates`; in `FailingRuns.EmptyImageIsBooted` the device boots nothing.
- A commit that fails leaves the session open without a buffer (`main/iap.c:266-287`).
  `IapProofs.HeapSafety`: a write then, and nothing else, goes through NULL; no download ever gets there
  (`Connections.ActionsAreSafe`).
- `has_new_firmware` is set even if the commit failed (`main/iap_https.c:388`). The device boots the new image exactly if
  the commit returned OK: `Download.NewFirmwareIff`, with a failing run in `FailingRuns.FlagWithoutImage`.
- The image is requested even if connecting failed (`main/iap_https.c:277-286`). Nothing comes of it:
  `Download.DownloadExecutesPlan`.
- The comment at `main/iap_https.c:208-211` explains how a race is avoided. If the timer expires, and its callback runs,
  between re-arming it and clearing the bit, polling stops for good: `Polling.PollingCanBeLost`,
  `Polling.LostForGood`; exactly then: `Polling.PollingKeptIff`. A manual request can be absorbed in the same place:
  `Polling.RequestCanBeAbsorbed`; exactly when: `Polling.RequestAbsorbedIff`.
- `http_parse_key_value_string` does not find the host in a request whose path contains "Host: ", or ends in "Host:",
  which the space behind the path completes: `Request.HostMisread`, `Request.HostRecoveredIff`.
- If the buffers of a request cannot be allocated, or its path is empty, the connection stays open, and the next connect
  forgets its socket: `Connections.LeftOpenIff`, `Connections.SocketsLeak`. A missing context object is written
  to before it is checked (`main/https_client.c:378`): status `Crashed`, see `Connections.CheckCrashesIff`.

## Model

| member | source | states |
|---|---|---|
| IapProofs.StepKeeps | main/iap.c:99-295 | every call, from every state and with any failures, keeps the invariant (no session: nothing buffered; at most one page buffered; the heap holds exactly the open session's buffer), faults only by writing after a failed commit, never erases or programs the partition the device boots from, and moves the boot partition only in a commit that returns OK |
| IapProofs.StepAnswers | main/iap.c:84-295 | the result code of every call in every state, and for iap_begin which of its three platform calls decides it; a refusal changes nothing, a write or a commit returns OK only in an open session, and a session ends or stays open, with its fields cleared, as the code says |
| IapProofs.FillKeeps | main/iap.c:166-194 | the copy loop, also when entered with a full buffer left by a failed write, keeps the invariant, touches only the buffer, the address and the flash, and faults exactly if it has bytes to copy and the buffer is gone |
| IapProofs.HollowAfterFailedCommit | main/iap.c:266-294 | the session is open without a buffer exactly if a commit has failed and no commit or abort has succeeded since |
| IapProofs.HeapSafety | main/iap.c:99-295 | over all call sequences: a double free or a use of a dangling or NULL buffer happens if and only if bytes are written after a failed commit; the heap holds one page buffer exactly while a session is open and no commit has failed in it, so nothing leaks |
| IapProofs.BootAlternates | main/iap.c:277-319 | after k successful commits the boot partition is the k-th of the alternation (from factory: ota_0 if k is odd, ota_1 if k is even), and an open session always programs the next one, never the one the device boots from |
| IapProofs.BootImageUntouched | main/iap.c:123-144 | between two successful commits the partition the device boots from keeps its contents, after any calls and failures |
| IapImage.PagesUnique | main/iap.c:168-193 | the cut of an image into 4096-byte pages and a shorter rest is unique |
| IapImage.ImageIsData | main/iap.c:229-250 | the blocks of an image spell it out and number ceil(n/4096) |
| IapImage.FillAccepts | main/iap.c:166-194 | no byte is lost or reordered, even by a write that fails: flash log and page buffer together hold what was accepted, in full pages, and the write address is the partition address plus the length of the log |
| IapImage.WriteProgram | main/iap.c:148-197 | a successful write of any length leads from canonical form (full pages in flash, the rest in the buffer) to canonical form of the concatenation |
| IapImage.WritesProgram | main/iap.c:148-197 | the same for any sequence of successful writes: only the concatenation matters |
| IapImage.CommitActivates | main/iap.c:199-215 | a commit that returns OK has activated the target as the last flash operation; the image is the data if and only if the dropped flush result was OK |
| IapImage.UpdateRefinesAppend | main/iap.c:99-295 | a successful begin, writes and commit leave exactly one session with the blocks of the concatenated image in the flash history if and only if the final flush succeeded, and boot from another partition than before |
| IapModule.InAppProgrammer.Begin | main/iap.c:99-146 | the class method makes the transition `Iap.Begin`, in each of its error cases |
| IapModule.InAppProgrammer.Write | main/iap.c:148-197 | the copy loop over the page array makes the transition `Iap.Write`, and terminates from every state |
| IapModule.InAppProgrammer.CopyRound | main/iap.c:168-193 | one round copies min(space, length) bytes and flushes a full buffer; it makes progress in the bytes or empties a full buffer |
| IapModule.InAppProgrammer.WritePage | main/iap.c:229-250 | the transition `Iap.WritePageBuffer` on the page array |
| IapModule.InAppProgrammer.Commit | main/iap.c:199-215 | the transition `Iap.Commit`, the result of the final page write dropped |
| IapModule.InAppProgrammer.Abort | main/iap.c:217-227 | the transition `Iap.Abort` |
| IapModule.InAppProgrammer.Finish | main/iap.c:252-295 | the transition `Iap.Finish`, with its states after a failed esp_ota_end or esp_ota_set_boot_partition |
| CStrings.ScanPrinted | main/https_client.c:295-305 | every number, with its sign, is read back as it is printed, behind any white space and in front of anything that is not a digit |
| CStrings.NothingScanned | main/https_client.c:295-305 | where no number begins, nothing is converted, and atoi gives 0 |
| CStrings.RunsOutIff | main/https_client.c:303-303 | a conversion reads to the end of the memory if and only if there is nothing there but white space, a sign and digits |
| CStrings.ParseKeyValueString | main/https_client.c:307-327 | the copy loop stores the rest of the line after the first occurrence of the key, cut to strLen - 1 characters, and a NUL, and leaves the rest of the output alone; without the key it changes nothing and returns -1; and exactly when `ReadString` says so does it read past the end of the memory |
| CStrings.CopyLine | main/https_client.c:317-324 | the pointer-advancing loop copies up to the end of the line or of the room and terminates the string, and reads past the end of the memory if and only if the line goes on to it and there is still room |
| Request.RequestIsWellFormed | main/https_client.c:393-408 | for all hosts and paths the printed request and its NUL fit the allocated buffer, and the bytes submitted are exactly the request line and the Host header (RFC 7230, sections 3.1.1 and 5.4) followed by four surplus bytes |
| Request.HostRecovered | main/https_client.c:307-327 | the string parser with key "Host: " recovers every host, into any output with room for it and its NUL, if the key does not occur in the path together with the space behind it |
| Request.HostMisread | main/https_client.c:307-327 | if it does occur there, the rest of the path and the protocol are taken for the host |
| Request.HostRecoveredIff | main/https_client.c:307-327 | so a host without a slash, with more room than it needs, is recovered if and only if the key does not occur there |
| TlsProofs.WireIsRequest | main/wifi_tls.c:247-275 | for all partial writes and retries, the bytes on the wire and those still to be sent are the request, and reading starts only when all of it is on the wire |
| TlsProofs.WriteOutcome | main/wifi_tls.c:252-275 | for every sequence of results: the write loop goes on as long as they are retries or progress, succeeds as soon as they add up to the whole request, and fails exactly if an error or a write of nothing comes first; the wire holds what has been reported as sent |
| TlsProofs.ArrivingIs | main/wifi_tls.c:280-317 | what arrives is the data of all reads before the stream ends or fails, whatever retries are among them; reading ends with success at the end of the stream and with an error at a failure |
| Tls.ReadLoopDelivers | main/wifi_tls.c:280-317 | the read loop, with its retries and errors, hands the arriving chunks one after the other to the callback until it does not continue |
| TlsProofs.DeliveryIsInOrder | main/wifi_tls.c:280-301 | the callback gets a prefix of the chunks, with the indices 0, 1, 2, …, without stale bytes, all of them as long as it continues and none after it stops |
| TlsProofs.ConnectionIsClosed | main/wifi_tls.c:167-320 | from every link: after connect has come back the context is valid if and only if it returned success; a request that comes back leaves the context reset and the socket closed; after a failed connect nothing is sent and the callback is never reached; it is reached only after exactly the request has gone out |
| TlsProofs.ConnectSucceedsIff | main/wifi_tls.c:167-235 | connecting succeeds if and only if the context can be initialised, the server is reached, the handshake completes after retries only, the certificate chain is verified and the peer's certificate is the pinned one; and hangs only in the handshake |
| Exchange.DownloadAsksServer | main/iap_https.c:275-290 | a download that changes more than its session flag, or returns success, has reached the genuine server and has told it exactly the request for the firmware file at the configured host; otherwise at most a prefix of that is sent, and nothing after a failed connect |
| Exchange.CheckAsksServer | main/iap_https.c:258-273 | the same for a check and its metadata file |
| Exchange.RequestedIff | main/wifi_tls.c:247-275 | when a request goes out, in terms of the certificates, the path, the memory and the results of the writes |
| Connections.LeftOpenIff | main/https_client.c:90-105 | a check or a download that comes back leaves its connection open if and only if connecting succeeded and the path is empty or no request buffer could be allocated |
| Connections.SocketsLeak | main/wifi_tls.c:177-189 | over any sequence of checks and downloads, the sockets that leak are exactly those of the connections left open |
| Connections.ActionsAreSafe | main/iap_https.c:258-402 | over any sequence of checks and downloads nothing is used wrongly, and as long as none activates an image the partition the device boots from keeps its contents |
| Connections.CheckCrashesIff | main/https_client.c:371-378 | a check runs into undefined behaviour, before its body callback, if and only if there is a path and either no memory for the context object or the search for the end of the headers overruns |
| Connections.DownloadCrashesIff | main/https_client.c:371-378 | the same for a download, which goes on to its request after a failed connect |
| TlsModule.TlsContext.Connect | main/wifi_tls.c:167-235 | the method makes the transition `Tls.Connect` |
| TlsModule.TlsContext.WriteRequest | main/wifi_tls.c:247-275 | the write loop ends with the wire, the rest and the result of `Tls.WriteLoop` |
| TlsModule.TlsContext.ReadResponse | main/wifi_tls.c:277-317 | the read loop, driving the request object, ends in the states and the result of `Tls.ReadLoop` |
| TlsModule.TlsContext.SendRequest | main/wifi_tls.c:245-320 | both loops and the disconnect on every exit |
| HttpModule.HttpRequest.TlsCallback | main/https_client.c:145-293 | the callback on its one buffer, rewritten in place, makes the transition `Http.TlsCallback` and leaves the TLS buffer alone |
| HttpModule.HttpRequest.ProcessHeaders | main/https_client.c:178-245 | the header part, up to the move of the leftover, equals `Http.Headers` |
| HttpModule.HttpRequest.MoveLeftover | main/https_client.c:234-241 | the memcpy of the leftover from the TLS buffer and the NUL behind it |
| HttpModule.HttpRequest.ProcessBody | main/https_client.c:251-292 | the body part, wait and stream mode, equals `Http.Body` |
| Http.TerminatorInData | main/https_client.c:181-193 | the header terminator lies within the received bytes, so that the subtraction of the header length does not wrap |
| HttpPlan.ProcessorExecutesPlan | main/https_client.c:145-293 | for any client and any chunks, the callback carries out a plan that depends on the chunks only, as far as the client lets it |
| HttpCount.StreamingInvariant | main/https_client.c:161-171 | between two chunks of a streaming request, for any client: either headers are still collected, or the buffer is empty, the byte count is the sum of the fragments delivered, and the next chunk cannot overflow it |
| HttpStream.CutDropsPrefix | main/https_client.c:234-245 | the streamed fragments together are the stream without its header block |
| HttpStream.StreamingIsChunkingIndependent | main/https_client.c:161-245 | the end of the headers found incrementally is the first terminator of the stream, and decision, Content-Length and concatenated fragments do not depend on the chunking, if the leftover is copied from the right place (always with the corrected source) |
| HttpStream.LatestChunkCopiesRightIff | main/https_client.c:237-240 | as written, this holds in stream mode for all old buffer contents if and only if the header block ends in the first chunk or no body byte shares a chunk with its end |
| HttpStream.LastByteIsStale | main/https_client.c:239-239 | otherwise the last leftover byte is one that this request has never written |
| HttpOverrun.BrokenIff | main/https_client.c:161-185 | for every stream and every chunking: something runs past a buffer if and only if some chunk ends exactly where the buffer is full and the bytes in it hold neither a NUL nor a whole terminator |
| HttpOverrun.SearchOverrunsIff | main/https_client.c:161-185 | a header block that does not end within the buffer, though it may end later: overrun, rejection as too long, or waiting, each with its exact condition |
| HttpOverrun.HeaderOutcome | main/https_client.c:161-245 | every response whose header block ends somewhere: judged as a whole if the chunk with its end fits the buffer, else an overrun if some chunk fills the buffer exactly, else rejected |
| HttpWait.CollectedBody | main/https_client.c:253-266 | the wait-mode callback gets exactly the body bytes that had arrived when Content-Length was reached; if that is more than the buffer holds the request is rejected, and if it is never reached it waits |
| HttpWait.LookupConfinedIff | main/https_client.c:239-265 | the buffer holds a NUL and, read as a C string, shows exactly the body if and only if the body does not fill it and no body byte came after the header chunk, or the body ends where the header text ended, or covers it |
| HttpWait.TextBehindBody | main/https_client.c:239-265 | exactly when a NUL is left in the buffer, and the header text that is then read behind the body |
| HttpWait.WaitingForBody | main/https_client.c:161-266 | the exact outcome of a wait-mode request for all chunkings, with the whole buffer the callback sees, if the leftover is copied from the right place |
| HttpWait.WaitingCopied | main/https_client.c:161-266 | and for whatever has been copied |
| HttpWait.WaitCopiesRightIff | main/https_client.c:237-240 | as written, wait mode is right for all old buffer contents if and only if the header block ends in the first chunk, or no body byte shares a chunk with its end, or the body is never announced |
| HttpTrace.CallbackGrammar | main/https_client.c:161-292 | for every client: at most one error callback, never with a body callback; in wait mode at most one body callback; in stream mode nonempty fragments and then at most one empty one, which follows a nonempty one; none after the client has stopped |
| HttpTrace.PlanFragmentsFit | main/https_client.c:161-171 | no fragment is empty or larger than the response buffer, so that each fits the uint16_t length of iap_write |
| UpdaterProofs.RecoveryOpensSession | main/iap_https.c:349-362 | recovery closes whatever session is open, so that the second begin cannot return SESSION_ALREADY_OPEN |
| UpdaterProofs.FragmentUploads | main/iap_https.c:364-374 | a fragment goes, whole, to an open session with a live buffer; the upload goes on if the write returned OK and is aborted otherwise |
| UpdaterProofs.DiscardedOnlyByOverflow | main/iap_https.c:396-399 | the branch for an empty image is reached only by a download of at least 2^31 bytes, whose int count has overflowed |
| UpdaterProofs.DriveUploads | main/iap_https.c:344-402 | any fragments and failures make the calls of one update: writes of a prefix of the fragments, then commit exactly when Content-Length is reached, abort on a failed write, or nothing |
| CoordinatorModule.Coordinator.OpenSession | main/iap_https.c:348-362 | the method makes the transition `Updater.OpenSession` |
| CoordinatorModule.Coordinator.FirmwareBody | main/iap_https.c:344-402 | the callback makes the transition `Updater.FirmwareBody` |
| CoordinatorModule.Coordinator.MetadataBody | main/iap_https.c:292-342 | the callback, with its searches in their order and its early returns, makes the transition `Updater.MetadataBody`; it faults at the first read that goes past the buffer |
| CoordinatorModule.Coordinator.ReadPath | main/iap_https.c:317-324 | the local buffer and the strncpy store the parsed file name, padded with NULs |
| Metadata.ParserReadsLookup | main/https_client.c:295-327 | a parser finds its key exactly where a reading by lines does: the first line that contains it, with the value up to the end of that line |
| Metadata.ParserFindsNothing | main/https_client.c:295-327 | and finds nothing if no line contains it |
| Metadata.MetadataIsApplied | main/iap_https.c:296-341 | the callback takes over the values of the keys, the interval being optional, in any order, among any other lines and whatever text is left behind the lines, and asks for a download exactly if the version differs |
| Metadata.IncompleteMetadata | main/iap_https.c:309-324 | without a version or a file name, in the lines and in the text left behind them, nothing but the interval changes, and without an interval nothing |
| Metadata.PathIsTerminated | main/iap_https.c:317-320 | the 256-byte path is always terminated and holds the first 255 characters of the file name |
| Metadata.MetadataFileReadsBack | meta/ota.txt:1-3 | round trip: a file of the three lines, in any order and with either line end, is read back if the path does not contain the other keys |
| MetadataMemory.ApplyMemoryIs | main/iap_https.c:296-341 | on any buffer, C string or not: the callback reads past its end if and only if there is no NUL and one of the three keys is missing or its value goes on to the end; otherwise it decides on the text in the buffer |
| MetadataMemory.MemoryIsApplied | main/iap_https.c:296-341 | ended lines need no NUL behind them if all three keys are there; without an interval line and without a NUL the search for it goes past the buffer |
| MetadataTail.UnendedIntIff | main/https_client.c:295-305 | the number of a last line without a line end is read right if and only if the text behind it does not begin with a digit, or number and digits are all zeros |
| MetadataTail.UnendedPath | main/https_client.c:307-327 | the path of a last line without a line end is read together with the rest of the header line behind it |
| MetadataTail.StaleDigitsIff | main/iap_https.c:309-339 | with the installed version in such a line, an update is asked for if and only if a digit behind it changes the number |
| Download.DownloadExecutesPlan | main/iap_https.c:275-290 | a download carries out the plan of the arriving data if connect, allocation and writing succeeded, and otherwise, so after every failed connect, leaves the programmer alone |
| Download.DownloadHappens | main/iap_https.c:275-402 | every download has one of three outcomes: nothing, a failed begin, or one update session with a prefix of the fragments and a definite end |
| Download.DownloadIsSafe | main/iap_https.c:275-402 | no download uses a dangling or NULL buffer, frees twice, or touches the image the device boots from, from every state that earlier downloads can leave |
| Download.DownloadWritesInSession | main/iap_https.c:364-374 | every write of a download meets an open session with a live buffer, so that it returns OK or WRITE_FAILED and never NO_SESSION |
| Download.ActivationSafety | main/iap_https.c:364-399 | for any network and any failures: if the boot partition changes, then every write returned OK, the delivered bytes reached Content-Length with the last fragment and not before, the commit returned OK, and the image holds exactly the delivered bytes if and only if the final flush succeeded |
| Download.NewFirmwareIff | main/iap_https.c:376-394 | if a download reports new firmware it has ended in a commit after successful writes, and the device boots from another partition if and only if that commit returned OK; otherwise the session is left open without a buffer; in either case the device restarts exactly if it is configured to |
| FailingRuns.FailedActivationIsReported | main/iap_https.c:382-388 | any image of less than a page, with every call succeeding but the activation: new firmware is reported and the boot partition stays |
| FailingRuns.FailedFlushIsActivated | main/iap.c:203-208 | the same with only the final page write failing: the commit returns OK, and the device boots from an erased partition |
| FailingRuns.FlagWithoutImage | main/iap_https.c:382-388 | a concrete server, connection and flash driver for the first |
| FailingRuns.EmptyImageIsBooted | main/iap.c:203-208 | and for the second |
| FailingRuns.FullBufferCrashes | main/https_client.c:161-185 | a concrete download and a concrete check whose search for the end of the headers runs past the response buffer |
| FailingRuns.WrongImageIsBooted | main/https_client.c:237-240 | a concrete download, without a failing call, after which the device boots an image that nobody has sent |
| FailingRuns.MetadataReadPastEnd | main/iap_https.c:298-318 | a concrete check whose metadata are read past the response buffer |
| Download.DownloadInstallsBody | main/iap_https.c:275-402 | end to end: a response with status 200 and exactly Content-Length body bytes, in any chunks from which the leftover is copied right, with no failing call, is installed page by page, byte for byte, and the boot partition switches once, last |
| StaleImage.BodyInstalledIff | main/https_client.c:237-240 | as written, a download that goes well in every other respect installs the body whatever the TLS buffer held before if and only if the header block ends in the first chunk or no body byte shares a chunk with its end |
| UpdateCheck.CheckExecutesPlan | main/iap_https.c:258-273 | a check carries out the plan of the arriving data if the request has gone out, and otherwise changes nothing |
| UpdateCheck.CheckFaultIff | main/iap_https.c:292-342 | whatever arrives, the metadata callback runs at most once, and reads past the buffer it is shown if and only if not all of its reads stay inside (see `MetadataMemory.ApplyMemoryIs`) |
| UpdateCheck.CheckTouchesOnly | main/iap_https.c:258-342 | whatever arrives, a check leaves the programmer and the session alone and never withdraws a download; it asks for one exactly if the text it reads names another version and a file, and that file is then the stored one |
| UpdateCheck.CheckOutcome | main/https_client.c:145-266 | the buffer the metadata callback is shown, for every response, every chunking and whatever has been copied, byte for byte; or that it is not called |
| UpdateCheck.FullBodyFaultsIff | main/iap_https.c:298-318 | a metadata body of exactly 512 bytes leaves no NUL; it is read past the buffer if and only if not all three keys are there with something that ends their values |
| UpdateCheck.BodyIsShown | main/https_client.c:234-265 | the text the callback reads is the body and the header text left behind it, and a NUL ends it exactly under the condition of `HttpWait.TextBehindBody` |
| StaleImage.BodyShownIff | main/https_client.c:237-240 | as written, the metadata callback is shown the right buffer, whatever the TLS buffer held before, if and only if the header block ends in the first chunk, or no body byte shares a chunk with its end, or the body is never announced |
| UpdateCheck.CheckReadsMetadata | main/iap_https.c:258-342 | end to end: the lines of the metadata file, in any chunks that are copied right, are taken over exactly, whatever header text is left behind them, and a download is due if and only if the version differs; only a missing interval line needs a NUL in the buffer, and is a fault without one |
| UpdateCheck.StaleDigitsAskIff | main/iap_https.c:258-342 | end to end with the installed version in a last line without a line end, and a NUL in the buffer: a download is asked for if and only if a digit of the old header text changes the number |
| Response.NoEarlierTerminator | main/https_client.c:180-185 | in a header block of nonempty lines the empty line at its end is the first terminator, whatever bytes the body holds |
| Response.FieldReads | main/https_client.c:220-226 | the value of a numeric field, of any sign, is read back from the header text, whatever other fields there are and in any order, with optional white space |
| Response.JudgeOfLines | main/https_client.c:199-230 | what a header block says, from its lines: another version is refused first, then another status with its code, a missing Content-Length ends the request silently, and a Content-Length of any sign is taken as a size_t |
| Refusal.MalformedIsRefused | main/https_client.c:203-207 | a first line with another protocol, or with one of the three numbers or the dot missing, is an invalid status line |
| Refusal.RefusedPlan | main/https_client.c:203-230 | the plan of every response that is not accepted |
| Refusal.RefusedResponseChangesNothing | main/https_client.c:203-230 | end to end: a server that answers with another version or status, without Content-Length or without a status line, in any chunks and with any body, changes nothing on the device but the session flag of a download; and if the header block fits, exactly its error is reported |
| Refusal.ActsOnlyOnAnswer200 | main/https_client.c:199-230 | whatever arrives: a download or a check that changes anything else has received a header block with version 1, status 200 and a Content-Length |
| Response.WrittenIsAccepted | main/https_client.c:180-230 | every response of RFC 7230's form (section 3) with status 200 and a Content-Length is accepted with that length, and its body begins where the server began it |
| Response.ServedImageIsInstalled | main/iap_https.c:275-402 | end to end: any image that a server writes as such a response, in any chunks from which the leftover is copied right, is installed exactly, if no call fails |
| Response.ServedImageIsActivated | main/iap_https.c:364-399 | whatever fails: if the boot partition changed, and what arrived is a prefix of the response that was copied right, then all of the server's image was delivered, and it is what the device boots if and only if the final page write succeeded |
| Response.ServedMetadataIsApplied | main/iap_https.c:258-342 | end to end: a metadata file of the three lines in any order, sent as such a response in any chunks that are copied right, is taken over exactly, even if it fills the buffer |
| Response.StaleDigitsChangeVersion | main/iap_https.c:258-342 | a concrete failure: a 33-byte file that ends with "VERSION=1", in a chunk behind its headers, makes a device with version 1 ask for an update, because the digits of "Content-Length: 33" follow in the buffer |
| Polling.DownloadsConserved | main/iap_https.c:185-217 | in every interleaving: completed downloads plus one if the bit is set are the checks that reported a different version, and no wake-up acts on a bit that was cleared meanwhile |
| Polling.RequestSurvives | main/iap_https.c:160-215 | a requested check stays requested until the task clears the bit after a check |
| Polling.RequestOutlivesDownload | main/iap_https.c:199-214 | in every run, a check requested during a download, or at any time before a check has come back, is not lost before the task has checked |
| Polling.PollingNeverLost | main/iap_https.c:155-256 | with working timer calls and a timer that does not expire between re-arming and clearing, a positive interval means in every reachable state that a check is due or the timer will make it due, under all interval changes and manual checks |
| Polling.PollingKeptIff | main/iap_https.c:185-256 | over all runs with working timer calls and timers of any length: polling is kept throughout if and only if the bit is never cleared, with a positive interval, after the timer has expired and its callback has run since the timer was re-armed |
| Polling.ClearLosesPollingIff | main/iap_https.c:208-214 | the same for one clearing of the bit, in any run |
| Polling.PollingCanBeLost | main/iap_https.c:208-214 | a run in which the timer expires between re-arming and clearing and polling is lost |
| Polling.RearmIs | main/iap_https.c:219-256 | after re-arming there is a timer exactly if the interval is positive and a timer could be had, and it is armed exactly if it could be started or was running |
| Polling.SwitchedOff | main/iap_https.c:249-255 | re-arming with interval 0 removes the timer, and over every run none expires until it is re-armed with a positive interval |
| Polling.OffNeverChecks | main/iap_https.c:185-256 | over every run, a device with nothing due and no timer never checks unless somebody asks for it |
| Polling.StartsOff | main/iap_https.c:131-131 | in particular one that starts with interval 0 |
| Polling.LostForGood | main/iap_https.c:160-217 | after that, over every run in which nobody asks for a check, none is made |
| Polling.RequestSetsBitIff | main/iap_https.c:160-173 | a manual request, with any steps of the task and the timer between its two steps, leaves the bit set if and only if the bit was clear when read, was not cleared in between, or was set again by the timer since |
| Polling.RequestAbsorbedIff | main/iap_https.c:160-215 | over every run, a manual request is absorbed, with no check after it began and none due, if and only if it reads the bit, still set, when a check has come back, and the bit is then cleared before the request is over, without the timer setting it again or another check coming back |
| Polling.RequestCanBeAbsorbed | main/iap_https.c:160-173 | a schedule in which it has no effect |
| TaskRound.CodeRefinesProtocol | main/iap_https.c:155-217 | over every run and every interleaving: the task with its whole data, its checks and downloads over the network, the timer and a caller take steps of the protocol only, and are in the state the protocol predicts |
| TaskRound.CodeKeepsPolling | main/iap_https.c:155-217 | so in every run of the code the downloads are conserved, and polling is kept under the conditions of the protocol |
| TaskRound.CodeStaysOff | main/iap_https.c:185-256 | with nothing due and no timer, and nobody asking, the task makes no check in any run of the code |
| TaskRound.CodeStartsOff | main/iap_https.c:131-217 | in particular after a start with interval 0 |
| TaskRound.RoundSwitchesOff | main/iap_https.c:204-214 | a check that brings interval 0 leaves neither the bit nor a timer |
| TaskRound.StepsAreRound | main/iap_https.c:192-215 | without steps of others in between, the steps of the task are its round as the class performs it |
| TaskRound.RoundRefinesProtocol | main/iap_https.c:185-216 | such a round takes enabled steps of the protocol and ends in the state the protocol predicts |
| TaskRound.DownloadIsSilent | main/iap_https.c:275-290 | a download changes neither the download bit nor the interval |
| TaskModule.UpdaterTask.CheckForUpdate | main/iap_https.c:258-273 | the method makes the transition `Updater.CheckForUpdate` over all layers |
| TaskModule.UpdaterTask.DownloadImage | main/iap_https.c:275-290 | the method makes the transition `Updater.DownloadImage` over all layers |
| TaskModule.UpdaterTask.SendHttps | main/https_client.c:81-143 | a request over the connection, with its error exits before anything is sent |
| TaskModule.UpdaterTask.PrepareTimer | main/iap_https.c:219-256 | the timer exists and is armed as `Polling.PrepareTimer` says for the current interval |
| TaskModule.UpdaterTask.Round | main/iap_https.c:192-215 | a round that comes back makes the transition `TaskRound.Round`: the download has priority, and the timer is re-armed before the bit is cleared; one that hangs or crashes leaves the check bit and the timer as they were |

## Left out

- mbedTLS: handshake, certificates and entropy are result codes; the pinning comparison is one of them.
- Flash and partition drivers beyond success or failure; a failing call is taken to change nothing. The contents of the page buffer's memory after it has been freed.
- FreeRTOS: event bits, the timer and its callback are atomic steps in any order; tick arithmetic and the timer command queue are not modelled.
- The infinite loop of the task: `UpdaterTask.Round` is one round; runs of any length are those of module `Polling`.
- The restart after a commit is the flag `restarted`; what the device does after it is not modelled.
- A failed allocation of the coordinator's own request buffers or of the TLS context at start-up (`main/iap_https.c:86-136`).
- Polling.PollingKeptIff: is about working timer calls; with failing ones `Polling.KeptUnlessLosing` gives the condition on the state of the timer, not on the schedule.
- The validation of request fields that the coordinator always sets (`main/https_client.c:329-369`), except the path; freeing of request contexts.
- CStrings.ScanPrinted: a number that does not fit an int is taken to be read as it is, because the C library leaves the result of atoi and sscanf open there.
- Metadata.MetadataIsApplied: the conversion of an interval to milliseconds and its overflow are not modelled.
- Headers callbacks (never called), `request_id`, logging, error-string printing, Wi-Fi setup, the LED and the rest of `main/main.c`.
- Chunked transfer coding, field names in other letter case, redirects: the code does not handle them.
