# ESP OTA server with a Server-Sent-Events log stream — Dafny model

The firmware runs two servers side by side.

- **The OTA upload handler.** `upload_post_handler` (main/httpd.c) accepts a firmware image as the body of an HTTP POST.
  - It refuses a body larger than the next OTA partition.
  - It opens an OTA session and streams the body into flash in windows of at most `SCRATCH_BUFSIZE` (512) bytes, retrying a receive that timed out.
  - Once the whole body is received and written, it closes the session, and it switches the boot partition only when the image validates. A failed receive or write returns without closing the session.
- **The raw socket server.** This part is in main/main.c.
  - It serves a gzip page on `GET /`.
  - It takes up to two Server-Sent-Events subscribers on `GET /event`.
  - It answers everything else with 404.
  - A putchar hook (`sse_logging_putchar`) collects every log line into `log_buf` and queues it.
  - A broadcast task (`sse_task`) sends each queued line as `data: <line>\n\n` to every subscriber. It drops a subscriber when the send to it fails.

The model contains the following:

| file | module | contents |
|---|---|---|
| `wrappers.dfy` | `Wrappers` | `Option` |
| `router.dfy` | `Router` | The request classification of `read_from_client` as pure functions: a 3-character method prefix, and a path taken after the first space and matched by prefix. Also the fixed response texts, and the decimal `Content-Length` with a round trip back to the number. |
| `sse_protocol.dfy` | `SseProtocol` | the subscriber slot table `sse_sockets` as values (lowest free slot, registration, the drop rule, the table after a broadcast), plus the event framing and how a client parses it back |
| `logbridge.dfy` | `LogBridge` | `sse_logging_putchar` as a class over `log_buf`, the console sink and a bounded FreeRTOS queue (`xQueueSendToBack` with zero wait, `xQueueReceive`) |
| `server.dfy` | `SseServer` | The server state as a class: `sse_sockets` as an `array<int>` of length 2, `master_set` as a `set<int>`, and each `send` and `close` in order in an `io` log. The methods are `read_from_client`, the drop rule, the per-descriptor step of the accept/read scan, and the body of the `sse_task` loop, each proved against the functions of `SseProtocol`. |
| `ota.dfy` | `Ota` | `upload_post_handler` as an imperative method over three objects: an OTA flash layer (`begun`, `written`, `bootTarget`), a request whose receives follow a script, and the handler's own `flash_status`. The method keeps a ghost log of every platform call. A protocol automaton (`Step`/`Run`) says which call orders are allowed, and the lemmas about it state the upload guarantees. |
| `scenarios.dfy` | `Scenarios` | End-to-end uses of the contracts: routing of `/event` and `/` and of a request with a NUL before its space, the page fetch, filling the table, the subscriber limit, a descriptor that subscribes twice, a broadcast over such a table, a line reaching two subscribers, the log bridge queuing a line, a cut-off upload and a full upload. |

Nondeterminism is handled as follows:
- **Body receives.** A request object carries a script of receive behaviours, `Deliver(max) | TimedOut | SockFail`, and the bytes the client sends. Once the script is used up the peer has closed and `httpd_req_recv` returns 0. Timeouts can therefore not repeat forever, and the receive loop terminates on `decreases |req.steps|`.
- **Flash results.** The flash layer carries a script of result codes. `ESP_OK` is 0, and every call succeeds once the script is used up.
- **Socket results.** `read()` results arrive as a `ReadResult` parameter, an `accept()` result as an `int` parameter. Send failures in a broadcast pass arrive as the set of slot indices whose `send` fails, so each send of the pass fails or succeeds on its own. Nothing is read from a socket; the model only records what is sent.

Where the code and its evident intent (its comments and the usual HTTP conventions) disagree, the model follows the code:
- **The method test.** The code compares only the first three characters with `"GET"`, so `GETX /event` subscribes. `"/event"` is a path prefix, so `GET /events` subscribes too.
- **Connection close.** The page and 404 responses return 0, so those connections stay in `master_set`. They are not closed.
- **Timeout retries.** Retries are unbounded in the code. The bound here comes only from the finite receive script.
- **`flash_status`.** The code sets it to -1 (255 as `uint8_t`) on entry and never changes it on any path, including success.
- **The OTA session.** The comment at main/httpd.c:62 says the handle set by `esp_ota_begin` must be freed by `esp_ota_end`. A failed receive (main/httpd.c:89) or a failed write (main/httpd.c:98) returns without calling `esp_ota_end`, so the session stays open. `Ota.Httpd.UploadPostHandler` states this: after a successful begin, the session is open on return exactly when the last call was neither the end nor the boot switch.
- **A descriptor in two slots.** A client that sends `GET /event` twice on one connection is registered in both slots (main/main.c:88-94). When the send through one slot fails and the send through the other succeeds (main/main.c:143-149), the descriptor is closed and leaves `master_set`, but the other slot still holds it. Later broadcasts then send to a closed descriptor, or to whatever connection reuses the number. `Scenarios.DuplicateBroadcast` shows this: `[5, 5]` with the second send failing becomes `[5, 0]`, and 5 is still a subscriber.
- **The log hook swap.** A subscription swaps the putchar hook out with `esp_log_set_putchar` (main/main.c:85) and swaps it back after the 200 response (main/main.c:108). The 503 return at main/main.c:98 skips the swap back. After one refused subscriber the installed hook is the console sink, so log output no longer reaches `sse_logging_putchar`. Each later registration then installs `sse_logging_putchar` only between main/main.c:85 and 108, the reverse of the intent, until another refused subscriber swaps the hooks back.

## Model

| member | source | states |
|---|---|---|
| `Router.FindSpace` | main/main.c:46-63 | The result is the position of the first space, with no NUL before it, or None when no space comes before the first NUL. This is what `strstr(buffer, " ")` finds in the zero-filled buffer. |
| `Router.Uri` | main/main.c:62-64 | The URI is everything after the first space, and it exists iff a space comes before the first NUL. |
| `Router.StartsWith` | main/main.c:82-83 | The `strncmp(s, p, strlen(p)) == 0` test holds exactly when s is at least as long as p and agrees with it character by character. |
| `Router.Classify` | main/main.c:82-123 | It is Subscribe iff the request starts with "GET" and the text after the first space (with no NUL before it) starts with "/event". It is Page iff the request starts with "GET" and that text does not start with "/event" but starts with "/ ". A request not starting with "GET" is NotFound, and that includes a non-GET to /event. |
| `Router.DecimalString` | main/main.c:116 | `%d` of a non-negative length is a non-empty string of digits without a leading zero. |
| `Router.DecimalRoundTrip` | main/main.c:116 | Reading the digits `%d` prints gives back the number. |
| `Router.LeadingDigits` | main/main.c:116 | The digits at the start of a string: a prefix, all digits, and followed by a non-digit or the end. |
| `Router.LeadingDigitsOfNumber` | main/main.c:116 | The digits followed by a non-digit are read back exactly. |
| `Router.PageHeaderAnnouncesLength` | main/main.c:116-118 | The Content-Length announced by the page header equals the length of the payload sent after it. |
| `Router.PageHeader` | main/main.c:116 | The page header starts with the status line and the `Content-Length: ` name and ends with the blank line that ends the headers. `PageHeaderAnnouncesLength` proves that the length it announces is the payload length. |
| `SseProtocol.FirstFree` | main/main.c:88-94 | The slot found is the lowest one holding 0. None means every slot is taken. |
| `SseProtocol.Register` | main/main.c:88-99 | Registration fails iff every slot is non-zero. On success fd is stored in the lowest free slot and every other slot is unchanged. |
| `SseProtocol.Unregister` | main/main.c:232-236 | Every slot equal to fd becomes 0. All other slots are kept. |
| `SseProtocol.RegisterKeepsNoDuplicates` | main/main.c:88-94 | Registering a descriptor not yet in the table keeps each descriptor in at most one slot. |
| `SseProtocol.RegisterAddsSubscriber` | main/main.c:88-94 | Registration adds exactly fd to the set of subscribers. |
| `SseProtocol.RegisterThenUnregister` | main/main.c:88-94 | Dropping a descriptor right after it registered restores the table. |
| `SseProtocol.UnregisterRemoves` | main/main.c:229-236 | The drop rule removes exactly fd from the subscribers, for every table, including one where fd holds two slots. |
| `SseProtocol.UnregisterKeepsNoDuplicates` | main/main.c:229-236 | The drop rule keeps a table free of duplicates. |
| `SseProtocol.Recipients` | main/main.c:140-141 | The descriptors a broadcast sends to are exactly the non-zero slots, and there are no more of them than slots. |
| `SseProtocol.AfterBroadcast` | main/main.c:140-149 | After a pass every slot whose own send failed is 0 and every other slot is kept. |
| `SseProtocol.BroadcastDropsExactlyFailed` | main/main.c:140-151 | In a table without duplicates, a broadcast removes exactly the subscribers whose send failed. |
| `SseProtocol.BroadcastKeepsSurvivors` | main/main.c:140-151 | In every table, including one with a descriptor in two slots, a broadcast adds no subscriber and keeps every subscriber that no failed send went to. A descriptor whose send failed through one slot may stay through the other. |
| `SseProtocol.BroadcastKeepsNoDuplicates` | main/main.c:140-151 | A broadcast keeps a table free of duplicates. |
| `SseProtocol.FindNewline` | main/main.c:131 | The position found is the first newline. None means there is no newline. |
| `SseProtocol.Frame` | main/main.c:133-138 | The frame is `data: `, then the line, then `\n\n`, and is 8 characters longer than the line. `FrameParses` proves a client reads the line back, and `FrameFits` proves it fits `recv_buf`. |
| `SseProtocol.FrameParses` | main/main.c:130-138 | A frame `data: <line>\n\n` of a line without a newline is parsed back by an event-stream client as that line. |
| `SseProtocol.FrameFits` | main/main.c:132-138 | A queued line of at most 119 characters, framed and with its terminator, fits the 128-byte `recv_buf`. |
| `LogBridge.NonNul` | main/main.c:35-38 | Dropping NUL characters (which leave the C string unchanged) never lengthens a line and only keeps characters of it. |
| `LogBridge.Append` | main/main.c:35-39 | One non-newline character is appended or ignored. A buffer within 119 characters stays within them, and a NUL changes nothing. |
| `LogBridge.Replay` | main/main.c:28-40 | The buffer after any run of non-newline characters holds at most 119 characters, no more than were received, and no NUL. `ReplayIsTruncation` gives its closed form. |
| `LogBridge.ReplayIsTruncation` | main/main.c:34-40 | `log_buf` holds the first 119 non-NUL characters received since the last newline. |
| `LogBridge.LineIsPrefix` | main/main.c:34-40 | The buffer never exceeds 119 characters. It holds only received characters, is a prefix of the line received, and is the whole line when that line is short. |
| `LogBridge.EnqueueKeepsWellFormed` | main/main.c:29-31 | A line taken from `log_buf` is at most 119 characters and holds no newline. |
| `LogBridge.MessageQueue.constructor` | main/main.c:282 | A new queue is empty and has the given capacity; the bridge's queue is created with 10. |
| `LogBridge.LogBridge.constructor` | main/main.c:23 | The bridge starts with the zero-initialised `log_buf` (the empty line), an empty console and nothing received. It requires an empty queue of length 10. |
| `LogBridge.MessageQueue.SendToBack` | main/main.c:31 | With zero wait, the line is appended iff the queue is not full; otherwise the queue is unchanged. |
| `LogBridge.MessageQueue.Receive` | main/main.c:137 | It takes the oldest line. The queue is unchanged iff it was empty. |
| `LogBridge.LogBridge.PutChar` | main/main.c:28-43 | The character is always forwarded to the console and returned. A newline enqueues the current line with zero wait (dropped when 10 lines wait), clears the buffer and is never stored. Any other character gives `Append` of the buffer. The invariant that the buffer is the truncation of the line so far is kept. |
| `SseServer.BroadcastSendsToRecipients` | main/main.c:140-149 | The sends of a broadcast go to exactly the non-zero slots, once per slot, in slot order. |
| `SseServer.BroadcastCallsOnSlots` | main/main.c:140-149 | Every call of a broadcast is on a descriptor held in a slot, and every send carries the frame. |
| `SseServer.BroadcastClosesFailed` | main/main.c:143-149 | Every close of a broadcast is of a descriptor whose send through some slot failed. |
| `SseServer.SlotIo` | main/main.c:141-149 | An empty slot makes no call. A taken slot makes one call, or two when its own send fails. `BroadcastSendsToRecipients`, `BroadcastCallsOnSlots` and `BroadcastClosesFailed` prove which calls they are. |
| `SseServer.BroadcastIo` | main/main.c:140-151 | A broadcast pass makes at most one send and one close per slot. `BroadcastSendsToRecipients` proves the sends go to the subscribers in slot order, `BroadcastCallsOnSlots` that every call is on a descriptor held in a slot, and `BroadcastClosesFailed` that only failed recipients are closed. |
| `SseServer.RouterFails` | main/main.c:50-99 | `read_from_client` fails on a failed read or a closed peer, never on a request other than a subscription, and on a subscription only when no slot is free. |
| `SseServer.RouterIo` | main/main.c:96-122 | A failed read or closed peer sends nothing. Any received request is answered by one or two calls, the first a send on the client's own descriptor. `RouterAnswers` proves the rest. |
| `SseServer.RouterAnswers` | main/main.c:96-122 | A received request is answered on its own connection only, and a read that failed or found the peer closed sends nothing. On a received request, the router fails exactly when its answer is the 503. |
| `SseServer.Server.constructor` | main/main.c:197-198 | The master set holds only the listener, and both slots are empty. |
| `SseServer.Server.RegisterSubscriber` | main/main.c:87-94 | The slot loop stores fd exactly as `Register` says, or leaves the table unchanged when it is full. |
| `SseServer.Server.ReadFromClient` | main/main.c:45-126 | The result is -1 iff the read failed, the peer closed, or a subscription found no slot; otherwise it is 0. A failed read sends nothing. A subscription registers and sends the event-stream header, or sends 503 with the table unchanged. The page route sends the header and then the page. Anything else sends the 404 response. The io log grows by exactly `RouterIo` of the old table. |
| `SseServer.Server.Drop` | main/main.c:229-236 | The descriptor is closed, leaves the master set, and is cleared from every slot. Nothing else changes, and the listener is never dropped. |
| `SseServer.Server.Dispatch` | main/main.c:211-240 | On the listener, a successful accept adds the new descriptor and an accept error abandons the scan with nothing changed. On a client, the router runs, and a result < 0 applies the drop rule. The io log grows by the router's answer, followed by the close exactly when the router failed. |
| `SseServer.Server.Broadcast` | main/main.c:140-151 | Slot by slot, a taken slot is sent the frame, and when that send fails the descriptor is closed, removed from the master set and the slot emptied. The slot table becomes `AfterBroadcast`, the master set loses exactly the failed recipients, and the io log gains the sends and closes of `BroadcastIo`. |
| `SseServer.Server.SendToSlot` | main/main.c:141-149 | One slot of the pass: a taken slot is sent the frame, and when that send fails the descriptor is closed and removed from the master set, and the slot is emptied. The io log gains exactly `SlotIo`, and the other slots are unchanged. |
| `SseServer.Server.SseTaskStep` | main/main.c:136-152 | A dequeued line is broadcast as its frame, which fits `recv_buf` and holds no newline other than the final two. With nothing queued nothing happens. After a broadcast, the slots whose send failed are emptied, `master_set` loses exactly the descriptors whose send failed, and the io log holds the pass's sends and closes. |
| `Ota.Httpd.constructor` | main/httpd.c:19 | `flash_status` starts at 0, and no platform call has been made. |
| `Ota.ToUint8` | main/httpd.c:19-25 | The value stored in a `uint8_t` is the int modulo 256, so -1 becomes 255. |
| `Ota.Window` | main/httpd.c:83 | `MIN(remaining, 512)` is positive, at most remaining and at most 512, and equals one of the two. |
| `Ota.Step` | main/httpd.c:36-124 | One call of the upload protocol. No call leads back to the start, every call after the handler returned or after a protocol break is a break, and the only allowed first call is `esp_ota_begin` of an admitted body. |
| `Ota.Run` | main/httpd.c:36-124 | The phase a call sequence leads to is the start only for the empty sequence. `RunAccounts`, `BrokenStays`, `ReceiveWindows`, `ReceiveFailures`, `WritesFollowReceives`, `SetBootOnlyAfterEnd` and `SuccessfulRun` state the rest. |
| `Ota.RunAccounts` | main/httpd.c:74-104 | In every phase, the bytes written plus the bytes remaining equal `content_len`. A successful return has written exactly `content_len` bytes. |
| `Ota.BrokenStays` | main/httpd.c:59-164 | Once a call sequence breaks the protocol it stays broken, and no call may follow the handler's return. |
| `Ota.ReceiveWindows` | main/httpd.c:79-83 | Every receive asks for `MIN(content_len - written, 512)` bytes, and at that point fewer than `content_len` bytes are written. |
| `Ota.ReceiveFailures` | main/httpd.c:83-90 | A timeout is followed by a receive of the same size with nothing written. Any other result `<= 0` is the last call and the handler fails. |
| `Ota.WritesFollowReceives` | main/httpd.c:95-99 | Every write carries exactly the chunk received just before it. A failed write is the last call. |
| `Ota.SetBootOnlyAfterEnd` | main/httpd.c:111-124 | The boot partition is switched only by the last call, right after a successful `esp_ota_end`, and only when the whole body was written and fits the partition. |
| `Ota.FirstCallIsBegin` | main/httpd.c:36-69 | The first call happens only after admission and is `esp_ota_begin`. A failed begin is the only call. |
| `Ota.SuccessfulRun` | main/httpd.c:65-164 | Success means: begin succeeded, exactly `content_len` bytes were written, the end succeeded, and the boot switch succeeded as the last call. |
| `Ota.OtaFlash.Begin` | main/httpd.c:65 | A successful begin opens a session with nothing written and does not touch the boot partition. |
| `Ota.OtaFlash.Write` | main/httpd.c:95 | A successful write appends the chunk; a failed one leaves the session's bytes unchanged. |
| `Ota.OtaFlash.End` | main/httpd.c:111 | The session is closed, and the written bytes and the boot partition are kept. |
| `Ota.OtaFlash.SetBootPartition` | main/httpd.c:120 | The boot partition changes to the given one iff the call succeeds. |
| `Ota.HttpReq.Recv` | main/httpd.c:83 | A positive result is the count of bytes delivered, at most the window, taken from the front of the body. A result `<= 0` delivers nothing. A closed connection returns 0. A timeout step returns `HTTPD_SOCK_ERR_TIMEOUT`, and a delivering step with bytes left returns a positive count. |
| `Ota.Httpd.UploadPostHandler` | main/httpd.c:22-165 | `flash_status` is 255 and the result is `ESP_OK` or `ESP_FAIL`. An oversize body makes no call and changes nothing. Otherwise the call sequence is an allowed run ending with the handler's result. The boot partition becomes the next partition on success and is unchanged on every failure. The written bytes are a prefix of the body, and all `content_len` of them on success. If the body fits, no flash call fails and the client sends the whole body without a failing receive, the result is `ESP_OK`. After a successful begin, the session is still open on return exactly when the last call was a receive or a write, i.e. after a failed receive or write. |
| `Ota.Httpd.ReceiveBody` | main/httpd.c:74-104 | The receive loop keeps `|written| + remaining == content_len` and keeps the written bytes a prefix of the body. It ends either with nothing remaining, or with a finished failed run whose last call is a receive or a write. The session is open either way. It never touches the boot partition. With a cooperative client and flash layer that never fails, it ends with nothing remaining. |
| `Ota.Httpd.ReceiveWindow` | main/httpd.c:83 | One receive of `MIN(remaining, 512)` bytes, logged. It gives the phase that follows. With a cooperative client, the result is a timeout or a positive count no larger than `remaining`, and the client stays cooperative for what is left. |
| `Ota.Httpd.WriteChunk` | main/httpd.c:95-99 | One write of the received chunk, logged. `remaining` drops by the chunk length on success, and the run fails otherwise. If no flash call fails, the write succeeds. |
| `Ota.Httpd.Finish` | main/httpd.c:111-124 | `esp_ota_end`, then `esp_ota_set_boot_partition` only if the end succeeded. The result is `ESP_OK` only if both succeed, and the boot partition changes only then. If no flash call fails, the result is `ESP_OK`. The session is closed and the last call is the end or the boot switch. |
| `Ota.Httpd.ReceivePass` | main/httpd.c:79-103 | One pass of the loop: a timeout gains nothing and the loop goes on, other results `<= 0` and failed writes stop the loop. The loop state is kept on every pass that goes on. A pass that stops is a finished failed run, ends on a receive or a write with the session open, and cannot happen with a cooperative client and flash layer that never fails. |
| `Scenarios.EventRequestSubscribes` | main/main.c:82-83 | `GET /event HTTP/1.1` is routed to the subscription. |
| `Scenarios.PageRequestGetsPage` | main/main.c:110-111 | `GET / HTTP/1.1` is routed to the page. |
| `Scenarios.NulBeforeSpace` | main/main.c:62-83 | `GET\0 /event` has no URI, because the NUL ends the C string before the space, and it is answered 404. |
| `Scenarios.FillTable` | main/main.c:88-95 | Two registrations fill an empty table in slot order, and a third finds no slot. |
| `Scenarios.SubscriberLimit` | main/main.c:82-105 | Two `/event` clients get slots 0 and 1 and result 0. A third gets 503 and result -1. |
| `Scenarios.DuplicateSubscription` | main/main.c:88-94 | A subscriber that subscribes again takes the second slot and is still one subscriber. Dropping it empties both slots. |
| `Scenarios.PageFetch` | main/main.c:110-119 | `GET /` sends the header, then the page. The length the header announces is the page's length, and the result is 0. |
| `Scenarios.DuplicateBroadcast` | main/main.c:140-149 | With fd 5 in both slots and only the second send failing, the table becomes `[5, 0]`, 5 is the failed recipient, and 5 is still a subscriber. |
| `Scenarios.TwoSubscribersBroadcast` | main/main.c:140-143 | With both slots taken and no failure, the frame goes to slot 0 and then to slot 1, and nothing is closed. |
| `Scenarios.LineToSubscribers` | main/main.c:136-151 | A queued line reaches both subscribers as one event each, and each client reads it back. |
| `Scenarios.BridgeQueuesLine` | main/main.c:28-43 | Feeding `o`, `k`, `\n` queues the line "ok", echoes all three characters and leaves the buffer empty. |
| `Scenarios.CutOffUpload` | main/httpd.c:79-90 | A client that closes before sending `content_len` bytes makes the handler fail, and the boot partition is unchanged. |
| `Scenarios.FullUpload` | main/httpd.c:74-124 | A three-byte body sent in three receives, with a timeout between the first two, is written in full. When every flash call succeeds, the handler returns `ESP_OK` and the next partition becomes the boot partition. |

## Left out

- Wi-Fi access-point bring-up, task creation and queue creation in `app_main` (main/main.c:246-286): platform start-up. Only the queue length 10 is used.
- Socket creation, `ioctl`, `bind` and `listen` (main/main.c:160-190): platform I/O.
- `select` and the `FD_SETSIZE` scan (main/main.c:200-212): `Dispatch` models one ready descriptor. The caller supplies which descriptor is ready and what `accept`/`read` returned.
- `httpd_start`, `httpd_stop` and URI registration (main/httpd.c:170-206): thin vendor wrappers.
- Concurrency between the three tasks. This covers the `volatile` slot table shared with `sse_task`, and the `esp_log_set_putchar` swap used as a lock (main/main.c:85, 108). Every operation is modelled as atomic. The hook itself is not modelled, so the lost restore on the 503 path (described above) is not captured: the model's bridge always receives every character.
- The `Content-Length` `sscanf` and the header-end/body-length computation in `read_from_client` (main/main.c:66-80): they only feed log output.
- C string handling of the 1024-byte read buffer. The request is the `seq<char>` of the bytes read, NUL characters included. Only the search for the first space reads the request as a C string, stopping at the first NUL; the three-byte method test and the path tests compare literal characters, so a NUL fails them in both. A read of the full 1024 bytes leaves no terminator in the code, and `strstr` then runs past the buffer; the model stops at the end of the read.
- A request that starts with `GET` and has no space before its first NUL: `strstr` stops at the NUL and returns NULL there and the C code reads from address 1. The model routes it to 404. A request with no space that does not start with `GET` gets the 404 in the code too, because the `&&` at main/main.c:82 and 110 stops before the path is read.
- Logging calls, including the chunk log in the upload loop (main/httpd.c:92-93), and the commented-out partition and SHA-256 printing (main/httpd.c:126-159).
- `esp_ota_*` internals, including image validation: each call returns the next scripted code. The partition returned by `esp_ota_get_next_update_partition` is a given value, so the `assert(next != NULL)` never fails.
- `ESP_ERR_OTA_VALIDATE_FAILED` is not told apart from other `esp_ota_end` errors; the two differ only in the message logged.
- The embedded gzip page is an opaque character sequence.
- The blocking `xQueueReceive` with `portMAX_DELAY` (main/main.c:137): `Receive` on an empty queue reports that nothing arrived instead of blocking.
- `sse_logging_putchar` takes a `char`, not an `int`. The previous putchar sink is a log of characters, and its return value is taken to be the character's code.
- `send()` partial writes: a send either delivers the whole message or fails (< 0). In a broadcast pass, the set of failing slot indices says which case applies to each send.
- `SseProtocol.RegisterKeepsNoDuplicates`: this requires that the descriptor is not yet registered. The source lets the same descriptor register twice, and then it occupies two slots.
