# OTA upload core of the ESP32 firmware, in Dafny

The firmware (`src/main.rs`) takes a firmware image over HTTP in chunks and
writes it to the OTA flash partition. It has two cooperating parts:

- **The update writer** is a background thread that owns the flash handle and
  consumes `Update` commands (`Start`, `Chunk(bytes)`, `Finish`) from a channel.
  Its outer loop waits for `Start`. The inner loop holds an open update: it
  writes chunks, completes and restarts on `Finish`, and aborts on a second
  `Start`. Any failing flash call ends the thread, as does a command other
  than `Start` in the outer loop.
- **The two upload handlers.**
  - `POST /firmware/chunk` checks the size and the multipart boundary, then
    picks the `index` and `chunk` parts. It sends `Start` when the index is 0,
    then sends the chunk. It waits until the writer raises the ready flag,
    adds the chunk length to the `bytes_written` counter and replies with the
    new total.
  - `POST /firmware/finish` sends `Finish` and replies `ok`.

The model runs the two parts as one sequential system. Each request runs to
completion before the next one starts (a single uploader), and the writer
consumes every command as it is sent. The chunk handler waits for the writer
to write its chunk, so for a single uploader this order is the real one. It
is an assumption wherever a command is sent without waiting: after a
`Start`, and after the `Finish` of `/firmware/finish`. "## Left out" names
the two orders this hides.

Files:

- `common.dfy`: 32-bit `usize` arithmetic (`as usize`, `fetch_add`), `MAX_LEN`.
- `text.dfy`: `split_once`, `starts_with`, `str::parse::<usize>`, and `format!` of a number.
- `writer.dfy`:
  - the writer thread as the class `UpdateWriter`, with a state field and the ready flag;
  - its transition function `Step`;
  - runs of the thread over command sequences;
  - the session theorem: every completed image is the chunks of one session.
- `ingress.dfy`:
  - the handlers as functions of the state before a request (`ChunkRequest`, `FinishRequest`);
  - their properties;
  - the class `Server`, whose methods run the handlers imperatively against the writer object and the counter, proved equal to those functions.
- `protocol.dfy`: sequences of requests. It covers upload sessions, the counter across sessions, the dead writer, and scenarios.

The writer states are:

- `Idle`: the outer loop.
- `Active(target)`: the inner loop, with the bytes written so far.
- `Completed(image)`: `complete()` succeeded and the device is inside `restart()`. Sends still succeed but are never read.
- `Dead`: the thread has returned and its receiver is dropped, so every send fails.

Each flash call is an input `flashOk`, its success or failure.

## Model

| member | source | states |
|---|---|---|
| Common.AsUsize | src/main.rs:123 | `content_len() as usize` on the 32-bit target: lengths below 2^32 are kept and larger ones shrink |
| Common.WrappingAdd | src/main.rs:184 | `fetch_add` stores the sum when it fits in 32 bits and is otherwise congruent to it modulo 2^32 |
| Common.WrappingAddTwice | src/main.rs:184 | two successive `fetch_add`s equal one `fetch_add` of the sum |
| Text.SplitOnce | src/main.rs:132 | `split_once`: the input is before + pattern + after, the pattern sits at the first occurrence, and the result is `None` exactly when the pattern does not occur |
| Text.FindFrom | src/main.rs:132 | the search behind `split_once` returns the first occurrence at or after a position, or `None` when there is none |
| Text.ParseUsize | src/main.rs:162 | `parse::<usize>`: an optional `+` and at least one digit are required and the value must be at most `usize::MAX`; such input always parses to its value |
| Text.Decimal | src/main.rs:193 | `format!("{total}")` is nonempty, all digits, with no leading zero |
| Text.DecimalValue | src/main.rs:193 | the digits of `format!` denote the number |
| Text.ParseDecimal | src/main.rs:162-193 | the total a chunk reply carries parses back as the same `index` |
| Text.ParseLeadingPlus | src/main.rs:162 | a leading `+` on the index does not change its value |
| Text.ZeroDigits | src/main.rs:162-166 | the index is 0 exactly when its digits are all `0`, so `"000"` also opens a session |
| Writer.Step | src/main.rs:70-103 | one command consumed by the thread: a thread that no longer receives stays as it is; a failed flash call ends a receiving thread; in `Idle` anything but `Start` ends it; the thread returns to `Idle` only by a successful abort; an open update only starts empty from `Idle` or grows by exactly a written chunk; an image is completed only by a successful `Finish` of the open update's bytes |
| Writer.Run | src/main.rs:70-103 | a thread that no longer receives consumes nothing more; a thread that completes an image during the run was sent a successful `Finish` |
| Writer.RunOne | src/main.rs:70-103 | sending one command is one step of the thread |
| Writer.UpdateWriter.constructor | src/main.rs:62-68 | `EspOta::new()?` failing ends the thread before it reads anything; the ready flag starts down |
| Writer.UpdateWriter.RecvStart | src/main.rs:70-73 | `Start` in `Idle` opens an empty update, or ends the thread if `initiate_update` fails; in `Active` it aborts the update and returns to `Idle`, consuming that `Start` |
| Writer.UpdateWriter.RecvChunk | src/main.rs:76-82 | `Chunk` in `Active` appends exactly the payload and raises the flag only after the write succeeds; a failed write ends the thread with the flag unchanged; in `Idle` it ends the thread |
| Writer.UpdateWriter.RecvFinish | src/main.rs:84-88 | `Finish` in `Active` completes the update with its bytes (then restarts); a failure ends the thread; in `Idle` it ends the thread |
| Writer.UpdateWriter.Recv | src/main.rs:70-103 | one command consumed in either loop: the state follows `Step` and the flag rises exactly on a successful write to an open update |
| Writer.RunAppend | src/main.rs:70-103 | consuming two command sequences one after the other is consuming their concatenation |
| Writer.ChunksAppend | src/main.rs:74-82 | successfully written chunks are appended to the open update in order |
| Writer.SessionImage | src/main.rs:70-88 | `Start`, written chunks, `Finish` from `Idle` complete an image equal to the chunks' concatenation |
| Writer.OutOfSessionIsFatal | src/main.rs:99-101 | `Chunk` or `Finish` in `Idle` ends the thread and nothing sent later, not even `Start`, is consumed |
| Writer.RestartWithChunkIsFatal | src/main.rs:90-101 | a `Start` inside a session followed by a `Chunk` ends the thread |
| Writer.AbortDiscards | src/main.rs:90-94 | after an abort and a fresh `Start`, the completed image holds only the new chunks |
| Writer.ActiveCompletes | src/main.rs:70-101 | from an open update, a completed image is the open bytes plus the chunks before `Finish`, or one later whole session |
| Writer.IdleCompletes | src/main.rs:70-101 | from `Idle`, any completed image is the concatenation of the chunks between some `Start` and `Finish` with only successful writes between them |
| Ingress.Boundary | src/main.rs:130-136 | no content type gives no boundary; a boundary found is the text after the first `boundary=`, and the text before it starts with `multipart/form-data` |
| Ingress.WithinLimit | src/main.rs:123-124 | the size guard: a missing length counts as 0, and a length below 2^32 passes exactly when it is at most 4096 |
| Ingress.BoundaryAccepted | src/main.rs:130-136 | a boundary is found exactly when the text before the first `boundary=` starts with `multipart/form-data`; it is the rest of the string verbatim |
| Ingress.BoundaryRejected | src/main.rs:130-136 | no boundary exactly when `boundary=` is absent or the text before its first occurrence does not start with `multipart/form-data` |
| Ingress.LastPart | src/main.rs:146-160 | what the selection keeps for a name is the data of some part with that name; nothing is kept when no part has it |
| Ingress.LastNamedFound | src/main.rs:146-160 | the last part with a name is what the selection picks |
| Ingress.FoundLastNamed | src/main.rs:146-160 | whatever the selection picks is the data of the last part with that name |
| Ingress.LastPartFound | src/main.rs:146-160 | the selected data is `d` exactly when some part is (name, `d`) and no later part has that name |
| Ingress.LastPartMissing | src/main.rs:146-160 | nothing is selected exactly when no part has that name |
| Ingress.SelectParts | src/main.rs:143-160 | the loop leaves `chunk` and `index` holding the last part of each name; other names are ignored |
| Ingress.ParseIndex | src/main.rs:162 | a missing `index` part fails; a parsed index is the value of the part's digits after at most one leading `+` |
| Ingress.CheckChunkRequest | src/main.rs:123-164 | a request is accepted exactly when it passes the size guard, has a boundary, decodes, and has an index that parses; it then carries that index and the last `chunk` part; an oversized request is always rejected with 413, and every other rejection is a missing boundary, an unreadable body or a bad index |
| Ingress.ChunkAfterDecode | src/main.rs:166-195 | from the index check on: `Start` is sent first exactly when the index is 0 and the channel is open; at most `Start` and one `Chunk` of the request's chunk are sent; nothing sent means nothing changed; a 200 reply carries the counter advanced by the chunk's length; any other reply leaves the counter alone |
| Ingress.ChunkRequest | src/main.rs:118-197 | the chunk handler sends something only for a request that passed every check; it sends at most a leading `Start` and a last `Chunk` carrying the request's chunk part |
| Ingress.FinishRequest | src/main.rs:198-219 | the finish handler never touches the counter; it answers `ok` exactly when the size guard passes and the writer's channel is open; it then sends exactly `Finish` and the writer takes that step; otherwise it sends nothing and changes nothing |
| Ingress.CheckChunk | src/main.rs:123-164 | the handler's checks before anything is sent compute `CheckChunkRequest` |
| Ingress.OversizedIsRejected | src/main.rs:123-128 | a length over 4096 gets 413 on both endpoints, sends nothing and changes nothing |
| Ingress.AfterDecodeReplies | src/main.rs:166-195 | after the index check the handler only fails on the channel or a missing chunk, hangs, or answers 200 |
| Ingress.EarlyErrorsChangeNothing | src/main.rs:123-164 | a 413, a bad content type, an unreadable body or a bad index sends nothing and leaves writer and counter unchanged |
| Ingress.NothingSentNothingChanged | src/main.rs:118-197 | a chunk request that sends no command changes nothing |
| Ingress.StartBeforeChunkCheck | src/main.rs:166-172 | index 0 without a chunk sends exactly one `Start`, which the writer consumes, and then fails |
| Ingress.ChunkAcknowledged | src/main.rs:174-195 | a chunk is acknowledged exactly when the writer holds an open update after the optional `Start` and the write succeeds; the update then grows by the chunk, the counter by its length, and the reply is the new total |
| Ingress.CounterOnlyOnAck | src/main.rs:184 | the counter moves only with a 200 acknowledgement |
| Ingress.MismatchIgnored | src/main.rs:186-188 | two different nonzero indices are handled identically: a mismatch is only logged |
| Ingress.HangMeansWriterGone | src/main.rs:177-180 | the handler waits forever exactly when its last command was a `Chunk` and the writer is then dead or restarting; the counter is untouched |
| Ingress.HangAfterDecode | src/main.rs:166-180 | the same from the index check on, in both directions |
| Ingress.SecondStartKillsWriter | src/main.rs:166-175 | an index-0 upload inside a session aborts it and its `Chunk` then ends the writer; the request hangs, or fails if the abort failed |
| Ingress.FinishAlwaysOk | src/main.rs:210-217 | `/firmware/finish` answers `ok` whenever the writer is alive, whatever its state: from `Idle` it ends the writer, and from `Active` it completes the update; the counter is not touched |
| Ingress.Server.constructor | src/main.rs:57-68 | counter 0, flag down, writer idle or dead depending on `EspOta::new()` |
| Ingress.Server.Send | src/main.rs:167 | a send succeeds exactly while the receiver lives; a live receiving writer consumes the command at once |
| Ingress.Server.HandleChecked | src/main.rs:166-195 | the imperative handler from the index check on: its reply, new state and sent commands are those of `ChunkChecked`, and the flag is down again afterwards |
| Ingress.Server.HandleChunk | src/main.rs:118-197 | `POST /firmware/chunk` against the shared objects equals `ChunkRequest` in reply, new writer state, new counter and sent commands |
| Ingress.Server.HandleFinish | src/main.rs:198-219 | `POST /firmware/finish` against the shared objects equals `FinishRequest` |
| Protocol.ServeDecoded | src/main.rs:118-219 | running the handlers on a sequence of requests equals running them on what each request decodes to, because decoding does not depend on the state |
| Protocol.DecodedEarlyReplyFails | src/main.rs:123-164 | every reply given before anything is sent is a 413 or an error |
| Protocol.DeadForever | src/main.rs:99-101 | once the writer has exited, no request changes anything or succeeds, so uploading cannot resume without a reboot |
| Protocol.UploadWithoutStartIsFatal | src/main.rs:166-175 | a nonzero-index upload with no session open ends the writer and hangs |
| Protocol.CounterStep | src/main.rs:184 | one request advances the counter by its chunk length if acknowledged and by nothing otherwise |
| Protocol.CounterAccumulates | src/main.rs:57 | the counter is never reset: after any requests it is its start plus every acknowledged chunk's length, modulo 2^32 |
| Protocol.ContinueSession | src/main.rs:174-195 | in a session every upload with a nonzero index appends its chunk and is answered with the running total |
| Protocol.FullSession | src/main.rs:118-219 | an index-0 upload, further uploads and a finish complete an image equal to the chunks in order; each chunk is answered with the running total and the finish with `ok` |
| Protocol.MatchingIndices | src/main.rs:184-188 | when the first chunk is nonempty, each later upload declares the total acknowledged before it and the total stays below 2^32, a session from counter 0 ends with the counter equal to the image length |
| Protocol.EmptyFirstChunkRestarts | src/main.rs:166-188 | the nonempty first chunk is needed: after an empty index-0 upload the total is still 0, so the next upload declaring it has index 0; its `Start` aborts the update, its `Chunk` ends the writer, and the request waits forever with the counter at 0 |
| Protocol.HandleRuns | src/main.rs:166-212 | one request moves the writer exactly as the thread moves when it receives that request's commands with their flash outcomes |
| Protocol.ServeRuns | src/main.rs:118-219 | serving a sequence of requests moves the writer exactly as the thread moves when it receives all the commands they send, in order |
| Protocol.ServedImageIsSession | src/main.rs:67-219 | whatever requests reach an idle writer, an image it completes is the chunks written between one `Start` and one `Finish` they sent, with only successful writes between them |
| Protocol.ThreeChunkUpload | src/main.rs:118-219 | chunks of 4000, 4000 and 1000 bytes are answered "4000", "8000", "9000", then `ok`, and complete the three chunks in order |
| Protocol.OversizedThenFresh | src/main.rs:123-128 | a 413 changes nothing, so the next index-0 upload opens a fresh session |
| Protocol.AbortByChunklessRequest | src/main.rs:166-172 | an index-0 request without a chunk aborts the open update and leaves the writer idle, so the next index-0 upload starts afresh |

## Left out

- Wi-Fi setup, HTTP server construction, the static page handlers, the LED loop and `mem::forget`: I/O and bootstrap with no state of the upload protocol.
- The multipart decoder is a foreign library. A request carries its decoded parts, or `None` when reading the body or an entry fails. A failed read makes the whole request fail, including an `index` that is not UTF-8. Reading exactly `len` bytes of the body belongs to this decoding step.
- The flash calls (`initiate_update`, `write`, `complete`, `abort`, `EspOta::new`) and `restart()` are foreign. Each call's success is an input. `restart()` is the terminal `Completed` state.
- Threads, the `mpsc` channel, the mutex and the 10 ms busy-wait are sequentialised: every command is consumed as it is sent. A wait that can never end is the `Hang` outcome.
- Protocol.Serve and the other sequence members assume each command is consumed before the next one is sent. Two orders of the real threads are not captured.
  - When `initiate_update` or `abort` fails, the writer may exit only after the same request's `Chunk` was queued. The handler then waits forever instead of failing with a closed channel.
  - `/firmware/finish` replies without waiting for the writer. When its `Finish` ends the thread (`Finish` in the outer loop, or a failing `complete`), the next request's sends may still succeed before the receiver is dropped. A chunk request then waits forever where the model gives `Failed(ChannelClosed)`.
- Protocol.Serve keeps serving requests after a `Hang`. On the device, with the HTTP server's single task, a handler that never returns means no later request is answered. The writer state is still right, because after a `Hang` the writer is already dead or restarting. But the replies the model gives after a `Hang`, such as the failures of Protocol.DeadForever, would never be sent.
- Logging (`dbg!`, `info!`) and the mismatch message are diagnostics. Protocol.MatchingIndices covers only the case where the indices match.
- Errors while writing a response (`into_ok_response`, `write_all`) are not modelled. Such a failure turns a reply into an error after the state has changed. The `ok` of `/firmware/finish` may also be lost to the reboot.
- Common.AsUsize: a content length of 2^32 or more would be truncated. The HTTP server stores the length in a 32-bit `size_t`, so such a length cannot arrive. Ingress.OversizedIsRejected and Ingress.WithinLimit state the guard only below 2^32.
- Text.ParseUsize works on the part's bytes. A non-ASCII index fails as non-digits, the same way `parse` rejects it after UTF-8 decoding.
