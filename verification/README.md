# scrcpy receiver: a verified model

scrcpy's receiver (`app/src/receiver.c`) runs on the computer side of a
scrcpy session. A worker thread reads device events from the control
socket into a fixed buffer and drains the buffer frame by frame. Each
decoded event goes to `process_event`. A clipboard event stores its text
in a single-slot mailbox, replacing the previous text, and posts an
`EVENT_DEVICE_CLIPBOARD` notification. The main loop then takes the text
with `receiver_consume_device_clipboard`.

The model has five modules:

- `DeviceEvents` (`device_event.dfy`) holds the calling contract of the
  frame decoder `device_event_deserialize`. The decoder is a parameter of
  type `Deserializer`: any function that, on a window of bytes, fails (-1),
  asks for more (0), or decodes one frame of 1 to |window| bytes.
- `Net` (`net.dfy`) models the control socket as a sequence of segments.
  One `net_recv` returns at most the requested number of bytes from the
  first pending segment, or -1 once no data is left before a `Closed`
  segment (the point from which every read returns -1). Every chunking of
  the byte stream is a choice of segments.
- `ReceiverSpec` (`receiver_spec.dfy`) holds the pure specifications:
  - `DrainWindow` is the result of draining one window, and `Explains`
    characterises it independently by where each decode attempt happens.
  - `SlotAfter` and `ClipboardCount` give the mailbox after a run of
    events.
  - `PassEvents`, `HeadAfter`, `ReadsFit` and `NoneFailed` describe the
    worker loop pass by pass.
  - `PendingAfter` follows the worker's reads one `net_recv` at a time, so
    the chunks a run reads are determined by the segments.
  - `Stopped` says what the loop as written has read once it stops.
- `Receiver` (`receiver.dfy`) holds the imperative model:
  - A `Receiver` class with the clipboard slot, a notification counter
    and a ghost log of dispatched events.
  - `process_events` as a loop over an `array` buffer.
  - `run_receiver` exactly as written, with its read, drain and
    `memmove` compaction on the same array.
  - A corrected worker loop (see Findings).
- `PartialFrames` (`partial_frames.dfy`) holds what the Findings row
  rests on:
  - A frame split across two reads is lost by the loop as written.
  - For any streaming decoder whose frames fit the buffer, and any
    chunking of the stream, the corrected loop dispatches exactly the
    events of draining the whole received stream at once.

`DEVICE_EVENT_SERIALIZED_MAX_SIZE` is defined in a header that is not part
of this model. It is the parameter `maxSize` (at least 1) of both worker
loops.

## Model

| member | source | states |
|---|---|---|
| DeviceEvents.Decode | app/src/receiver.c:51-52 | a decode attempt on `buf[head..len)` either fails, asks for more bytes, or yields a frame whose size is between 1 and the bytes available |
| DeviceEvents.ReturnValueRange | app/src/receiver.c:51-58 | the decoder's return value is -1, 0 or within 1..len-head, and it is positive exactly when a frame was decoded |
| Net.Recv | app/src/receiver.c:78-84 | a read returns -1 exactly when no byte is left (never 0, as the `SDL_assert(r)` demands), otherwise 1..max bytes that are a prefix of the remaining stream, with the rest still pending |
| ReceiverSpec.DrainWindow | app/src/receiver.c:49-67 | the drain of one window: decode at `head`, stop on -1 (failed) or 0, otherwise dispatch the frame and go on after it unless it ended at `len` |
| ReceiverSpec.Status | app/src/receiver.c:53-66 | `process_events` returns -1 when the drain failed, else `head`, the bytes its frames consumed |
| ReceiverSpec.EventsOf | app/src/receiver.c:60 | one event is dispatched per decoded frame |
| ReceiverSpec.SizeSumAppend | app/src/receiver.c:62 | advancing `head` by a frame's size adds that size to the bytes consumed |
| ReceiverSpec.DrainBounds | app/src/receiver.c:62-66 | a drain never consumes more than the window (the `SDL_assert(head <= len)`), and it consumes at least one byte once a frame was decoded |
| ReceiverSpec.DrainExplains | app/src/receiver.c:49-67 | every drain is explained by its decode attempts: frame i is what the decoder returns at the end of frames 0..i-1, and the last attempt returned -1 exactly when the drain failed |
| ReceiverSpec.ExplainedIsDrain | app/src/receiver.c:49-67 | conversely, any frames and outcome explained by the decode attempts are the drain, so the drain is determined by the decoder |
| ReceiverSpec.ExplainsCons | app/src/receiver.c:60-66 | a first frame followed by an explained drain of the rest explains the drain of the whole window |
| ReceiverSpec.ExplainsTail | app/src/receiver.c:60-66 | removing a first frame that ends before the window leaves an explained drain of the rest |
| ReceiverSpec.ExplainedFirstFrame | app/src/receiver.c:51-52 | the first frame of an explained drain is what the decoder returns on the whole window |
| ReceiverSpec.ExplainedWholeWindow | app/src/receiver.c:64-66 | a first frame that fills the window is the only frame, and the drain did not fail |
| ReceiverSpec.DecodedInOrderAppend | app/src/receiver.c:51-62 | the frames the loop has dispatched stay decoded in order when it decodes one more where they end |
| ReceiverSpec.DecodedInOrderFrames | app/src/receiver.c:49-67 | frames decoded in order lie in the window and are what the decoder returns at their offsets |
| ReceiverSpec.InOrderIsDrain | app/src/receiver.c:53-66 | where the loop stops (error, incomplete frame, or `head == len`), the frames it dispatched and its result are the drain of the window |
| ReceiverSpec.SlotAfter | app/src/receiver.c:29-43 | the slot after a run of events: the text of the last clipboard event, or what it held before when there is none |
| ReceiverSpec.ClipboardCount | app/src/receiver.c:37-40 | one notification per clipboard event in a run |
| ReceiverSpec.SlotAfterConcat | app/src/receiver.c:29-43 | dispatching a then b leaves the slot as dispatching a + b |
| ReceiverSpec.ClipboardCountConcat | app/src/receiver.c:37-40 | notifications add up over consecutive runs of events |
| ReceiverSpec.LastWriteWins | app/src/receiver.c:34 | the slot holds the text of the last clipboard event, whatever it held before |
| ReceiverSpec.NoClipboardKeepsSlot | app/src/receiver.c:30-42 | events without a clipboard event leave the slot unchanged and post nothing |
| ReceiverSpec.Flatten | app/src/receiver.c:78-79 | the bytes of a run of reads, in order |
| ReceiverSpec.PassEvents | app/src/receiver.c:86 | the events of a run of passes: each pass dispatches those of draining its own read's bytes |
| ReceiverSpec.HeadAfter | app/src/receiver.c:92-96 | `head` after a run of passes: a pass that consumed something sets it to r - consumed, any other pass leaves it alone |
| ReceiverSpec.PendingAfter | app/src/receiver.c:77-84 | the segments still pending after a run of reads, each asking for MAX - head bytes with `head` as the passes before it left it, or None when the chunks are not what those reads return |
| ReceiverSpec.PendingAfterRead | app/src/receiver.c:78-79 | a run of reads goes on with exactly what `net_recv` returns on the pending segments |
| ReceiverSpec.PendingAfterPrefix | app/src/receiver.c:77-79 | every prefix of a run of reads is a run of reads |
| ReceiverSpec.ReadsDeterministic | app/src/receiver.c:77-96 | the reads are determined by the segments: of two runs on the same stream, the shorter is a prefix of the longer |
| ReceiverSpec.ReadAfterEnd | app/src/receiver.c:78-84 | once the stream is used up no read returns data: `net_recv` gives -1 and the loop stops |
| ReceiverSpec.PendingConserves | app/src/receiver.c:78-79 | the reads take the stream in order: their bytes followed by what is pending are the whole stream |
| ReceiverSpec.PendingReadsFit | app/src/receiver.c:78-79 | every read of a run brings at least one byte and at most MAX - head |
| ReceiverSpec.StoppedAtEnd | app/src/receiver.c:81-84 | a loop stopped by a -1 read has read the whole stream with reads that fit, and no pass failed |
| ReceiverSpec.StoppedOnError | app/src/receiver.c:86-90 | a loop stopped by a failed pass has read a prefix of the stream with reads that fit, and only its last pass failed |
| ReceiverSpec.RunStep | app/src/receiver.c:78-96 | a pass on a read that returned data extends the run of reads with exactly that read, adds the events of draining its bytes, and, unless the drain failed, keeps the run error-free and sets `head` to r - consumed (or leaves it) below MAX |
| ReceiverSpec.HeadBelowCapacity | app/src/receiver.c:78-79 | `head` stays below the buffer size, so the next read always asks for at least one byte |
| Receiver.Receiver.constructor | app/src/receiver.c:12-20 | after init the socket is the given one, the slot is empty and nothing was posted |
| Receiver.Receiver.Destroy | app/src/receiver.c:22-26 | destroy releases the string still in the slot, leaving it empty |
| Receiver.Receiver.ProcessEvent | app/src/receiver.c:28-43 | a clipboard event overwrites the slot with its text and posts one notification; any other event is ignored; the event is logged after the earlier ones |
| Receiver.Receiver.ProcessEvents | app/src/receiver.c:45-68 | returns -1 on a decode error, else the bytes consumed (0..len); the result and the events dispatched, in order and one per frame, are those of the drain of `buf[0..len)`; the slot and counter are the mailbox after those events |
| Receiver.Receiver.ConsumeDeviceClipboard | app/src/receiver.c:120-130 | returns the slot's value and leaves the slot empty |
| Receiver.Receiver.ReadAndDrain | app/src/receiver.c:78-96 | one pass as written: the read lands at offset 0, exactly the r bytes it returned are drained, and when the pass consumed something, buf[consumed..r) moves to the front and `head` becomes r - consumed; the buffer past r is untouched |
| Receiver.Receiver.RunReceiver | app/src/receiver.c:70-100 | as written, the loop returns 0 and stops exactly on a read of -1 or a failed pass; the chunks it read are the successive `net_recv` results on the stream, each asking for MAX - head bytes; they are the whole stream unless the last pass failed, and no earlier pass failed; the events dispatched are, pass by pass, those of draining each read's own bytes |
| Receiver.Receiver.DeliveredConcat | app/src/receiver.c:28-43 | dispatching events and then more leaves the log, slot and counter as dispatching both runs at once |
| Receiver.Receiver.ReadDrainCompact | app/src/receiver.c:78-96 | corrected pass: the read lands after the `head` pending bytes, the whole window of head + r bytes is drained, and what it leaves undecoded moves to the front and becomes the new head |
| Receiver.Receiver.RunReceiverFixed | app/src/receiver.c:70-100 | corrected loop: for a streaming decoder whose frames fit the buffer, it returns 0 after reading the whole stream or hitting a decode error; the events dispatched are those of draining every byte received at once, whatever the chunking |
| Receiver.ClipboardHandOff | app/src/receiver.c:28-43 | two clipboard updates before a take: the take gets the later text, a second take gets nothing, two notifications were posted |
| Receiver.SplitClipboardLost | app/src/receiver.c:78-86 | the loop as written, run on a clipboard frame split over two reads, leaves the slot empty |
| Receiver.SplitClipboardDelivered | app/src/receiver.c:78-86 | with the corrected loop, a clipboard frame split over two reads reaches the slot |
| Receiver.Receive | app/src/receiver.c:78-79 | a read into offset 0 overwrites buf[0..r) with the bytes received and nothing else |
| Receiver.ReceiveAt | app/src/receiver.c:78-79 | a read after the head bytes keeps them and appends the bytes received |
| Receiver.ShiftRemaining | app/src/receiver.c:92-96 | when something was consumed, buf[consumed..r) moves to the front and `head` becomes r - consumed; otherwise neither changes |
| Receiver.MoveDown | app/src/receiver.c:94 | the forward `memmove` copies buf[from..from+count) to the front and leaves the rest of the buffer alone |
| PartialFrames.DrainExtends | app/src/receiver.c:86 | with a streaming decoder, the drain of u + x is the drain of u followed by the drain of its undecoded tail plus x |
| PartialFrames.PassExtends | app/src/receiver.c:86 | one corrected pass extends the drain of everything received by the drain of the pending bytes plus the new ones |
| PartialFrames.PendingFits | app/src/receiver.c:78-79 | when frames fit the buffer, a pass that did not fail leaves fewer than MAX bytes pending, so the next read asks for at least one |
| PartialFrames.SplitFrameReads | app/src/receiver.c:77-96 | on the stream [1] then [2], the only run of the loop as written that stops reads [1] and then [2] |
| PartialFrames.SplitFrameIsLost | app/src/receiver.c:78-86 | as written, a 2-byte frame read as two 1-byte chunks is never dispatched, although draining the same bytes at once yields it |

## Left out

- The mutex around the slot is not modelled: `SDL_CreateMutex`, `mutex_lock` and `mutex_unlock`. The worker thread and concurrent takes are not modelled either. The slot's swap and take are each one atomic step.
- `receiver_init` failing when the mutex cannot be created is not modelled, since the mutex is not modelled.
- `receiver_start` and `receiver_join` are thread management and are not modelled.
- `SDL_PushEvent` is modelled only as the `notifications` counter.
- `net_recv` is modelled as the `segments` parameter: which bytes arrive in which read is the caller's choice. The socket handle is kept but never dereferenced.
- `device_event.c`, where the decoder lives, is not part of this model. Only the decoder's calling contract is kept. Its wire format, and the length of the text it allocates, are not modelled.
- Memory ownership is not modelled:
  - `SDL_strdup` returning NULL is not modelled.
  - The freeing in `receiver_destroy` is modelled only as the slot becoming empty.
- Logging (`LOGD`) is not modelled.
- ProcessEvents: a decode result beyond len - head is ruled out by the decoder contract, so the `SDL_assert(head <= len)` on line 63 is proved rather than checked.
- RunReceiver: a read of 0 bytes is ruled out by `Net.WellFormed`, which matches the `SDL_assert(r)` on line 80.
- A `net_recv` that returns 0 (the end of the stream) is not modelled. In the code the `SDL_assert(r)` on line 80 fails on it; with assertions compiled out, `process_events(buf, 0)` runs and the loop reads again.
- The code does not free the old string when it overwrites the slot (line 34). It also reads at offset 0, not after the bytes kept from the previous pass (line 78). The model follows the code; the second point is the finding below.

## Findings

| source | as written | input that shows it | evidently intended | confidence | as-written member | corrected member |
|---|---|---|---|---|---|---|
| app/src/receiver.c:78-86 | `run_receiver` keeps the undecoded tail of a pass at the start of `buf` and sets `head` to its length. The next `net_recv` then writes at `buf`, not `buf + head`, and `process_events` drains only the `r` new bytes, so the kept tail is overwritten and a frame split across reads is lost. `head` only shortens the next read. | A decoder with 2-byte clipboard frames, and the frame [1, 2] arriving as two 1-byte segments: neither pass decodes anything, and the clipboard event is never dispatched. | Read into `buf + head` and drain `head + r` bytes. The events dispatched are then those of draining the whole stream, however it is chunked. | not executed | Receiver.SplitClipboardLost | Receiver.Receiver.RunReceiverFixed |
