# Screen-streaming protocol of `Http.Child` / `Http.Father`, in Dafny

This project models the remote screen-streaming protocol in `src/main/java/Http.java`.
The sender (`Http.Child`) JPEG-encodes screen captures and sends each frame over UDP.
A frame longer than 60 KiB is cut into datagrams of at most 60 KiB.
The receiver (`Http.Father`) puts the frames back together using only the JPEG
start-of-image marker `FF D8` and end-of-image marker `FF D9`.
These markers are defined in ITU-T T.81, Annex B, Table B.1.
The receiver hands each complete buffer to the decoder.
It presents at most one decoded frame per 100 ms.

Files:

- `wire.dfy` (module `Wire`): bytes, the two markers, and concatenation of datagrams.
- `sender.dfy` (module `Sender`): the chunking loop of `sendDataInChunks` and the
  split-or-not choice in `captureAndSend`. It also holds the pacing arithmetic:
  `1000 / frameRate`, nanoseconds to milliseconds, and `max(0, interval - elapsed)`.
  Java's truncating division is written out.
- `receiver.dfy` (module `Receiver`): one iteration of the receive loop.
  - `StartCheck`, `Accumulate` and `Settle` are pure functions, and `Step` is their composition.
  - The presentation gate of `updateImage` is also here.
  - The class `Father` keeps the fields the source changes in place: `imageBuffer`,
    `currentImage`, `lastUpdateTime`, and whether the receive loop still runs.
    Its methods are proved against `Step` and the gate.
- `stream.dfy` (module `Stream`): the two ends together. The sender's chunks of a frame
  are fed in order to the receive loop, and the decoder is a function of the bytes it is handed.

Some inputs are outside the program, so they are parameters:

- Each received datagram is an input.
- The decoder's verdict is an input `DecodeOutcome`: an image, `null`, an `IIOException`,
  or another `IOException`. The last one escapes to the outer `catch` and ends the loop.
- The wall clock (`System.currentTimeMillis`) is an input.
- The elapsed time of a capture cycle (`System.nanoTime` difference) is an input.

Three facts about the code that are easy to misread:

- After a `null` decode the receiver keeps the complete buffer (Http.java:222-225); only an `IIOException` clears it.
- The oversize limit is `60 * 1024` bytes (Http.java:307), although the comments at Http.java:307, 414 and 500 say 64 KB.
- An `IOException` from encoding ends the capture loop: the only catch is outside the `while` (Http.java:423), so no frame is merely skipped.

## Model

| member | source | states |
|---|---|---|
| `Sender.SendDataInChunks` | src/main/java/Http.java:497-513 | The offset loop sends exactly the chunks `Chunks(data)`: they concatenate to `data`, each is non-empty and at most `MAX_PACKET_SIZE`, all but the last are exactly `MAX_PACKET_SIZE`, and there are ceil(L / MAX_PACKET_SIZE) of them |
| `Sender.SendFrame` | src/main/java/Http.java:415-416 | A frame of at most `MAX_PACKET_SIZE` bytes goes out whole as one datagram, the empty frame included; a longer frame goes out as two or more chunks; either way the datagrams concatenate to the frame and none exceeds the limit |
| `Sender.ChunksLossless` | src/main/java/Http.java:501-510 | The chunks, concatenated in order, are the original bytes |
| `Sender.ChunksWellSized` | src/main/java/Http.java:503-506 | Every chunk is non-empty and at most 60 KiB; every chunk but the last is exactly 60 KiB |
| `Sender.ChunksCountIs` | src/main/java/Http.java:501-510 | The loop runs ceil(L / 61440) times, one datagram per iteration |
| `Sender.ChunkAt` | src/main/java/Http.java:502-509 | The i-th chunk is the slice starting at offset i * 61440 and ending at the next multiple of 61440 or at the end of the frame |
| `Sender.ChunksUnique` | src/main/java/Http.java:503-506 | Any split into well-sized chunks that concatenates to the frame is the sender's split: the size rule alone fixes the chunking |
| `Sender.ThreeChunkFrame` | src/main/java/Http.java:501-510 | A 130 KiB frame becomes three datagrams of 60, 60 and 10 KiB that concatenate back to the frame |
| `Sender.FrameInterval` | src/main/java/Http.java:407 | `1000 / frameRate` with truncation: none for a zero rate (division by zero), between 0 and 1000 and the integer quotient for a positive rate, at most 0 for a negative rate |
| `Sender.ToMillis` | src/main/java/Http.java:419-420 | Nanoseconds become whole milliseconds truncated toward zero |
| `Sender.SleepTime` | src/main/java/Http.java:420 | The pause is never negative, is at least `interval - elapsed`, and is either 0 or exactly `interval - elapsed` |
| `Sender.PacingBounds` | src/main/java/Http.java:407-421 | With a positive frame rate and non-negative elapsed time, 0 <= pause <= 1000 / frameRate |
| `Sender.CyclePeriod` | src/main/java/Http.java:419-421 | Work plus pause lasts at least one frame interval, and exactly one interval when the work fitted |
| `Receiver.StartCheck` | src/main/java/Http.java:239-242 | `isImageStart` faults exactly on an empty datagram and on the one-byte datagram `[0xFF]`; otherwise it says whether the datagram begins with `FF D8` |
| `Receiver.Accumulate` | src/main/java/Http.java:209-215 | A datagram beginning with `FF D8` replaces the buffer with a copy of itself; any other datagram is appended, the earlier bytes unchanged; it faults exactly when `isImageStart` does |
| `Receiver.Settle` | src/main/java/Http.java:218-233 | On a complete buffer: an image replaces the current one and empties the buffer; `null` changes nothing; an `IIOException` empties the buffer and keeps the image; another `IOException` ends the loop |
| `Receiver.StartResets` | src/main/java/Http.java:209-210 | A start datagram discards whatever was collected before and the buffer becomes that datagram |
| `Receiver.OtherAppends` | src/main/java/Http.java:211-214 | A non-start datagram is appended to the buffer and the image is unchanged |
| `Receiver.IncompleteNeverDecodes` | src/main/java/Http.java:218 | An incomplete buffer never reaches the decoder: the decoder's verdict does not matter, the image is unchanged and no update happens |
| `Stream.PrefixCompleteIff` | src/main/java/Http.java:247-253 | `isImageComplete` on the bytes of a marker-clean frame collected so far holds exactly when the whole frame has arrived: never on a proper prefix |
| `Receiver.CompleteAfterAppend` | src/main/java/Http.java:211-253 | `[FF, D9]` alone is not complete; after a datagram of two or more bytes is appended to a non-empty buffer, completeness depends only on that datagram's last two bytes |
| `Receiver.Step` | src/main/java/Http.java:204-231 | One iteration of the receive loop body: a stopped loop or an empty datagram changes nothing, the loop never restarts once ended, and the image changes only to the image the decoder returned |
| `Receiver.StepBuffer` | src/main/java/Http.java:209-229 | After one iteration the buffer is empty, unchanged, the datagram alone, or the old buffer followed by the datagram |
| `Receiver.StrayByteStopsStep` | src/main/java/Http.java:206-241 | As written, a datagram `[0xFF]` ends the receive loop and leaves the buffer and the image as they were |
| `Receiver.StepGuarded` | src/main/java/Http.java:206-241 | The corrected iteration, where a datagram too short for the start marker counts as not a start: the loop never restarts, and it ends only when the decoder throws an `IOException` that is not an `IIOException` |
| `Receiver.StepGuardedAgrees` | src/main/java/Http.java:206-214 | The guarded iteration equals the one as written on every datagram but `[0xFF]`, and appends `[0xFF]` instead of stopping |
| `Receiver.Gate` | src/main/java/Http.java:258-261 | The time test of `updateImage`: it presents exactly when at least 100 ms have passed since the last update and then records `now`; the recorded time never moves back, even when the clock does |
| `Receiver.PresentationsSpaced` | src/main/java/Http.java:258-261 | Over any sequence of clock readings, forward or backward, successive presentations are at least 100 ms apart, and every presentation time is a call time |
| `Receiver.AtMostOncePerInterval` | src/main/java/Http.java:129-261 | Two calls less than 100 ms apart present at most once |
| `Receiver.SpacedAllPresent` | src/main/java/Http.java:258-261 | Calls each at least 100 ms after the previous one (the first at least 100 ms after the last update) are all presented: the gate drops nothing that arrives no faster than it allows |
| `Receiver.GateLive` | src/main/java/Http.java:258-261 | A call 100 ms or more after the last presentation presents |
| `Receiver.Father.constructor` | src/main/java/Http.java:125-128 | The receiver starts with an empty buffer, no image and a last update time of 0 |
| `Receiver.Father.UpdateImage` | src/main/java/Http.java:258-261 | Its result and the new `lastUpdateTime` are those of `Gate`: it presents iff at least 100 ms have passed since `lastUpdateTime`, and records `now` exactly when it presents |
| `Receiver.Father.OnDatagram` | src/main/java/Http.java:203-231 | One iteration of the receive loop: the new buffer, image and loop status are those of `Step`; `updateImage` runs exactly when an image was decoded, and presents as the gate says |
| `Stream.Feed` | src/main/java/Http.java:203-232 | The `while (true)` receive loop run over datagrams in order of arrival: it never restarts once ended, and once an image is shown some image stays shown |
| `Stream.FeedStopped` | src/main/java/Http.java:198-233 | Once the receive loop has ended, nothing it is sent changes anything |
| `Stream.FeedChunksPrefix` | src/main/java/Http.java:204-231 | For a marker-clean frame, from any running state: after its first k chunks (not the last), the buffer is exactly the frame's first k * 61440 bytes and the image is untouched; the last chunk hands the whole frame, byte for byte, to the decoder |
| `Stream.FrameDelivered` | src/main/java/Http.java:204-231 | A marker-clean frame sent and received in order, whatever the buffer held before, is decoded exactly once from exactly its own bytes, and a successful decode becomes the current image |
| `Stream.LostTailSuperseded` | src/main/java/Http.java:209-218 | If only a frame's first j chunks arrive, for any j short of all of them, that frame never reaches the decoder and the image is unchanged; the next frame's first chunk discards the leftover bytes, and the next frame is decoded from exactly its own bytes |
| `Stream.StrayByteFreezesReceiver` | src/main/java/Http.java:206-241 | As written, after a datagram `[0xFF]` every later datagram is ignored and the image never changes again |
| `Stream.DefaultPaceMatchesGate` | src/main/java/Http.java:129-421 | At the default 10 frames per second the frame interval equals the 100 ms presentation interval and a capture cycle (work plus pause) never lasts less than that; decoded frames reaching `updateImage` at least one such interval apart are all presented |
| `Stream.SixByteFrame` | src/main/java/Http.java:204-231 | The frame `FF D8 01 02 FF D9` goes out as one datagram and is decoded at once; a successful decode becomes the image and triggers `updateImage` |

## Left out

- UDP sockets, `InetAddress` lookup and packet construction: I/O. Datagrams are byte sequences passed in and returned.
- Delivery over the network: UDP may reorder or drop datagrams. The end-to-end lemmas feed chunks in the order they were sent. Loss is covered only for a frame's tail: every chunk after the first j.
- The send executor: one submitted task sends all chunks of a frame, in order. The tasks of successive frames run on a cached thread pool, so chunks of different frames may interleave on the wire. The model does not capture this interleaving.
- Sender.SendDataInChunks: does not model a failing `socket.send`. The `IOException` is caught outside the `while`, so the frame's remaining chunks are never sent. The receiver then sees only the frame's first j chunks, for whatever j the failure left; `Stream.LostTailSuperseded` covers every such j.
- JPEG encoding and decoding (`ImageIO`, `ImageWriter`, the quality parameter): a foreign library.
  - The decoder's verdict is an input.
  - The end-to-end lemmas assume a marker-clean frame: `FF D8` only at its start and `FF D9` only at its end.
  - The model does not prove that a real JPEG encoder produces such frames.
- Swing and AWT rendering: the `VolatileImage` validate and `contentsLost` retry loop, `invokeLater`, `repaint`, `paintComponent`.
- Floating point: image scaling and centering, the DPI-scaled capture rectangle, and `downsampleImage`.
- Threads and the lock: the model treats each receive-loop iteration as atomic. The source reads `imageBuffer` outside the lock for the completeness check and the decode.
- The endless repetition of the capture loop and `Thread.sleep`: the model covers the arithmetic of one cycle. An `IOException` from encoding (`convertImageToByteArray`), or an `InterruptedException` from the sleep, ends the capture loop in the source; the model does not include it.
- `Child.close`, the HTTP client (`get`, `post`, `sendRequest`) and the other source files: glue over platform APIs.
- `Receiver.Image`: pixels are opaque. Only the identity of the decoded image matters to the protocol.
- Java `long` overflow in `currentTime - lastUpdateTime` and in the pacing arithmetic is not modelled. Integers are unbounded here, and no realistic clock value reaches the limits.
- Runtime exceptions from the decoder other than `IOException` are not modelled.

## Findings

| source | as written | input that shows it | evidently intended | confidence | as-written member | corrected member |
|---|---|---|---|---|---|---|
| src/main/java/Http.java:206-241 | `receiveData` skips only empty datagrams. `isImageStart` then reads byte 1 whenever byte 0 is `0xFF`. On a one-byte datagram this throws `ArrayIndexOutOfBoundsException`. That is not an `IOException`, so it escapes the loop and the receiver thread ends for good. | a single stray datagram `[0xFF]` from any host | a datagram too short to hold the start marker is not a frame start, so it is appended and the loop goes on | medium, not executed | `Stream.StrayByteFreezesReceiver` | `Receiver.StepGuarded` |

`Receiver.Father.OnDatagram` and `Stream` model the loop as written.
`Receiver.StepGuarded` is the corrected iteration, which tests for the start marker only when the datagram is long enough to hold it.
`Receiver.StepGuardedAgrees` proves that it differs from the loop as written only on `[0xFF]`.
The sender never triggers the fault with a real JPEG frame. Its only possible one-byte datagram is a frame's last byte, which is `0xD9`.
