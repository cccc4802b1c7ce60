# Bluetooth oscilloscope link: decoder, double buffer and connection state machine

This project models the core of the Android Bluetooth oscilloscope's
connection object, `BluetoothComm`:

- the wire format: each received byte is a 3-bit tag (`b & 0xE0`) and a
  5-bit payload (`b & 0x1F`); a 10-bit sample is a high byte (tag 0x00)
  followed by a commit byte whose tag chooses the buffer and what happens
  to the cursor (module `Wire`);
- the receive double buffer: two arrays of equal length filled with the
  mid-scale value 512, the selector `active` of the buffer written in
  burst mode, the shared write cursor and the transfer mode, with the
  accessors the renderer polls, which always read buffer `1 - active`
  (module `Buffers`);
- the read worker's decoder, the tag switch applied to every received byte
  with the retained high register (module `Decoder`);
- the connection state machine (NONE = 0, CONNECTING = 2, CONNECTED = 3):
  `connect`, `disconnect`, `write`, `initBuffer`, the outcomes of the
  connect worker and of the read worker, and the messages posted to the
  activity's handler (state change, device name, toast, read complete),
  recorded as a list in posting order (modules `Comm`, `Messages`).

Java exceptions that the modelled code can raise are results, not
preconditions: a store outside the arrays (a commit byte when the buffers
have length 0), a read outside the front buffer, a negative buffer length,
and a null socket or device field. Input bytes are `bv8`. `Wire.JavaWiden`
models Java's sign-extending promotion of a `byte` to `int`, and
`Wire.SignExtensionIsMasked` shows that both masks read the same bits as
they do from the unsigned byte.

Threads are not modelled. Each call and each worker outcome is one atomic
`Comm.Action` on an immutable `Comm.Session`. `connect` only drops its
reference to a previous connect worker (line 108), and the worker keeps
running. So the session counts the connect workers that have not finished
(`pendingConnects`), and a connect outcome can happen only while one is
pending. The read worker's high register belongs to the worker
(`Reader.Reading(high)`): it is 0 when a worker starts and carries over
from one chunk to the next.

Where the code does less than its own comments say, the model follows
the code:
- `connect` is accepted in every state. The comment on line 107 says an
  existing connect thread is stopped, but line 108 only drops the
  reference. The orphaned worker keeps running, and its outcome still
  changes the state.
- `disconnect` is commented "terminate all Thread" (line 123), but lines
  124-126 only drop the reference to a pending connect worker.

The read worker's error path (lines 359-364) posts the toast and sets NONE
without looking at the current state. In the model, `Comm.ReadFailed`
likewise does not depend on the state. It can happen while the read
worker is referenced: from CONNECTED, or from NONE after an orphaned
connect worker has failed. `connect` and `disconnect` drop the read
worker, so in the model no read error follows them (see "## Left out").

## Model

| member | source | states |
|---|---|---|
| Messages.Notice.What | app/src/main/java/com/seiryuan/android/oscilloscope_bt/MainActivity.java:64-68 | each posted message kind has its own handler code (1, 2, 4, 5), and the unused write-echo code 3 is never posted |
| Wire.TagOf | app/src/main/java/com/seiryuan/android/oscilloscope_bt/BluetoothComm.java:318 | the tag's bit pattern is exactly the byte's top three bits, `b & 0xE0` |
| Wire.Payload | app/src/main/java/com/seiryuan/android/oscilloscope_bt/BluetoothComm.java:320 | the payload `b & 0x1F` lies in 0..31 |
| Wire.PayloadIsLowBits | app/src/main/java/com/seiryuan/android/oscilloscope_bt/BluetoothComm.java:320 | the payload `b & 0x1F` is the byte modulo 32 |
| Wire.ByteOf | app/src/main/java/com/seiryuan/android/oscilloscope_bt/BluetoothComm.java:318-320 | a byte built from a tag and a 5-bit payload gives back that tag and that payload |
| Wire.SplitJoin | app/src/main/java/com/seiryuan/android/oscilloscope_bt/BluetoothComm.java:318-320 | splitting a byte into tag and payload loses nothing: rebuilding gives the same byte |
| Wire.Assemble | app/src/main/java/com/seiryuan/android/oscilloscope_bt/BluetoothComm.java:323 | an assembled sample `(high << 5) + low` lies in 0..1023; its upper five bits are the high register and its lower five the payload |
| Wire.EncodeSample | app/src/main/java/com/seiryuan/android/oscilloscope_bt/BluetoothComm.java:319-323 | every sample in 0..1023 can be sent as a high byte and a commit byte that assemble back to it |
| Wire.JavaWiden | app/src/main/java/com/seiryuan/android/oscilloscope_bt/BluetoothComm.java:318 | Java's widening of a signed byte keeps the low eight bits and fills the upper bits with the sign |
| Wire.SignExtensionIsMasked | app/src/main/java/com/seiryuan/android/oscilloscope_bt/BluetoothComm.java:318-320 | both masks give the same result on the sign-extended int as on the unsigned byte |
| Buffers.BufferSet.Store | app/src/main/java/com/seiryuan/android/oscilloscope_bt/BluetoothComm.java:323-349 | a Java array store succeeds exactly for an index inside the chosen array and then changes only that slot, keeping the other array and every other field; outside it raises the index-out-of-range exception |
| Buffers.InitBuffer | app/src/main/java/com/seiryuan/android/oscilloscope_bt/BluetoothComm.java:174-187 | a negative length throws; otherwise two arrays of the given length, every slot 512, selector 0, cursor 0, burst mode |
| Buffers.Initial | app/src/main/java/com/seiryuan/android/oscilloscope_bt/BluetoothComm.java:174-187 | the initial buffer set is well formed, holds only 10-bit samples, all slots 512, selector 0, cursor 0, burst mode |
| Buffers.InitialView | app/src/main/java/com/seiryuan/android/oscilloscope_bt/BluetoothComm.java:194-220 | right after initialisation the accessors report length n, cursor 0, the burst mode code, and 512 at every index; reads outside throw |
| Buffers.BuffData | app/src/main/java/com/seiryuan/android/oscilloscope_bt/BluetoothComm.java:194-196 | the renderer's read succeeds exactly inside the front buffer and returns `buf[1 - active][index]` |
| Buffers.BuffLength | app/src/main/java/com/seiryuan/android/oscilloscope_bt/BluetoothComm.java:202-204 | the reported length is the length of both arrays, and so of the buffer the renderer reads |
| Buffers.BuffIndex | app/src/main/java/com/seiryuan/android/oscilloscope_bt/BluetoothComm.java:210-212 | the reported cursor is non-negative and a readable index of the front buffer unless the buffers are empty |
| Buffers.XferMode | app/src/main/java/com/seiryuan/android/oscilloscope_bt/BluetoothComm.java:218-220 | the mode code is 0 exactly in burst mode and 1 exactly in continuous mode |
| Decoder.Advance | app/src/main/java/com/seiryuan/android/oscilloscope_bt/BluetoothComm.java:324-325 | the cursor after a non-final sample stays inside the buffer: it is the next slot, or 0 exactly when the next slot would be the length |
| Decoder.AdvanceWraps | app/src/main/java/com/seiryuan/android/oscilloscope_bt/BluetoothComm.java:324-325 | the cursor after a non-final sample is `(index + 1) mod length`: the next slot, or 0 past the end |
| Decoder.Step | app/src/main/java/com/seiryuan/android/oscilloscope_bt/BluetoothComm.java:318-357 | one byte keeps the buffers well formed and their length fixed; only a high byte changes the high register; exactly the three end tags post one read-complete message; it throws exactly for a commit byte into empty buffers |
| Decoder.StepHigh | app/src/main/java/com/seiryuan/android/oscilloscope_bt/BluetoothComm.java:319-321 | a high byte loads its payload into the high register and changes nothing else |
| Decoder.StepBurstLow | app/src/main/java/com/seiryuan/android/oscilloscope_bt/BluetoothComm.java:322-327 | 0x20 writes only the back buffer's slot under the cursor; it advances the cursor with wrap and sets burst mode; selector, front buffer, high register and messages are unchanged |
| Decoder.StepBurstEnd | app/src/main/java/com/seiryuan/android/oscilloscope_bt/BluetoothComm.java:328-334 | 0x40 writes the back buffer's slot under the cursor, flips the selector, resets the cursor, sets burst mode and posts one message; the renderer then reads the buffer just written |
| Decoder.StepContinuous | app/src/main/java/com/seiryuan/android/oscilloscope_bt/BluetoothComm.java:335-347 | 0x60 and 0x80 write only the front buffer's slot under the cursor, advance the cursor with wrap, set continuous mode and keep the selector; only 0x80 posts a message |
| Decoder.StepContinuousWrap | app/src/main/java/com/seiryuan/android/oscilloscope_bt/BluetoothComm.java:348-353 | 0xA0 writes the front buffer's slot under the cursor, resets the cursor without swapping, sets continuous mode and posts one message |
| Decoder.StepDiscard | app/src/main/java/com/seiryuan/android/oscilloscope_bt/BluetoothComm.java:354-356 | 0xC0 resets the cursor from any position and changes nothing else: no store, same mode, selector, buffers and high register |
| Decoder.StepUnused | app/src/main/java/com/seiryuan/android/oscilloscope_bt/BluetoothComm.java:318-357 | a 0xE0 byte matches no case and leaves the whole decoder state unchanged |
| Decoder.StepCommit | app/src/main/java/com/seiryuan/android/oscilloscope_bt/BluetoothComm.java:322-353 | every commit byte stores the assembled sample under the cursor of its target buffer (back buffer for burst tags, front buffer for continuous tags) and keeps the high register |
| Decoder.Feed | app/src/main/java/com/seiryuan/android/oscilloscope_bt/BluetoothComm.java:317-357 | decoding a byte sequence keeps the buffers well formed, the length fixed and the high register in five bits, and never throws when the buffers are non-empty |
| Decoder.FeedConcat | app/src/main/java/com/seiryuan/android/oscilloscope_bt/BluetoothComm.java:312-358 | decoding two pieces in a row equals decoding their concatenation, messages included |
| Decoder.FeedEvents | app/src/main/java/com/seiryuan/android/oscilloscope_bt/BluetoothComm.java:328-353 | a run posts only read-complete messages, exactly one per 0x40, 0x80 and 0xA0 byte |
| Decoder.FeedHigh | app/src/main/java/com/seiryuan/android/oscilloscope_bt/BluetoothComm.java:312-320 | after a run the high register holds the payload of the last high byte, or its old value when there was none |
| Decoder.FeedInRange | app/src/main/java/com/seiryuan/android/oscilloscope_bt/BluetoothComm.java:323-349 | decoding keeps every stored value in 0..1023 |
| Decoder.FeedFaults | app/src/main/java/com/seiryuan/android/oscilloscope_bt/BluetoothComm.java:323-349 | a run throws exactly when the buffers are empty and some byte carries a sample: with a positive length no store goes out of bounds |
| Decoder.BurstRun | app/src/main/java/com/seiryuan/android/oscilloscope_bt/BluetoothComm.java:322-327 | a run of 0x20 bytes never throws on non-empty buffers and has the outcome `BurstOutcome` names: the cursor at `(index + count) mod length`, burst mode, and selector, front buffer, high register and messages unchanged |
| Decoder.OverflowWraps | app/src/main/java/com/seiryuan/android/oscilloscope_bt/BluetoothComm.java:324-325 | feeding `length + k` burst samples from cursor 0 leaves the cursor at `k mod length` |
| Decoder.BurstFill | app/src/main/java/com/seiryuan/android/oscilloscope_bt/BluetoothComm.java:322-327 | a run of burst samples that fits stores the i-th sample at slot `index + i` with the retained high part, and every other slot is unchanged |
| Decoder.SampleRoundTrip | app/src/main/java/com/seiryuan/android/oscilloscope_bt/BluetoothComm.java:319-353 | any sample sent as high byte plus commit byte lands unchanged under the cursor of the buffer its tag selects |
| Decoder.ZeroSampleScenario | app/src/main/java/com/seiryuan/android/oscilloscope_bt/BluetoothComm.java:319-327 | bytes 0x00 0x20 store 0 at slot 0 of the back buffer, move the cursor to 1, burst mode, no message |
| Decoder.FullScaleScenario | app/src/main/java/com/seiryuan/android/oscilloscope_bt/BluetoothComm.java:319-334 | bytes 0x1F 0x5F store 1023, swap the buffers, reset the cursor and post one message; the renderer reads 1023 |
| Decoder.DecodeChunk | app/src/main/java/com/seiryuan/android/oscilloscope_bt/BluetoothComm.java:316-358 | the byte-by-byte loop over a received chunk computes the same result as the sequence-level run and never throws on non-empty buffers |
| Comm.Create | app/src/main/java/com/seiryuan/android/oscilloscope_bt/BluetoothComm.java:74-80 | a new session is NONE, with no device, socket, reader, pending connect worker, messages or writes; its buffers are those `initBuffer` builds (every slot 512, selector 0, cursor 0, burst mode); it satisfies the session invariant |
| Comm.GetState | app/src/main/java/com/seiryuan/android/oscilloscope_bt/BluetoothComm.java:95-97 | the returned code is 0, 2 or 3 exactly for NONE, CONNECTING and CONNECTED, and in a reachable session it is the code the last state-change message carried |
| Comm.SetState | app/src/main/java/com/seiryuan/android/oscilloscope_bt/BluetoothComm.java:86-90 | setting a state stores it and posts exactly one message, whose handler code is `MESSAGE_STATE_CHANGE` and which carries the state's code, so the last reported state is the new one; nothing else changes |
| Comm.Connect | app/src/main/java/com/seiryuan/android/oscilloscope_bt/BluetoothComm.java:103-115 | from any state: CONNECTING, the device remembered, the read worker dropped, one more pending connect worker, one state-change message |
| Comm.Disconnect | app/src/main/java/com/seiryuan/android/oscilloscope_bt/BluetoothComm.java:120-141 | from any state: NONE, device and socket cleared, no read worker, one state-change message |
| Comm.Write | app/src/main/java/com/seiryuan/android/oscilloscope_bt/BluetoothComm.java:148-156 | outside CONNECTED a write changes nothing; in CONNECTED with a read worker it appends the bytes to the output stream |
| Comm.WriteGate | app/src/main/java/com/seiryuan/android/oscilloscope_bt/BluetoothComm.java:148-156 | in a reachable session a write never throws; it reaches the output stream if and only if the state is CONNECTED; nothing else changes |
| Comm.InitBuffer | app/src/main/java/com/seiryuan/android/oscilloscope_bt/BluetoothComm.java:174-187 | re-initialising throws exactly for a negative length; otherwise the buffers become two arrays of the given length with every slot 512, selector 0, cursor 0 and burst mode, and nothing else changes |
| Comm.ConnectFailed | app/src/main/java/com/seiryuan/android/oscilloscope_bt/BluetoothComm.java:246-255 | the connect failure path as written throws exactly when the socket field is already cleared; otherwise it closes the socket, posts the toast, then reports NONE |
| Comm.ConnectFailedGuarded | app/src/main/java/com/seiryuan/android/oscilloscope_bt/BluetoothComm.java:246-255 | the null-checked failure path never throws, ends in NONE with the toast and one state change, and agrees with the code whenever the code does not throw |
| Comm.DisconnectDuringConnectCrashes | app/src/main/java/com/seiryuan/android/oscilloscope_bt/BluetoothComm.java:131-139 | after `connect` then `disconnect`, the pending worker's failure path throws on the cleared socket, while the guarded version reports NONE |
| Comm.ConnectSucceeded | app/src/main/java/com/seiryuan/android/oscilloscope_bt/BluetoothComm.java:258-273 | a successful connect starts a read worker whose high register is 0, posts the device name, then reports CONNECTED; it throws exactly when the socket or device field has been cleared |
| Comm.Receive | app/src/main/java/com/seiryuan/android/oscilloscope_bt/BluetoothComm.java:314-358 | decoding a chunk never throws on non-empty buffers, keeps the reader running and the buffer length fixed, and changes only buffers, high register and messages |
| Comm.ReceiveKeepsInv | app/src/main/java/com/seiryuan/android/oscilloscope_bt/BluetoothComm.java:314-358 | decoding a chunk posts no state change and keeps every session invariant |
| Comm.ReadFailed | app/src/main/java/com/seiryuan/android/oscilloscope_bt/BluetoothComm.java:359-364 | a read error posts the connection-lost toast, reports NONE and stops the read loop; nothing else changes |
| Comm.ReadFailureIsFinal | app/src/main/java/com/seiryuan/android/oscilloscope_bt/BluetoothComm.java:359-364 | after a read error the state is NONE and that worker can raise neither another error nor another chunk |
| Comm.Apply | app/src/main/java/com/seiryuan/android/oscilloscope_bt/BluetoothComm.java:103-364 | every action on a reachable session gives a reachable session or a Java exception (a failed connect after `disconnect` throws): CONNECTED implies a running reader, well-formed 10-bit buffers, and the last state-change message tells the current state |
| Comm.ReportsEachTransition | app/src/main/java/com/seiryuan/android/oscilloscope_bt/BluetoothComm.java:86-90 | each transition posts exactly one state-change message, carrying the new state; writes, chunks and buffer resets post none and keep the state |
| Comm.ChunkBoundaries | app/src/main/java/com/seiryuan/android/oscilloscope_bt/BluetoothComm.java:312-320 | the high register carries over between chunks: receiving two chunks in a row equals receiving their concatenation |
| Comm.Run | app/src/main/java/com/seiryuan/android/oscilloscope_bt/BluetoothComm.java:103-364 | any possible sequence of actions from a reachable session ends in a reachable session or in an exception |
| Comm.DisconnectDuringConnectAborts | app/src/main/java/com/seiryuan/android/oscilloscope_bt/BluetoothComm.java:246-255 | the action sequence `connect`, `disconnect`, failed connect is possible from a fresh session and ends in the null-pointer exception |
| Comm.NoReconnectWithoutConnect | app/src/main/java/com/seiryuan/android/oscilloscope_bt/BluetoothComm.java:246-273 | with no connect worker pending and the state not CONNECTED, no sequence without a `connect` call reaches CONNECTED |

## Findings

| source | as written | input that shows it | evidently intended | confidence | as-written member | corrected member |
|---|---|---|---|---|---|---|
| app/src/main/java/com/seiryuan/android/oscilloscope_bt/BluetoothComm.java:246-255 | the connect worker's failure path calls `mSocket.close()` on the shared field | `connect(d)`, then `disconnect()` while the worker is blocked in the socket connect; `disconnect` closes and clears `mSocket`, the blocked connect fails, and the handler dereferences null | close the socket only if the field is non-null, then post the toast and report NONE | medium, not executed | Comm.ConnectFailed, Comm.DisconnectDuringConnectCrashes, Comm.DisconnectDuringConnectAborts | Comm.ConnectFailedGuarded |

`Comm.Apply` and `Comm.Run` model the failure path as written, so a run
can end in this exception. `Comm.ConnectFailedGuarded` is the corrected
path: it never throws, keeps the session invariant, and agrees with the
code on every session where the code does not throw.

## Left out

- Threads and timing: the `Thread` objects, the 750 ms sleep in `cancel()`
  and the unsynchronised `mRunning` flag. A cancelled read worker is
  treated as stopped at once. In the source, `cancel()` only clears the
  loop flag after the sleep, and a worker blocked in `read()` does not see
  it. `disconnect` then closes the socket (line 133), which makes that
  blocked `read()` throw. So after a `disconnect` of a live connection the
  worker usually takes its error path (lines 359-364): it posts a
  "Connection was lost" toast and a second NONE state change. The model
  posts only the one NONE of `disconnect`. When `connect` cancels a live
  read worker, it replaces `mSocket` without closing the old socket, and
  the orphaned worker stays blocked in `read()` on it (line 316). It may
  decode chunks during the sleep and one more after it. If that old link
  drops later, its read throws, and lines 361-362 post "Connection was
  lost" and set NONE, even while a new connection is CONNECTED. The model
  drops the worker at `connect` and allows none of this.
- The unsynchronised sharing of the buffers between the read worker and
  the renderer. The decoder is modelled as the only writer, one byte at a
  time.
- Bluetooth I/O: discovery cancellation, socket creation, the socket
  connect, stream reads and writes, and the SPP UUID. Their outcomes are
  the nondeterministic actions `ConnectFailure`, `ConnectSuccess`,
  `Received(chunk)` and `ReadFailure`. A failing write is only logged in
  the source, so the model records every gated write as sent.
- A failed socket creation in the `ConnectThread` constructor leaves
  `mSocket` null, and `run()` then throws at the socket connect. Socket
  creation is treated as always succeeding.
- Two connect workers started back to back share the one socket field. How
  they interfere is not modelled. Each outcome applies to the session as it
  is at that moment.
- The state after `new BluetoothComm` but before `initBuffer` (a null
  buffer array) is not modelled. `Comm.Create` is the constructor followed
  by `initBuffer`, as the activity's setup calls them.
- A partial `initBuffer` with a negative length is not modelled. In the
  source the length field is assigned before the allocation throws; the
  model leaves the session as it was and returns the exception.
- A stream read that returns -1 at end of stream is the empty chunk.
- `Handler`/`Bundle` messaging is the `notices` list. `getState` is
  `Comm.GetState`. Rendering, the activity, preferences and the GL toolkit
  are outside this model.
