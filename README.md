# OSS-7 modem driver — a Dafny model

This project models the host side of the OSS-7 serial modem driver. The host drives a DASH7 /
LoRaWAN modem over a UART. The model has two layers.

**The serial transport** (`drivers/oss7_modem/modem_interface.c`):

- Frames go out with a 7-byte header: sync byte `0xC0`, version `0`, an 8-bit up-counter, the
  message type, the payload length, and the CRC-16 of the payload, high byte first.
- Received bytes are queued in a 256-byte receive FIFO.
- A two-phase parser works on that FIFO. The header search drops one byte on a wrong sync or
  version byte. The payload phase then checks the down-counter and the CRC.
- Checked payloads are dispatched to the handler registered for their type (ALP data, ping
  response, logging). A ping request is answered.

**The command engine** (`drivers/oss7_modem/modem.c`):

- There is a single in-flight command, tagged with an 8-bit wrapping tag.
- Its body is a list of ALP actions. The body is sent as one ALP frame.
- `process_serial_frame` decodes inbound ALP frames. It matches tag responses against the
  command's tag. It routes file data to the caller's buffer (synchronous commands) or to
  callbacks (asynchronous ones). It finishes the command when a matching tag response says
  completed.
- The blocking wait of a synchronous command ends either signalled or timed out.

Layout:

| file | contents |
|---|---|
| `bytes.dfy` | `uint8`/`uint16`/`uint32`, 8-bit increment, CRC byte split, `Option` for a pointer that may be NULL |
| `framing.dfy` | wire constants, `Header`, `Frame`, the CRC check of a header |
| `modem_interface.dfy` | the transport state as a value (`Link`) with `Transmit` and `RxStep`, and the class `ModemInterface` proved against them |
| `rx_properties.dfy` | lemmas on the transport: transmit, each parser phase, dispatch, resynchronisation, a frame's round trip |
| `alp.dfy` | ALP actions as abstract values, session configurations |
| `command_spec.dfy` | the command record and the engine as functions: `Alloc`, `ApplyAll`/`FrameEffect`, `Wait`, the pointer-validity condition `FrameSafe`, with reference definitions |
| `modem.dfy` | the class `Modem` (the driver's globals and public operations), proved against `command_spec.dfy` |
| `modem_properties.dfy` | lemmas on the engine: tag matching, data routing, completion, slot lifecycle, correlation |
| `scenarios.dfy` | end-to-end runs on fresh objects |

Every state-changing method of the two classes ensures that the new state is a specification
function applied to the old state. The lemmas state what those functions promise.

Two behaviours of the code shape what a caller sees:

- **A timed-out command keeps the slot.** `block_until_cmd_completed` clears `is_active` only
  when signalled. After `MODEM_STATUS_COMMAND_TIMEOUT`, every new command is refused with
  `MODEM_STATUS_BUSY`. The slot is freed only by `modem_reinit` or by a later frame that
  completes the command (`ModemProperties.SlotStaysTaken`, `Scenarios.TimeoutThenReinit`).
- **A CRC failure consumes nothing.** The parser goes back to header search over the same bytes,
  so a frame with a bad CRC is resynchronised byte by byte (`RxProperties.PayloadPhase`).

Other code-level behaviours the model keeps:

- The header search needs strictly more than 7 buffered bytes. So a frame with an empty payload
  is parsed only once one more byte has arrived.
- The command FIFO's size is passed as an 8-bit length. So only the first (size mod 256) bytes
  of a command body are sent (`ModemDriver.Wire`).
- `modem_send_unsolicited_response` does not set the response buffer. It keeps the previous
  command's pointer.
- `process_serial_frame` dereferences the callback pointer and the response buffer without a
  check. The callback pointer is NULL until `modem_cb_init`, and the response buffer is NULL
  until the first `modem_read_file`. `ProcessSerialFrame` therefore requires `FrameSafe`: no
  callback test without a callback table, and every synchronous file-data copy fits the
  caller's buffer.

## Model

| member | source | states |
|---|---|---|
| Bytes.Inc8 | drivers/oss7_modem/modem_interface.c:226 | an 8-bit counter increment wraps from 255 to 0 and is +1 otherwise |
| Bytes.BytesDetermineWord | drivers/oss7_modem/modem_interface.c:241 | comparing both CRC bytes is the same as comparing the 16-bit CRCs |
| Framing.Header | drivers/oss7_modem/modem_interface.c:418-425 | a frame header is exactly 7 bytes |
| Framing.Frame | drivers/oss7_modem/modem_interface.c:412-436 | a frame is 7 + length bytes: the header with the payload's CRC, then the payload |
| Framing.CrcMatchesIffEqual | drivers/oss7_modem/modem_interface.c:239-248 | the receive-side CRC check accepts a header exactly when its stored CRC is the payload's CRC |
| ModemInterface.Clamp | drivers/oss7_modem/modem_interface.c:293-315 | a handler consumes at most the payload view and at most what it asks for |
| ModemInterface.Transmit | drivers/oss7_modem/modem_interface.c:412-444 | a transfer increments the up-counter mod 256 and changes only it and the UART output; the whole frame goes out if it fits the 255-byte TX FIFO, otherwise only the header |
| ModemInterface.Dispatch | drivers/oss7_modem/modem_interface.c:298-315 | a dispatched payload never consumes more than the payload view |
| ModemInterface.RxStep | drivers/oss7_modem/modem_interface.c:259-327 | one parser pass keeps the transport invariant (header of 7, FIFO within 256, payload length tied to the parsed header); the up-counter moves only when a ping request is answered |
| ModemInterface.ModemInterface.constructor | drivers/oss7_modem/modem_interface.c:373-410 | the transport starts with empty FIFOs, zero counters and no handler |
| ModemInterface.ModemInterface.UartRxCb | drivers/oss7_modem/modem_interface.c:331-339 | a received byte is appended to the receive FIFO, which must not be full |
| ModemInterface.ModemInterface.PutTx | drivers/oss7_modem/modem_interface.c:434-435 | a put into the transmit FIFO stores all the data if it fits and nothing otherwise |
| ModemInterface.ModemInterface.FlushTx | drivers/oss7_modem/modem_interface.c:119-127 | flushing writes the whole transmit FIFO to the UART in order and empties it |
| ModemInterface.ModemInterface.TransferBytes | drivers/oss7_modem/modem_interface.c:412-444 | the new transport state is `Transmit` of the old one |
| ModemInterface.Register | drivers/oss7_modem/modem_interface.c:451-463 | registering fills only the slot of its message type, replacing what was there; other types and every other field are unchanged |
| ModemInterface.ModemInterface.Transfer | drivers/oss7_modem/modem_interface.c:446-448 | a logging message, a C string with no zero byte before its terminator, is sent with its length taken mod 256 |
| ModemInterface.ModemInterface.VerifyPayload | drivers/oss7_modem/modem_interface.c:220-249 | the down-counter becomes the header's counter; a gap is reported exactly when the counter is not the successor; the result is true exactly when both CRC bytes match |
| ModemInterface.ModemInterface.ProcessRxFifo | drivers/oss7_modem/modem_interface.c:259-327 | the new transport state and the event are `RxStep` of the old state |
| ModemInterface.ModemInterface.SearchHeader | drivers/oss7_modem/modem_interface.c:261-284 | the header-search branch leaves the state and event at `RxStep` of the old state |
| ModemInterface.ModemInterface.ParsePayload | drivers/oss7_modem/modem_interface.c:285-326 | the payload branch leaves the state and event at `RxStep` of the old state |
| ModemInterface.ModemInterface.DispatchPayload | drivers/oss7_modem/modem_interface.c:296-315 | the state, consumed count and verdict of a checked payload's dispatch are `Dispatch` of the old state |
| ModemInterface.ModemInterface.RegisterHandler | drivers/oss7_modem/modem_interface.c:451-463 | the new transport state is `Register` of the old one |
| RxProperties.TransmitAppendsFrame | drivers/oss7_modem/modem_interface.c:412-436 | a transfer that fits appends exactly sync, version, new counter, type, length, CRC high and low, then the payload; nothing on the receive side changes |
| RxProperties.TransmitCrcCoversPayloadOnly | drivers/oss7_modem/modem_interface.c:415-424 | two payloads of equal length and CRC get identical headers, whether or not they fit the transmit FIFO |
| RxProperties.HeaderSearch | drivers/oss7_modem/modem_interface.c:261-284 | with at most 7 bytes nothing happens; a wrong sync or version byte drops exactly one byte; a right one consumes 7 bytes and records the length byte |
| RxProperties.PayloadPhase | drivers/oss7_modem/modem_interface.c:285-326 | nothing happens until the payload has arrived; then the parser returns to header search, the down-counter resynchronises, the CRC verdict is exact, a CRC failure consumes nothing, a success consumes at most the payload |
| RxProperties.DispatchRules | drivers/oss7_modem/modem_interface.c:296-315 | ALP payloads go whole to the ALP handler; ping-response and logging handlers consume what they take; a ping request consumes one byte and is answered with a ping-response frame [0x02]; other or unregistered types skip the payload |
| RxProperties.RxSteps | drivers/oss7_modem/modem_interface.c:358-370 | any number of worker passes keeps the transport invariant |
| RxProperties.ResyncSkipsGarbage | drivers/oss7_modem/modem_interface.c:263-277 | garbage in which no header starts is dropped byte by byte, one pass per byte, leaving exactly the rest |
| RxProperties.TwoPassParse | drivers/oss7_modem/modem_interface.c:259-327 | a buffered frame is parsed in two passes; the check fails exactly when the stored CRC is wrong, and then the payload stays; an ALP frame otherwise goes whole to the ALP handler; the gap flag and the down-counter follow the frame's counter |
| RxProperties.TransmittedFrameIsDelivered | drivers/oss7_modem/modem_interface.c:412-444 | a frame one side transmits is parsed by the other with a valid CRC and the sender's counter, and an ALP payload is delivered exactly |
| Alp.ForwardFor | drivers/oss7_modem/modem.c:219-224 | a forward action is added for DASH7, LoRaWAN OTAA and LoRaWAN ABP sessions, at most one, and none for other interface types |
| CommandSpec.Overwrite | drivers/oss7_modem/modem.c:81-82 | copying file data overwrites the first bytes of the caller's buffer with the data and keeps the rest |
| CommandSpec.Alloc | drivers/oss7_modem/modem.c:142-158 | allocation succeeds exactly when no command is active; on failure nothing changes; on success the command is active, asynchronous, error-free, tagged with the next tag, holds a tag request for it and keeps the response buffer pointer, and the next tag advances mod 256 |
| CommandSpec.Apply | drivers/oss7_modem/modem.c:63-100 | one decoded action changes at most the completion flag, the error flag and the caller's buffer and appends at most one event; a tag response for another tag changes nothing |
| CommandSpec.ApplyAll | drivers/oss7_modem/modem.c:59-101 | the decode loop never changes the command's tag, activity, mode or body and only appends events |
| CommandSpec.Complete | drivers/oss7_modem/modem.c:104-115 | the end of a frame changes only is_active, which is cleared exactly when the frame completed the command, and appends at most one event, none without completion |
| CommandSpec.FrameEffect | drivers/oss7_modem/modem.c:57-116 | a frame keeps the command's tag, mode and body, never activates a command and only appends events |
| CommandSpec.Wait | drivers/oss7_modem/modem.c:160-175 | the wait reports TIMEOUT exactly when not signalled, and then changes nothing; signalled it frees the slot and reports COMPLETED_ERROR exactly when the error flag is set, else COMPLETED_SUCCESS |
| CommandSpec.MatchingTags | drivers/oss7_modem/modem.c:64-67 | the matching tag responses all carry the command's tag |
| ModemDriver.EncodeBody | drivers/oss7_modem/modem.c:152-156 | an empty command body encodes to no bytes |
| ModemDriver.EncodeBodyAppend | drivers/oss7_modem/modem.c:152-156 | encoding distributes over concatenation, so appending actions to the command FIFO one at a time (as at lines 156, 178, 207 and 219-226) yields the encoding of the whole body |
| ModemDriver.EmptyFrameChangesNothing | drivers/oss7_modem/modem.c:57-59 | a zero-length ALP frame decodes to no action, so it completes no command and raises no event |
| ModemDriver.Wire | drivers/oss7_modem/modem.c:179 | the bytes sent for a command are the first (size mod 256) bytes of its encoded body |
| ModemDriver.Modem.constructor | drivers/oss7_modem/modem.c:123-127 | modem_init starts the transport and registers process_serial_frame for ALP frames; the callback pointer is NULL and the command record zeroed, with a NULL (empty) response buffer |
| ModemDriver.Modem.CbInit | drivers/oss7_modem/modem.c:118-121 | the given callback table becomes the installed one |
| ModemDriver.Modem.Reinit | drivers/oss7_modem/modem.c:129-131 | the command slot is freed and nothing else changes |
| ModemDriver.Modem.SendPing | drivers/oss7_modem/modem.c:133-136 | a ping request with payload [0x01] is transmitted |
| ModemDriver.Modem.ExecuteRawAlp | drivers/oss7_modem/modem.c:138-140 | the caller's ALP bytes are transmitted unchanged as an ALP frame |
| ModemDriver.Modem.AllocCommand | drivers/oss7_modem/modem.c:142-158 | the result, command and next tag are `Alloc` of the old command and tag |
| ModemDriver.Modem.SendBody | drivers/oss7_modem/modem.c:209 | the command's encoded body goes out as one ALP frame |
| ModemDriver.Modem.SendReadFile | drivers/oss7_modem/modem.c:177-180 | a read-file-data action is appended and the body is transmitted |
| ModemDriver.Modem.ReadFileAsync | drivers/oss7_modem/modem.c:183-189 | BUSY with nothing changed while a command is active, otherwise PROCESSING with the read sent under a fresh tag |
| ModemDriver.Modem.BeginReadFile | drivers/oss7_modem/modem.c:191-198 | a synchronous read command is allocated with the caller's buffer as response buffer and is sent, or BUSY is reported with nothing changed |
| ModemDriver.Modem.BlockUntilCmdCompleted | drivers/oss7_modem/modem.c:160-175 | the status and command are `Wait` of the old command: signalled frees the slot and reports success or error; a timeout reports TIMEOUT and keeps the slot |
| ModemDriver.Modem.ReadFile | drivers/oss7_modem/modem.c:191-200 | BUSY with nothing changed and nothing sent when a command is active; otherwise the outcome of waiting on the synchronous read command [tag request, read file data] it sent |
| ModemDriver.Modem.WriteFileAsync | drivers/oss7_modem/modem.c:203-212 | BUSY with nothing changed while a command is active, otherwise PROCESSING with the write sent under a fresh tag |
| ModemDriver.Modem.BeginUnsolicitedResponse | drivers/oss7_modem/modem.c:214-229 | a synchronous command [tag request, forward for the session, return file data] is allocated and sent, the response buffer untouched, or BUSY with nothing changed |
| ModemDriver.Modem.SendUnsolicitedResponse | drivers/oss7_modem/modem.c:214-231 | BUSY with nothing changed and nothing sent when a command is active; otherwise the outcome of waiting on the unsolicited-response command it sent |
| ModemDriver.Modem.ProcessSerialFrame | drivers/oss7_modem/modem.c:57-116 | on a frame whose actions are all handled and whose pointer accesses are valid (`FrameSafe`), the decode loop leaves the command and event log at `FrameEffect` of the old ones under the installed callback table |
| ModemDriver.Modem.FinishCommand | drivers/oss7_modem/modem.c:104-115 | the end of the frame is `Complete`: the callback pointer is dereferenced only to finish an asynchronous command |
| ModemDriver.Modem.RxWorkerStep | drivers/oss7_modem/modem_interface.c:358-370 | a worker pass is `RxStep`, and a dispatched ALP payload is handled by process_serial_frame (an empty one decodes to no action); otherwise the command is untouched. Only the payload this pass dispatches must meet process_serial_frame's precondition |
| ModemProperties.DecodeTagMatching | drivers/oss7_modem/modem.c:58-69 | decoding never changes the tag, activity, mode or body; the completion and error flags are those of the last tag response with the command's tag, unchanged if there is none |
| ModemProperties.DecodeDataRouting | drivers/oss7_modem/modem.c:73-90 | decoding appends exactly the frame's file-data callbacks to the events, and copies return-file-data into the buffer only for a synchronous command |
| ModemProperties.DeliveriesRouting | drivers/oss7_modem/modem.c:73-90 | no return-file-data callback fires in synchronous mode or when unset; every write-file-data fires its callback when set, never when unset |
| ModemProperties.FrameCompletion | drivers/oss7_modem/modem.c:57-116 | a frame completes the command exactly when its last matching tag response says completed; completion releases the waiter (sync) or calls the completion callback with the error flag (async, when set), and clears is_active |
| ModemProperties.NoMatchingTags | drivers/oss7_modem/modem.c:64-71 | a frame without tag responses for a tag has no matches for it |
| ModemProperties.ForeignTagsLeaveCommand | drivers/oss7_modem/modem.c:64-71 | tag responses for other tags change neither is_active nor the error flag and complete nothing |
| ModemProperties.TimeoutKeepsSlot | drivers/oss7_modem/modem.c:142-175 | after a timed-out wait on an active command, allocation still answers BUSY |
| ModemProperties.SlotStaysTaken | drivers/oss7_modem/modem.c:103-115 | after any series of frames none of which completes the command, it is still active with its tag and allocation fails |
| ModemProperties.Correlation | drivers/oss7_modem/modem.c:57-158 | a command allocated with tag N is completed by a completed tag response for N, with one completion callback, and the next allocation gets N + 1; a response for another tag changes nothing |
| Scenarios.SyncRead | drivers/oss7_modem/modem.c:191-200 | a synchronous 8-byte read answered with the data and a completed tag response succeeds, fills the caller's buffer with the data and releases the waiter once |
| Scenarios.TimeoutThenReinit | drivers/oss7_modem/modem.c:129-212 | after a read times out the next command is BUSY; after modem_reinit it is accepted with tag 1 |
| Scenarios.Receive | drivers/oss7_modem/modem_interface.c:331-339 | a burst of received bytes joins the receive FIFO in order and nothing else changes |
| Scenarios.StartWrite | drivers/oss7_modem/modem.c:203-212 | after modem_init and modem_write_file_async the write is in flight under tag 0, asynchronous, with nothing received |
| Scenarios.WriteCompletedOverTheWire | drivers/oss7_modem/modem_interface.c:259-339 | a completing ALP frame fed byte by byte is found, checked without gap, dispatched whole, and completes the asynchronous write with one callback |

## Left out

- The CRC algorithm: `crc.h` is not part of this model. The CRC is a parameter (`CrcFn`) of the transport.
- The ALP encoder and decoder: the ALP library is not part of this model. Actions are abstract values. Encoding is a parameter of the modem, and so is decoding of an inbound payload.
- The byte layout of `session_config_t` and of the action operands: kept as opaque byte sequences.
- The message type codes (1 ALP data, 2 ping request, 3 ping response, 4 logging) come from `modem_interface.h`, which is not part of this model.
- Threads, mutexes and timers: the receive thread is a sequence of `RxWorkerStep` calls. The blocking wait is split at its wait into `Begin…` and `BlockUntilCmdCompleted`, and whether the wait ended signalled or timed out is a parameter. `CMD_TIMEOUT_MS` has no counterpart.
- RxProperties.ResyncSkipsGarbage: counts worker passes, not the time between them. Passes are not tied to mutex wake-ups. In the firmware, `process_rx_fifo` locks `rx_mutex` a second time after skipping a byte while more than 7 bytes stay buffered (modem_interface.c:273-274). The worker then blocks until `uart_rx_cb` unlocks it on the next received byte. So the garbage is dropped one byte per pass only as long as new bytes keep arriving. The self-unlocks at lines 282 and 324-325 are not modelled either.
- ModemInterface.ModemInterface.PutTx: assumes `fifo_put` (fifo.h, not part of this model) is all-or-nothing. Under that assumption a payload longer than 248 bytes goes out as a bare header, because header and payload do not fit the 255-byte transmit FIFO together.
- ModemInterface.Dispatch: assumes `fifo_skip` (fifo.h) refuses to skip more than the view holds. So the one-byte skip for a ping request with an empty payload skips nothing (`Clamp(1, |view|)`).
- ModemDriver.Modem.constructor: the NULL callback pointer is `None`, and the NULL response buffer is an empty buffer. The dereferences at modem.c:74, 83 and 110 and the `memcpy` at line 82 are not modelled as crashes. `ModemDriver.Modem.ProcessSerialFrame` requires `FrameSafe` instead, which rules them out. The apps in the repository call a two-argument `modem_init` and never call `modem_cb_init`. Against this driver they would leave the pointer NULL.
- ModemDriver.Modem.CbInit: copies the callback table, where the C code keeps the caller's pointer. A later change to the caller's struct is not seen by the model.
- CommandSpec.Overwrite: is total. A copy longer than the buffer yields a longer buffer, where the firmware writes out of bounds. The driver never reaches that case, because `FrameSafe` requires every synchronous copy to fit.
- CommandSpec.Complete: `process_serial_frame` calls the completion callback (or releases the waiter) before clearing `is_active` (modem.c:107-114). A command issued from inside the completion callback is therefore refused with BUSY in the firmware. Callbacks are events in the model, not re-entrant calls, so that refusal is not captured.
- UART and GPIO setup, `modem_interface_enable`, the interrupt-line state machine and `modem_listen` are left out. They are hardware set-up or code that is commented out or compiled out.
- `DPRINT` output and the `request_pending` flag, which nothing reads, are left out.
- ModemInterface.ModemInterface.UartRxCb: the C `assert` on a full receive FIFO is a precondition. The overflow is not modelled. The model also assumes assertions are compiled in: modem_interface.c:334 calls `fifo_put` inside the `assert`, so a build that compiles assertions out queues no received byte at all.
- ModemDriver.Modem.ProcessSerialFrame: the `default: assert(false)` branch is a precondition that every decoded action is of a handled kind. The return-status operand is not decoded, and no `d7ap_addressee_id_length` is computed.
- ModemInterface.Dispatch: what a registered ping-response or logging handler consumes is a parameter (`handlerConsumes`), clamped to the payload view. The ALP handler, process_serial_frame, always consumes the whole view.
- The command buffer capacity (`CMD_BUFFER_SIZE`) is not modelled. A body longer than the buffer is not cut off.
- Responses for other tags (unsolicited responses, marked TODO in the source) are ignored, as in the code.
- Update in place of the caller's response buffer is modelled on values: the buffer's content is a field of the command, so aliasing between callers' buffers is not captured.
