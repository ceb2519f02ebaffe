# Aethered virtual mouse: verified model of the minidriver core and its control library

Aethered's "Arx Ethereal Mouse" is a HID minidriver for Windows. It exposes
two top-level collections:

- a pointer collection (report id 1), which the HID class driver reads;
- a vendor control collection (report id 2), which the user-mode library
  `aemctl` talks to with feature requests (`HidD_GetFeature`).

A control request can do one of five things:

- queue a move message;
- read the device's capabilities;
- clear the queue;
- read the queue depth;
- swap the poll interval.

Move messages wait in a 1024-slot ring inside the device extension. Every
read of the pointer collection arms a timer for one poll interval. When the
timer fires, it dequeues one message into an input report, or completes
with an idle report if the ring is empty.

This project models that core in Dafny and proves its contracts.

| file | module | what it holds |
|---|---|---|
| `types.dfy` | `Types` | C integer widths and conversions (`UCHAR`, `DWORD32`, `int` casts), NTSTATUS values, `NT_SUCCESS` |
| `common.dfy` | `Common` | report ids, control codes, packed little-endian feature-report layouts with encoders, decoders and round trips |
| `aem_config.dfy` | `AemConfig` | interval, queue and report-size constants, the PnP state enum and the two state macros as functions |
| `ring.dfy` | `Ring` | index arithmetic of the ring: contents between start and end, depth, empty/full, push, pop, reset |
| `control_spec.dfy` | `ControlSpec` | reference semantics of the control dispatcher and the read timer on the observable state (pending messages, interval), with their properties |
| `aem.dfy` | `Aem` | class `MouseDevice` (the device extension) and its routines: `AddDevice`, `PnP`, `GetFeature`, `ReadReport`, the timer routine, the descriptor and attribute copies and `InternalIoctl`; the descriptors; the read-timer delay |
| `aemctl.dfy` | `AemCtl` | class `ControlLibrary` (the library's globals) and its entry points, with the driver's `GetFeature` as transport; last-error reporting |

`MouseDevice.GetFeature` and `MouseDevice.ReadTimerDpc` work on the ring
array and the caller's buffer in place. Each is proved equal to
`ControlSpec.GetFeatureSpec` or `ControlSpec.ReadTimerSpec` on the abstract
view. The queue properties are proved once about those functions.

The build's motion mode (`AEM_RELATIVE_MOTION`) is a constructor parameter
of the device, so both builds are covered. The shipped build is relative
(`AemConfig.RELATIVE_MOTION_BUILD`).

The model follows the code where the driver is more permissive than a
reader might expect:

- Nothing is gated on the PnP state. `GetFeature` and the read path never
  consult it.
- `Deleted` is not terminal: a later START still succeeds.
- REMOVE frees no queue storage and cancels no read.
- Nested query/cancel sequences are not rejected. They simply undo one
  level.
- The idle read report carries the control report id (2) in byte 0, not
  the pointer id.
- A read buffer that is too small is refused when the timer fires, not
  when the read arrives.

## Model

| member | source | states |
|---|---|---|
| `Types.ToByte` | src/aem/aem.c:613-614 | a `(UCHAR)` cast keeps the value modulo 256 |
| `Types.ToInt32` | src/aem/aem.c:444 | a DWORD read as a 32-bit `int` has the same 32-bit pattern |
| `Types.Int32RoundTrip` | src/aemctl/aemctl.c:304-317 | an `int` stored into a DWORD and read back is unchanged |
| `Types.NtSuccessClassifies` | src/aem/aem.c:145 | `NT_SUCCESS` holds for SUCCESS and PENDING and fails for the three error statuses the driver returns |
| `Common.EncodeMove` | src/aem/common.h:50-54 | ReportId at byte 0, ControlCode at 1, Buttons at 2, X at 3-4 and Y at 5-6 as signed 16-bit little-endian; 7 bytes |
| `Common.EncodeInfo` | src/aem/common.h:56-60 | header, Flags at byte 2, MessageQueueCapacity at 3-6; 7 bytes |
| `Common.EncodeDword` | src/aem/common.h:62-65 | header, Value at bytes 2-5; 6 bytes |
| `Common.U32RoundTrip` | src/aem/common.h:59-64 | the 4-byte little-endian DWORD encoding is a bijection |
| `Common.I16RoundTrip` | src/aem/common.h:40-43 | the 2-byte encoding of a SHORT is a bijection |
| `Common.MoveRoundTrip` | src/aem/common.h:50-54 | decoding an encoded move report gives it back, and encoding a decoded 7-byte prefix gives the bytes back |
| `Common.InfoRoundTrip` | src/aem/common.h:56-60 | the same for the info report |
| `Common.DwordRoundTrip` | src/aem/common.h:62-65 | the same for the dword report |
| `Common.CodesDistinct` | src/aem/common.h:21-34 | the five control codes are distinct, the error sentinel differs from all of them, and the two report ids differ |
| `AemConfig.DefaultIntervalMeetsFloor` | src/aem/aem.h:29-30 | the default interval 8000 meets the set-interval floor 5000 |
| `AemConfig.SetThenRestore` | src/aem/aem.h:141-146 | entering any state and restoring returns to the state before |
| `AemConfig.RestoreIdempotent` | src/aem/aem.h:145-146 | restoring twice equals restoring once |
| `AemConfig.OneLevelOfUndo` | src/aem/aem.h:141-146 | after two nested transitions two restores land on the first transition's state: one level of undo |
| `Ring.QueueSizeValue` | src/aem/aem.c:444-445 | the DWORD difference `end - start`, read as `int` and shifted into range, equals the depth `(end - start) mod 1024` and is below 1024 |
| `Ring.ContentsLength` | src/aem/aem.h:157-159 | the ring holds `(end - start) mod 1024` messages, so at most 1023 |
| `Ring.ContentsAt` | src/aem/aem.h:157-159 | the k-th waiting message sits in slot `(start + k) mod 1024` |
| `Ring.EmptyIffIndicesMeet` | src/aem/aem.c:593 | the ring is empty exactly when start equals end |
| `Ring.FullIffOneSlotLeft` | src/aem/aem.c:417-418 | `(end + 1) mod 1024 == start` exactly when 1023 messages wait |
| `Ring.Push` | src/aem/aem.c:417-420 | writing slot `end` and advancing `end` appends the message |
| `Ring.Pop` | src/aem/aem.c:604-605 | slot `start` holds the oldest message, and advancing `start` removes exactly it |
| `Ring.ResetEmpties` | src/aem/aem.c:434-435 | equal indices mean an empty ring |
| `ControlSpec.WithValue` | src/aem/aem.c:445-454 | writing Value changes bytes 2-5 only, and they decode to the written value |
| `ControlSpec.GetFeatureSpec` | src/aem/aem.c:393-468 | the rewritten buffer keeps the request's length; a request adds at most one message and never overfills the ring |
| `ControlSpec.InputReport` | src/aem/aem.c:575-617 | an input report is `AEM_INPUT_REPORT_SIZE + 1` bytes |
| `ControlSpec.ReadTimerSpec` | src/aem/aem.c:589-624 | the read buffer keeps its length; a read never adds messages and never changes the interval |
| `ControlSpec.FeatureKeepsInvariants` | src/aem/aem.c:411-460 | no control request takes the ring beyond 1023 messages or the interval below 5000 |
| `ControlSpec.RefusalChangesNothing` | src/aem/aem.c:404-467 | the status is SUCCESS, NOT_SUPPORTED or BUFFER_TOO_SMALL, and a refused request changes neither the buffer nor the device |
| `ControlSpec.RefusalConditions` | src/aem/aem.c:404-462 | NOT_SUPPORTED exactly for a foreign report id or an unknown code; BUFFER_TOO_SMALL exactly when the buffer is shorter than the header or than the branch's structure |
| `ControlSpec.MoveOutcome` | src/aem/aem.c:411-425 | a move succeeds; the echoed code stays MOVE exactly when fewer than 1023 wait and then the decoded message is appended; otherwise only the code byte becomes 0xFF and the ring is untouched |
| `ControlSpec.InfoAnswer` | src/aem/aem.c:426-431 | Info overwrites the first 7 bytes with the capability snapshot and changes nothing else |
| `ControlSpec.QueueSizeAnswer` | src/aem/aem.c:439-447 | QueueSize writes the number of waiting messages into Value and changes nothing else |
| `ControlSpec.ClearQueueEmpties` | src/aem/aem.c:432-438 | ClearQueue empties the ring, is idempotent, and a following QueueSize answers 0 |
| `ControlSpec.IntervalAnswer` | src/aem/aem.c:448-460 | Value answers the previous interval; a request of at least 5000 is installed with the code echoed; a smaller one changes nothing and the code becomes 0xFF |
| `ControlSpec.IntervalPeek` | src/aem/aem.c:453-458 | a request with Value 0 reads the interval without changing it |
| `ControlSpec.ReadNeedsRoom` | src/aem/aem.c:575-592 | a read is refused with BUFFER_TOO_SMALL exactly when the buffer is shorter than 4 (relative) or 6 (absolute) bytes, and then nothing changes |
| `ControlSpec.IdleRead` | src/aem/aem.c:593-601 | on an empty ring the read succeeds, byte 0 becomes the control report id, the full size is reported and nothing is dequeued |
| `ControlSpec.DrainOldest` | src/aem/aem.c:602-623 | a read on a non-empty ring removes exactly the oldest message and writes its input report |
| `ControlSpec.DrainsInOrder` | src/aem/aem.c:602-623 | k reads deliver the first k waiting messages in enqueue order and leave the rest |
| `ControlSpec.InputEchoesRequest` | src/aem/aem.c:610-616 | the input report carries the move request's buttons byte and the low bytes of X and Y (relative), or its buttons and both coordinates byte for byte (absolute) |
| `ControlSpec.MoveThenRead` | src/aem/aem.c:411-623 | two moves into an empty ring give depth 2; a read returns the input report of the first, leaves the second, and the depth drops to 1 |
| `ControlSpec.MoveReadClearScenario` | src/aem/aem.c:411-623 | two moves give depth 2; a read returns the first as `[1, 0, 1, 2]`; depth 1; clear gives depth 0; the next read is idle |
| `Aem.DescriptorsAgree` | src/aem/aem.h:57-121 | the HID descriptor's bLength is 9 and its wReportLength is the report descriptor's length (83 or 85 bytes); the control collection's dummy input count is the input report size |
| `Aem.QueryThenCancelRestores` | src/aem/aem.c:168-186 | QUERY_STOP then CANCEL_STOP, and QUERY_REMOVE then CANCEL_REMOVE, restore the prior state |
| `Aem.PnpAfter` | src/aem/aem.c:145-199 | each PnP IRP keeps the state record, restores the previous state, or enters a new state remembering the one it left; the device is Deleted afterwards only after a REMOVE, or if it was Deleted before, or if Deleted was the saved previous state (a cancel restores it) |
| `Aem.TransitionsUngated` | src/aem/aem.c:133-199 | every non-cancel transition reaches the same state from any state, Deleted included, and remembers the state it left; for every record, a START the lower driver accepts reaches Started and one it fails changes nothing |
| `Aem.ReadDelayTicks` | src/aem/aem.c:560-561 | the intended delay is the interval in microseconds expressed in 100 ns ticks: a multiple of ten whose tenth is the interval |
| `Aem.AsWrittenDelayTicks` | src/aem/aem.c:560-561 | the armed delay, computed as written, lies in (0, 2^32] ticks |
| `Aem.AsWrittenAgreesBelowWrap` | src/aem/aem.c:560-561 | while `10 * interval` fits in 32 bits the armed delay is the intended one |
| `Aem.AsWrittenDelayWraps` | src/aem/aem.c:560-561 | interval 429496730 passes the floor but arms a 4-tick timer |
| `Aem.ReadDelayRespectsFloor` | src/aem/aem.c:560-561 | the intended delay is at least 50000 ticks (5 ms) and grows with the interval |
| `Aem.MouseDevice.constructor` | src/aem/aem.c:83-101 | `AddDevice`: both PnP states NotStarted, the Info snapshot (control id, Info code, relative flag, capacity 1024), an empty ring at 0/0, interval 8000, zeroed descriptors |
| `Aem.MouseDevice.SetNewPnpState` | src/aem/aem.h:141-143 | the current state becomes the previous one, then the new state is entered |
| `Aem.MouseDevice.RestorePreviousPnpState` | src/aem/aem.h:145-146 | the previous state becomes current; previous is kept |
| `Aem.MouseDevice.PnP` | src/aem/aem.c:133-199 | the state record follows `PnpAfter`; a START the lower driver accepts installs the built-in descriptors; the result is the lower driver's status |
| `Aem.MouseDevice.GetFeature` | src/aem/aem.c:393-468 | status, rewritten buffer and new ring and interval are those of `GetFeatureSpec`; a move writes slot `end` and advances `end` by one, or leaves the indices alone when full; no other slot changes, and any other request leaves the ring storage untouched |
| `Aem.MouseDevice.Enqueue` | src/aem/aem.c:416-423 | the ring is full exactly when 1023 wait; otherwise the request is decoded into slot `end`, `end` advances and the message is appended; when full, only the code byte becomes 0xFF; no other slot changes |
| `Aem.MouseDevice.SwapInterval` | src/aem/aem.c:448-459 | Value answers the interval in force; a request of at least 5000 is installed, a smaller one leaves the interval and sets the code byte to 0xFF |
| `Aem.MouseDevice.ReadReport` | src/aem/aem.c:528-567 | allocation failure gives INSUFFICIENT_RESOURCES; otherwise PENDING with a timer of `10 * interval` ticks, at least 5 ms |
| `Aem.MouseDevice.ReadTimerDpc` | src/aem/aem.c:569-634 | status, buffer, byte count and new ring are those of `ReadTimerSpec`; `start` advances by one exactly when a message is dequeued |
| `Aem.MouseDevice.Dequeue` | src/aem/aem.c:603-620 | on a non-empty ring `start` advances by one, exactly the oldest message leaves, and its input report fills the front of the buffer |
| `Aem.MouseDevice.GetHidDescriptor` | src/aem/aem.c:476-520 | an empty buffer is refused; otherwise `min(length, bLength)` bytes of the HID descriptor are copied and reported, and the rest of the buffer is untouched |
| `Aem.MouseDevice.GetReportDescriptor` | src/aem/aem.c:642-667 | an empty buffer is refused; otherwise `min(length, wReportLength)` bytes of the report descriptor are copied and reported |
| `Aem.MouseDevice.GetDeviceAttributes` | src/aem/aem.c:675-698 | a buffer shorter than 32 bytes is refused untouched; otherwise Size 32, vendor 0xF00D, product 0xDEAD and version 0x0102 are written, 32 bytes are reported and the reserved tail is untouched |
| `Aem.MouseDevice.InternalIoctl` | src/aem/aem.c:299-385 | READ_REPORT returns the read's own status and is pending for `ReadDelayTicks(interval)` or completed with INSUFFICIENT_RESOURCES; every other IOCTL returns SUCCESS and completes the IRP with its handler's status and byte count: the two descriptor IOCTLs copy the descriptor prefix that fits (BUFFER_TOO_SMALL on an empty buffer), GET_DEVICE_ATTRIBUTES writes the 10-byte attributes prefix into a 32-byte buffer (BUFFER_TOO_SMALL below that), GET_FEATURE is `GetFeatureSpec`; the six unsupported ones complete with NOT_SUPPORTED and change nothing |
| `AemCtl.ResultCode` | src/aemctl/aemctl.h:33-39 | AEMCTLRESULT values 0-4, zero only for OK |
| `AemCtl.ResultCodesDistinct` | src/aemctl/aemctl.h:33-39 | the result codes are distinct |
| `AemCtl.Hex` | src/aemctl/aemctl.c:42 | `%x` yields lower-case hex digits with no leading zero |
| `AemCtl.HexRoundTrip` | src/aemctl/aemctl.c:42 | the hex numeral reads back as the number |
| `AemCtl.Uint32HexFits` | src/aemctl/aemctl.c:42 | a DWORD error code needs at most 8 hex digits |
| `AemCtl.FormatApiFailure` | src/aemctl/aemctl.c:41-43 | the formatted failure is at most 34 characters longer than the function name |
| `AemCtl.AsWrittenApiCallFailed` | src/aemctl/aemctl.c:41-43 | as written: the message pointer is kept, so the formatted failure is the last error string only if the pointer already named the buffer; otherwise the previous message stays |
| `AemCtl.ApiCallFailed` | src/aemctl/aemctl.c:41-43 | intended: after a failed API call the last error string is the formatted failure |
| `AemCtl.FailureTextIsNotStatic` | src/aemctl/aemctl.c:29-42 | no formatted failure equals one of the static messages |
| `AemCtl.AsWrittenReportsFailureOnlyFromBuffer` | src/aemctl/aemctl.c:41-43 | as written, a failed API call is reported exactly when the last error still points at the buffer |
| `AemCtl.AsWrittenReportsStaleMessage` | src/aemctl/aemctl.c:198-216 | as written, a coordinate error followed by a transport failure still reports the coordinate error |
| `AemCtl.RelativeBit` | src/aemctl/aemctl.c:198 | `Flags & AEM_FLAG_RELATIVE` is 0 or 1 |
| `AemCtl.RelativeBitOfInfo` | src/aemctl/aemctl.c:240 | on the driver's Info snapshot the relative bit is 1 exactly in the relative build, so 1 for the shipped build |
| `AemCtl.AcceptedCoordinatesReachHost` | src/aemctl/aemctl.c:198-212 | accepted coordinates fit a SHORT, and the input report carries the buttons and coordinates so that the host reads back the same values |
| `AemCtl.NegativeIntervalPassesFloor` | src/aemctl/aemctl.c:317 | a negative interval becomes a DWORD of at least 2^31, passes the floor, and reads back as the same negative `int` |
| `AemCtl.ProbeInfo` | src/aemctl/aemctl.c:133-139 | the Info request answers the device's capability snapshot; it leaves the ring storage, the waiting messages and the interval unchanged, and cannot touch the PnP record or the descriptors |
| `AemCtl.ControlLibrary.constructor` | src/aemctl/aemctl.c:73-77 | no device handle; the empty buffer is the last error message |
| `AemCtl.ControlLibrary.HidGetFeature` | src/aemctl/aemctl.c:214 | with the link up, the reply and the device's new state are those of the driver's `GetFeature`; success means STATUS_SUCCESS; the PnP record and the descriptors are kept either way; with the link down, the device and its ring storage are untouched |
| `AemCtl.ControlLibrary.AemSendMessage` | src/aemctl/aemctl.c:192-225 | INIT_FAILED without a device; INVALID_PARAMETER with the mode's bounds message (buffer kept) for out-of-range coordinates; COMMUNICATION_FAILED on transport failure; otherwise OK exactly when the ring had room, with the message appended and the error state untouched, else QUEUE_FULL with the ring unchanged and the queue-full message (buffer kept); every outcome keeps the device's PnP record and descriptors |
| `AemCtl.ControlLibrary.AemGetLastErrorString` | src/aemctl/aemctl.c:227-229 | the last error is the buffer or one of the static messages |
| `AemCtl.ControlLibrary.AemGetDeviceInfo` | src/aemctl/aemctl.c:231-243 | INIT_FAILED without a device; INVALID_PARAMETER for a NULL pointer, with neither out-array written; otherwise the cached relative bit and capacity 1024 in the first slots, with no device call |
| `AemCtl.ControlLibrary.AemClearMessageQueue` | src/aemctl/aemctl.c:245-259 | OK empties the device's ring and keeps the interval; transport failure leaves the device alone; every outcome keeps the device's PnP record and descriptors |
| `AemCtl.ControlLibrary.AemGetMessageQueueSize` | src/aemctl/aemctl.c:261-282 | INIT_FAILED, INVALID_PARAMETER or COMMUNICATION_FAILED leave `*size` unwritten; OK stores the number of waiting messages in `*size` and changes nothing on the device; every outcome keeps the device's PnP record and descriptors |
| `AemCtl.ControlLibrary.AemGetMessageCheckInterval` | src/aemctl/aemctl.c:285-307 | INIT_FAILED, INVALID_PARAMETER or COMMUNICATION_FAILED leave `*interval` unwritten; OK stores the current interval in `*interval` and leaves it unchanged; every outcome keeps the device's PnP record and descriptors |
| `AemCtl.ControlLibrary.AemSetMessageCheckInterval` | src/aemctl/aemctl.c:309-330 | OK exactly when the DWORD value meets the floor, and then it is installed; otherwise INVALID_PARAMETER with the interval unchanged; every outcome keeps the device's PnP record and descriptors |
| `AemCtl.ControlLibrary.StartDll` | src/aemctl/aemctl.c:97-151 | the first candidate whose Info request succeeds becomes the device, and its flags and capacity are cached; with none, the last error is DeviceNotFound; every candidate keeps its waiting messages, interval, PnP record and descriptors |

## Left out

- Kernel plumbing is not modelled. This covers driver registration, `Power`, `PnPComplete`, the start-event wait, IRP forwarding and completion, `Unload` and QUERY_ID hardware ids. None of it carries statable logic, so the model only keeps the lower driver's status as a parameter of `PnP`.
- Spin locks and timer/DPC concurrency are not modelled. Each locked section is one atomic method call. The unlocked emptiness test in the timer routine is a concurrency matter.
- `ReadReport` does not model pool allocation or `KeSetTimer`. Allocation success is a parameter, and the timer is represented by the delay it is armed with.
- `Aem.MouseDevice.ReadReport`: models the intended delay `10 * interval`, not the 32-bit wrapped one. The wrapped one is `Aem.AsWrittenDelayTicks`; see Findings.
- `Aem.MouseDevice.InternalIoctl`: READ_REPORT is pending for the corrected delay `ReadDelayTicks(interval)`, not the 32-bit wrapped `AsWrittenDelayTicks(interval)` the dispatch arms as written; the two differ from interval 429496730 up, which includes any negative interval the client sends; see Findings.
- REMOVE's release of a registry-read report descriptor is not modelled. The driver never reads one, so the branch cannot run.
- Client start-up is partly modelled. The SetupDi enumeration, `CreateFile`, `IsArxEtherealMouse`, `HeapCreate`, `StopDll` and `DllMain` are left out. `StartDll` receives the devices that opened and carry the control usage, and the outcome of each Info request.
- `HidD_GetFeature` is modelled as the driver's `GetFeature` plus a link outcome. The HID class driver between them is not modelled.
- `AemCtl.ControlLibrary.HidGetFeature`: `GetLastError()` is part of the link outcome.
- `AemCtl.ControlLibrary.AemGetMessageQueueSize`: the uninitialised Value of the request is a parameter.
- `AemCtl.ControlLibrary.AemSendMessage`: on a transport failure the last error becomes the formatted failure (the corrected `ApiCallFailed`); as written the library only fills the buffer and keeps the previous message (`AemCtl.AsWrittenApiCallFailed`; see Findings).
- `AemCtl.ControlLibrary.AemClearMessageQueue`: on a transport failure the last error becomes the formatted failure (the corrected `ApiCallFailed`); as written the library only fills the buffer and keeps the previous message (see Findings).
- `AemCtl.ControlLibrary.AemGetMessageQueueSize`: on a transport failure the last error becomes the formatted failure (the corrected `ApiCallFailed`); as written the library only fills the buffer and keeps the previous message (see Findings).
- `AemCtl.ControlLibrary.AemGetMessageCheckInterval`: on a transport failure the last error becomes the formatted failure (the corrected `ApiCallFailed`); as written the library only fills the buffer and keeps the previous message (see Findings).
- `AemCtl.ControlLibrary.AemSetMessageCheckInterval`: on a transport failure the last error becomes the formatted failure (the corrected `ApiCallFailed`); as written the library only fills the buffer and keeps the previous message (see Findings).
- The debug-only `PnPMinorFunctionString` and the `DebugPrint` strings are not modelled.
- `src/aemtest/aemtest.c` is an interactive console loop and is not part of this model.

## Findings

| source | as written | input that shows it | evidently intended | confidence | as-written member | corrected member |
|---|---|---|---|---|---|---|
| src/aem/aem.c:560-561 | `10 * MessageCheckInterval` is computed in 32 bits before it is negated into the timer's LowPart | interval 429496730, which the 5000 floor accepts: the timer is armed for 4 ticks (0.4 µs) instead of 4294967300 | a wait of `10 * interval` ticks, never shorter than the floor's 5 ms | not executed | `Aem.AsWrittenDelayWraps` | `Aem.ReadDelayRespectsFloor` |
| src/aemctl/aemctl.c:41-43 | `WinApiCallFailed` formats LastErrorMessageBuffer but never points LastErrorMessage at it | a relative device; `AemSendMessage(200, 0, 0)` sets the coordinate message; then `AemClearMessageQueue` fails in `HidD_GetFeature`: `AemGetLastErrorString` still returns the coordinate message | the failure text becomes the last error message | not executed | `AemCtl.AsWrittenReportsStaleMessage` | `AemCtl.ApiCallFailed` |
