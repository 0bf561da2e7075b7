# Concert payment-terminal protocol in Dafny

A model of the protocol core of the `concert` C library, which drives a
point-of-sale payment terminal over a serial line. The library does three
things, and the model has all three:

- **Message codec** (`codec.dfy`, module `Codec`): `concert_is_number`,
  `concert_lrc`, and `concert_message`. `concert_message` runs a fail-fast
  chain of nine field checks and then builds a 37-byte frame: STX, the nine
  fields, ETX, and an XOR checksum (LRC) over the fields and ETX. The
  constants of `concert.h` live in `protocol.dfy` (module `Protocol`).
- **Request orchestrator** (`request.dfy`, module `Orchestrator`):
  `concert_simple_request`. It formats the amount with `%08u`
  (`amount.dfy`, module `Amount`), fills in fixed defaults, encodes the
  request, and then opens the device, writes the frame and closes the
  device.
- **Transport and handshake** (`transport.dfy`, module `Transport`, and
  `handshake.dfy`, module `Handshake`): `concert_device_open`, `_close`,
  `_write`, `_read` and `_ping`.

The POSIX calls are not modelled. A `Host` object stands in for them: it
returns the outcomes given in its `Script` and records each call in order
in `log`. Each library routine that changes state is a method on a `Host`.
Its contract ties the code it returns and the calls it adds to `log` to a
function of the script (a `Run`: a return code plus a trace of calls). The
ordering, release and no-I/O properties are stated and proved about those
functions.

C strings are `CStr`, a `string` whose characters are non-NUL single
bytes. A NULL pointer is `None`. Frames are sequences of `bv8`, and the
LRC is a `bv8` XOR fold. Return codes are the library's plain `int` codes.

The source has four defects. Each is modelled twice: once as written (with
a lemma that shows the consequence) and once corrected. The rest of the
model uses the corrected version (see "## Findings"). The ping handshake
and the field checks other than the authorization check are modelled as
written.

Points where the model's choice is not read off a single line of code:
- Authorization check: concert.c:103-104 tests the authorization's length
  and then compares `mode`, not `authorization`, with `"B010"`. The
  corrected rule compares the authorization itself.
- Ping: concert.c:279-281 writes the whole `BUFSIZ`-byte buffer, ENQ
  followed by NUL bytes, not a single enquiry byte (`EnquiryBuffer`). The
  model does the same.
- Success code: `concert_simple_request` returns 1 on success
  (concert.c:217), but its header comment says 0 (concert.h:118). The model
  returns 1, as the code does.
- Closing: `concert_device_open` closes the descriptor on each of its own
  failure paths (concert.c:235, 253), but `concert_simple_request` returns
  without closing after a failed write (concert.c:205-207). The corrected
  sequence (`Orchestrator.SendRun`) releases the descriptor on every path
  after a successful open (finding 4). The as-written sequence keeps the
  code's behaviour.

## Model

| member | source | states |
|---|---|---|
| Protocol.ErrorCodesAreDistinctNegatives | concert.h:19-29 | the eleven error codes are -1 .. -11 in declaration order, all distinct |
| Protocol.ModeAndTypeConstantsAreSingleCharacters | concert.h:31-41 | indicator, mode and type constants are one character, which is what the length-1 checks accept; the two modes differ, the two types differ |
| Protocol.PrivateAndCurrencyConstants | concert.h:43-48 | the private placeholder is exactly ten spaces; "978" and "840" are three digits |
| Protocol.DelayAndAuthorizationConstants | concert.h:50-55 | the delay codes are distinct and four characters long; "B010" is four characters and equals neither mode |
| Codec.IsNumber | concert.c:12-25 | returns only 1 or 0, and 1 exactly when every character is an ASCII digit (the empty string included) |
| Codec.Lrc | concert.c:27-38 | the checksum as a left XOR fold from 0 over the bytes (LrcSnoc, LrcAppend and LrcSelfCancels state its properties) |
| Codec.LrcSnoc | concert.c:27-38 | the LRC is the left XOR fold from 0: appending a byte XORs it into the LRC |
| Codec.LrcAppend | concert.c:27-38 | the LRC of a concatenation is the XOR of the parts' LRCs |
| Codec.LrcSelfCancels | concert.c:120-121 | a span followed by its own LRC has LRC 0 |
| Codec.StrLen | concert.c:31 | the loop stops at the first NUL: the index returned holds NUL and nothing before it does |
| Codec.StrLenOfTerminated | concert.c:112-121 | a NUL-free span printed with its terminator has its own length, so `concert_lrc` covers all of it |
| Codec.ConcertLrc | concert.c:27-38 | the loop returns the LRC of the bytes before the first NUL |
| Codec.FieldError | concert.h:20-28 | field k's error code is entry k + 1 of the header's code table: register id -2, amount -3, indicator -4, mode -5, type -6, currency -7, private data -8, delay -9, authorization -10 |
| Codec.FieldOk | concert.c:47-108 | the rule for each field: NULL fails; then the exact length; digits only for id and amount; one of two values for mode, type and delay; the corrected authorization rule for field 8 (what ValidateFailFast states about it) |
| Codec.FirstFailing | concert.c:47-108 | the index of the first field whose rule fails; every field before it passes |
| Codec.Validate | concert.c:47-108 | the corrected chain: None when every field passes, else the code of the first failing field (both directions proved by ValidateFailFast) |
| Codec.ValidateFailFast | concert.c:47-108 | validation reports field k's code exactly when fields 0 .. k-1 pass and field k fails, and reports nothing exactly when all nine pass |
| Codec.ValidateAsWritten | concert.c:47-108 | the chain as written: fields 0 .. 7 as in Validate, then line 104's test of `mode` against "B010" (AuthorizationCheckRejectsAll: it rejects every request) |
| Codec.AuthorizationCheckRejectsAll | concert.c:67-108 | as written, no request passes; any request that passes the first eight checks is rejected with CONCERT_ERROR_INVALID_AUTHORIZATION |
| Codec.ValidateAgreesBeforeAuthorization | concert.c:47-108 | the as-written chain and the corrected chain give the same result except at the authorization check |
| Codec.FieldWidths | concert.c:47-108 | the fields of an accepted request have widths 2, 8, 1, 1, 1, 3, 10, 4, 4 |
| Codec.OffsetStep | concert.c:112-114 | each field starts where the one before it ends |
| Codec.JoinShape | concert.c:112-114 | the printed fields have no NUL, and their length is the sum of the field lengths |
| Codec.JoinSlice | concert.c:112-114 | field k sits in the printed text at the sum of the lengths before it |
| Codec.FieldOffsets | concert.c:112-114 | for an accepted request the fields start at 0, 2, 10, 11, 12, 13, 16, 26, 30 and fill 34 bytes |
| Codec.SpanOfAccepted | concert.c:112-114 | the checksum span of an accepted request is 35 NUL-free bytes, whatever the fields contain |
| Codec.Frame | concert.c:110-127 | STX, then the span, then the span's LRC; for an accepted request FrameShape and FrameLayout give its 37-byte layout, and ParseFrameRoundTrip inverts it |
| Codec.FrameShape | concert.c:110-127 | the frame of an accepted request is 37 bytes: STX first, ETX at 35, and a last byte equal to the XOR of bytes 1 .. 35 (so bytes 1 .. 36 XOR to 0) |
| Codec.FrameLayout | concert.c:110-127 | field k occupies its width from frame byte 1 + its offset: id 1-2, amount 3-10, indicator 11, mode 12, type 13, currency 14-16, private data 17-26, delay 27-30, authorization 31-34 |
| Codec.Message | concert.c:40-127 | the corrected codec succeeds exactly when all nine rules pass; on success it gives Frame(r): 37 bytes, STX first, a valid checksum; otherwise it gives the code of field k, where k is the first field whose rule fails |
| Codec.EncodeAsWritten | concert.c:120-125 | the second snprintf as written: its return, 1 + span length + 1, is nonzero, so it is reported as an error (EncodeAsWrittenAlwaysFails) |
| Codec.EncodeAsWrittenAlwaysFails | concert.c:120-125 | as written, the second snprintf returns a nonzero count, so the encoding step always reports -1 |
| Codec.MessageAsWritten | concert.c:40-127 | `concert_message` as written: the as-written chain, then the as-written encoding (MessageAsWrittenNeverSucceeds: it never succeeds) |
| Codec.MessageAsWrittenNeverSucceeds | concert.c:40-127 | as written, `concert_message` fails on every input and never returns 37; when the two chains agree it returns what the corrected codec returns |
| Codec.Emitted | concert.c:110-120 | the caller's buffer after memset and snprintf: same length, and nothing past byte 37 is touched; EmittedHoldsFrame gives the frame and NUL for a large enough buffer |
| Codec.EmittedHoldsFrame | concert.c:110-120 | a buffer of at least 38 bytes ends up holding the frame, then a NUL, with the rest unchanged |
| Codec.WriteMessage | concert.c:40-127 | returns 37 or a negative code; on a validation failure it returns that field's code and leaves the buffer untouched; on success the buffer holds the frame, cut as snprintf cuts it for the given size |
| Codec.FieldAt | concert.c:110-127 | the slice of a frame that holds field k has that field's width, and no NUL when the payload has none |
| Codec.ParseFrame | concert.c:110-127 | the inverse of the frame layout: accepts exactly the 37-byte frames with STX, ETX at 35, a NUL-free payload and a matching checksum |
| Codec.ParseFrameRoundTrip | concert.c:110-127 | reading back the frame of an accepted request recovers the nine fields |
| Codec.ParseFrameRejectsBadChecksum | concert.c:120-121 | a frame whose last byte is not the XOR of bytes 1 .. 35 is rejected |
| Amount.Decimal | concert.c:181 | `%u` prints at least one character, all of them digits |
| Amount.Printed | concert.c:181 | `%08u` prints at least eight digits |
| Amount.FormatAmount | concert.c:180-181 | the amount field is always exactly eight digits, so it always passes the amount check |
| Amount.ValueOfDecimal | concert.c:181 | reading back the printed digits of n gives n |
| Amount.ValueOfPadded | concert.c:181 | zero padding does not change the value |
| Amount.DecimalLength | concert.c:181 | n prints in at most k digits exactly when n < 10^k |
| Amount.FormatSmallAmount | concert.c:180-181 | an amount below 10^8 becomes its zero-padded eight-digit form, which reads back as the amount |
| Amount.FormatLargeAmount | concert.c:180-181 | a larger amount keeps only its first eight digits |
| Amount.FormatExample | concert.c:180-181 | 12599 becomes "00012599" |
| Transport.WriteReturn | concert.c:305 | write() returns -1 or a count no larger than requested |
| Transport.ReadReturn | concert.c:324 | read() returns -1 or a count no larger than the buffer and the bytes available |
| Transport.Received | concert.c:324 | read() leaves the buffer's length unchanged |
| Transport.Host.SysOpen | concert.c:222 | open() returns the scripted descriptor or -1, and is logged |
| Transport.Host.SysGetAttributes | concert.c:232 | tcgetattr() returns its scripted outcome, and is logged |
| Transport.Host.SysSetAttributes | concert.c:250 | tcsetattr() returns its scripted outcome, and is logged with the settings applied |
| Transport.Host.SysWrite | concert.c:305 | write() returns its scripted count, and is logged with the bytes written |
| Transport.Host.SysRead | concert.c:324 | read() copies the reply bytes that fit into the front of the buffer, leaves the rest of the buffer alone, and is logged |
| Transport.Host.SysClose | concert.c:268 | close() returns 0 or -1, and is logged |
| Transport.OpenRun | concert.c:220-259 | opening succeeds exactly when open, tcgetattr and tcsetattr all succeed; then it returns the descriptor, and the calls are exactly open, tcgetattr, tcsetattr with 9600 8N1 raw settings; a failed open() issues no further call; any other failure returns -1 and closes the opened descriptor last; it never reads or writes |
| Transport.OpenRunAsWritten | concert.c:258 | as written, the result is 1 exactly when the corrected open succeeds, whatever the descriptor, and -1 otherwise; the calls issued are the same |
| Transport.OpenAsWrittenLosesDescriptor | concert.c:258 | as written, the caller gets 1 while the device was opened on a different descriptor |
| Transport.DeviceOpen | concert.c:220-259 | the call's result and its system calls are those of OpenRun |
| Transport.DeviceOpenAsWritten | concert.c:220-259 | the call's result and its system calls are those of OpenRunAsWritten |
| Transport.CloseRun | concert.c:261-275 | a negative descriptor gives CONCERT_ERROR_INVALID_DEVICE with no system call; otherwise exactly one close; the result is 1 exactly when that close succeeds |
| Transport.DeviceClose | concert.c:261-275 | the call's result and its system calls are those of CloseRun |
| Transport.WriteCode | concert.c:303-315 | `concert_device_write` returns CONCERT_ERROR exactly when write() fails; otherwise it returns a count no larger than requested |
| Transport.DeviceWrite | concert.c:303-315 | returns WriteCode and issues exactly one write of the given bytes |
| Transport.ReadCode | concert.c:317-334 | `concert_device_read` returns CONCERT_ERROR exactly when read() fails; otherwise it returns a count no larger than the buffer |
| Transport.DeviceRead | concert.c:317-334 | a NULL buffer gives CONCERT_ERROR with no system call; otherwise exactly one read, with ReadCode's result and the bytes received |
| Handshake.EnquiryBuffer | concert.c:279-281 | the ping buffer is BUFSIZ bytes: ENQ first, then zeros |
| Handshake.PingRun | concert.c:277-301 | a ping is one write of the enquiry buffer, then one read only if the write succeeded; it returns 1 exactly when both succeed and the first reply byte is ACK, and CONCERT_ERROR otherwise |
| Handshake.SilentTerminalFailsPing | concert.c:288-298 | a zero-byte read leaves ENQ in byte 0, so the ping fails |
| Handshake.AcknowledgedPing | concert.c:295-300 | a reply starting with ACK makes the ping succeed |
| Handshake.DevicePing | concert.c:277-301 | the call's result and its system calls are those of PingRun |
| Orchestrator.DefaultRequest | concert.c:180-189 | the request `concert_simple_request` encodes: "01", the formatted amount, "0", "1", "1", the caller's currency, ten blanks, "A011", "B010" (DefaultsPassValidation: every field but the currency passes) |
| Orchestrator.DefaultsPassValidation | concert.c:180-189 | the defaults pass every rule, so the corrected codec accepts the request exactly when the currency has three characters (otherwise -7); as written the result is -10 or -7 |
| Orchestrator.SendRun | concert.c:196-217 | corrected: a failed open returns -1 with only the open's own calls, so nothing is written; once the device is configured the calls are exactly open, configure, write of the frame to the opened descriptor, close of it, whatever the write and close return; the result is 1 exactly when every step succeeds and -1 otherwise |
| Orchestrator.SendRunAsWritten | concert.c:196-217 | as written: a failed open returns -1 with only the open's own calls; the result is 1 or -1, and 1 exactly when open, configure, write and close all succeed; then the calls are open, configure, write to descriptor 1, close descriptor 1 |
| Orchestrator.SendAsWrittenLeaksOnWriteFailure | concert.c:203-208 | as written, a failed write returns -1 with no close at all; the corrected sequence closes the descriptor |
| Orchestrator.SendAsWrittenMissesDevice | concert.c:196-210 | as written, the frame goes to descriptor 1, and the device's descriptor is neither written nor closed |
| Orchestrator.ShortWriteCountsAsSuccess | concert.c:203-217 | a write that takes fewer bytes than the frame still counts as success |
| Orchestrator.SendFrame | concert.c:196-217 | the call's result and its system calls are those of SendRun |
| Orchestrator.SendFrameAsWritten | concert.c:196-217 | the call's result and its system calls are those of SendRunAsWritten |
| Orchestrator.RequestRun | concert.c:172-217 | a NULL device gives -11 and a bad currency gives -7, both with no system call; with a device and a three-character currency the run is exactly SendRun of the default request's 37-byte frame: -1 on any failed step, calls in order open, configure, write, close, the descriptor closed last, and 1 exactly when every step succeeds |
| Orchestrator.RequestRunAsWritten | concert.c:172-217 | as written, a NULL device gives -11 and a bad currency gives -7, with no system call (RequestAsWrittenNeverReachesDevice: no system call is made at all) |
| Orchestrator.RequestAsWrittenNeverReachesDevice | concert.c:184-196 | as written, `concert_simple_request` issues no system call at all and returns -10 for every three-character currency; the corrected request does reach the device |
| Orchestrator.SimpleRequest | concert.c:172-217 | the call's result and its system calls are those of RequestRun |
| Orchestrator.RequestExample | concert.c:172-217 | 12599 in "978" is sent as the frame of "01", "00012599", "0", "1", "1", "978", ten blanks, "A011", "B010", in one open, configure, write, close cycle that returns 1 |

## Left out

- `concert_list_serial_devices` (the scan of `/dev`): it is filesystem I/O with no protocol logic.
- The real system calls and the termios structure. `open`, `tcgetattr`, `tcsetattr`, `write`, `read` and `close` are scripted outcomes of a `Host`. The line settings are recorded as one `SerialConfig` value rather than flag bits.
- Each call kind has one scripted outcome: a second call of the same kind gets the same outcome. No routine in the core makes two calls of the same kind on one path.
- All `fprintf`/`perror` diagnostics: they are logging side effects only.
- `main.c`, the interactive front end. Its `amount_eur * 100` can wrap around in `unsigned int`. Its `ping_result == 0` and `result != 0` tests contradict the 1 the library returns on success.
- Blocking and timeouts: a read that never returns cannot be expressed. A read here returns what the script holds.
- Bytes 128-255: `isdigit` on a negative `char` is undefined in C. The model treats these bytes as non-digits.
- Codec.WriteMessage: states only the buffer's final contents, as the intended single snprintf of the frame leaves them. It does not model the bytes the first snprintf (concert.c:112) leaves behind when the second one is cut short by a small buffer.
- `BUFSIZ` is fixed at 1024, the value on the system the device naming points to (macOS). No property depends on it beyond the size of the ping buffer.

## Findings

| source | as written | input that shows it | evidently intended | confidence | as-written member | corrected member |
|---|---|---|---|---|---|---|
| concert.c:103-104 | tests `strcmp(mode, "B010")`; `mode` is one character after line 67, so this always fails | the default request with currency "978" | `strcmp(authorization, CONCERT_AUTHORIZATION_AUTO)` | high; not executed | Codec.AuthorizationCheckRejectsAll | Codec.ValidateFailFast |
| concert.c:120-125 | prints `buffer` into itself (overlapping snprintf, undefined) and treats any nonzero return as failure; snprintf returns 37, so line 127 is unreachable | any request that passes validation | build STX + span + LRC into the buffer and return 37 | high; not executed | Codec.EncodeAsWrittenAlwaysFails | Codec.WriteMessage |
| concert.c:258 | `return 1` after a successful open | an open that yields descriptor 3: the frame is written to descriptor 1 and descriptor 3 is never closed | `return serial_port`, as concert.h:127 documents | high; not executed | Orchestrator.SendAsWrittenMissesDevice | Orchestrator.SendRun |
| concert.c:205-207 | returns the write error without closing the device | open succeeds, write fails | close the descriptor, then return the write error | medium; not executed | Orchestrator.SendAsWrittenLeaksOnWriteFailure | Orchestrator.SendRun |
