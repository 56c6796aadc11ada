# Frame codec of the LAC1550 controller script

`controller.py` talks to a device over a serial line using short binary
frames. On the host side it:

- builds a frame from a `Message` (destination, source, command and data bytes):
  a CRC-16 over the fields, SOT (`0x0D`), the fields with the source byte
  escaped, the two checksum bytes most significant first, and EOT (`0x0A`);
- reads one response line and unescapes it: SOE (`0x5E`) marks the next byte
  as carrying 0x40 too much;
- strips the two delimiters and reruns the same CRC recurrence over what
  remains, accepting the frame when the residue is zero;
- decodes a date reply by comparing the first five bytes with a fixed prefix.

This project models that codec in Dafny and proves the following:

- the recurrence gives the CRC-16/XMODEM check value (0x31C3 for
  "123456789"), and for a fixed byte one step of it is a bijection on states;
- a checksummed string leaves residue zero, and no other pair of trailing
  bytes does;
- any single changed byte is detected;
- unescaping undoes escaping, and it fails exactly when a byte below 0x40
  follows an SOE.

It also proves what happens to a frame end to end.

- `construct_message` escapes only the source byte.
- The receive loop unescapes the whole line.
- Its frame is the same as the fully escaped frame exactly when none of the
  other bytes is reserved.
- It comes back intact exactly when none of the other bytes is SOE. A raw CR,
  LF, XON or XOFF passes through the unescape loop unchanged.
- A frame addressed to destination `0x5E` either makes the receive loop raise
  or loses a byte of the payload.
- The frame with every byte escaped (`EncodeFrame`) always comes back intact.

Modules, one per file, with `Frames` and `Vectors` relating the others:

- `Bytes`: the byte type and `Result`.
- `Crc16`: the checksum recurrence.
- `Stuffing`: escaping and unescaping.
- `Messages`: the `Message` record, `calculate_crc16` and `construct_message`.
- `Response`: strip, CRC check and date decode.
- `Frames`: the two paths together.
- `Vectors`: the concrete values of the script.

Bytes are `bv8`, and the checksum state is `bv16`. Python runs the recurrence
on unbounded integers and masks once per byte. The model also states that
computation on a 40-bit state (`WideStep`), which holds every intermediate
value exactly, and proves that the single mask gives the 16-bit recurrence.

The loops of the source are methods proved against the functions that
specify them:

- `CalculateCrc16` and `CheckCrc` against `Crc`;
- `EscapeSpecialCharacters` against `Escape`;
- `UnescapeResponse` against `Unescape`;
- `ReceiveResponse` against `Receive`.

## Model

| member | source | states |
|---|---|---|
| Crc16.Step | controller.py:16-20 | the definition: one pass of the loop body, the five operations of lines 16-20 on a 16-bit state |
| Crc16.Crc | controller.py:12-21 | the definition: the recurrence run from state 0 over every byte in order |
| Crc16.ToBytes | controller.py:22 | the checksum goes out as two bytes, most significant first, which recombine to the 16-bit state |
| Crc16.WideStep | controller.py:16-20 | the definition: lines 16-20 on the unmasked state, which 40 bits hold exactly |
| Crc16.UpdateCrc | controller.py:16-21 | one pass of the loop body (rotate, add the byte, three XOR/shift folds, mask) advances the state by one step of the recurrence |
| Crc16.RotateAgrees | controller.py:16 | rotating the unbounded state keeps its low 16 bits equal to the 16-bit rotation |
| Crc16.AddByteAgrees | controller.py:17 | XOR-ing the byte keeps the low 16 bits in step |
| Crc16.FoldAgrees | controller.py:18 | the fold of the low byte keeps the low 16 bits in step |
| Crc16.SpreadAgrees | controller.py:19 | the shift by 12 keeps the low 16 bits in step: bits pushed past bit 15 never come back |
| Crc16.LowShiftAgrees | controller.py:20 | the shift of the low byte by 5 keeps the low 16 bits in step |
| Crc16.MixAgrees | controller.py:16-17 | rotation then the byte, on the unbounded state, agree with the 16-bit ones in the low half |
| Crc16.ScrambleAgrees | controller.py:18-20 | the three folds, on the unbounded state, agree with the 16-bit ones in the low half |
| Crc16.WideStepAgrees | controller.py:16-21 | masking once after lines 16-20, as Python does, gives the state that masking after every operation gives |
| Crc16.WideStepBounded | controller.py:16-20 | from a state below 2^16 every intermediate value stays below 2^36, so a 40-bit state holds Python's integers exactly |
| Crc16.StepTwiceClears | controller.py:16-21 | running the recurrence over a state's own high and low byte ends in state 0 |
| Crc16.CrcSnoc | controller.py:12-21 | the loop consumes the bytes in order: one more byte is one more step |
| Crc16.CrcTwoMore | controller.py:12-21 | two more bytes are two more steps |
| Crc16.ResidueZero | controller.py:75-83 | the check accepts any byte string followed by its own checksum |
| Crc16.ToBytesInjective | controller.py:22 | different checksums give different byte pairs and back |
| Crc16.ChecksumUnique | controller.py:16-21 | the high and low byte of a state are the only pair that brings it to zero |
| Crc16.ToBytesPair | controller.py:22 | a byte pair equals the checksum bytes exactly when it holds the high and the low byte |
| Crc16.ResidueZeroExactly | controller.py:75-83 | a string plus two bytes passes the zero-residue test exactly when the two bytes are the checksum of the string |
| Crc16.RotateTwice | controller.py:16 | the rotation by 8 is its own inverse |
| Crc16.AddByteTwice | controller.py:17 | adding the byte twice cancels |
| Crc16.FoldTwice | controller.py:18 | the fold of line 18 is its own inverse |
| Crc16.SpreadTwice | controller.py:19 | the fold of line 19 is its own inverse |
| Crc16.UnshiftLowShift | controller.py:20 | line 20 has an inverse (`Unshift16`), in both orders |
| Crc16.UnscrambleStep | controller.py:18-20 | undoing lines 18-20 recovers the rotated state with the byte mixed in |
| Crc16.UnstepStep | controller.py:16-20 | for a fixed byte, `Unstep` recovers the state before a step |
| Crc16.StepUnstep | controller.py:16-20 | for a fixed byte, every state is reached by one step: the step is a bijection |
| Crc16.StepByteStep | controller.py:16-20 | the byte a step consumed is determined by the states before and after it |
| Crc16.StepInjectiveByte | controller.py:16-20 | from one state, two bytes lead to the same state exactly when they are equal |
| Crc16.StepInjectiveState | controller.py:16-20 | with one byte, two states lead to the same state exactly when they are equal |
| Crc16.CrcSuffixKeepsDifference | controller.py:75-82 | two strings with different checksums keep them different under any common suffix |
| Crc16.SingleByteChangeDetected | controller.py:75-83 | changing any one byte of a string changes its checksum |
| Stuffing.EscapeByte | controller.py:27-31 | the definition: a reserved byte becomes SOE and the byte plus 0x40, any other byte stays as it is |
| Stuffing.Escape | controller.py:24-32 | the definition: every byte escaped in order, the result of `escape_special_characters` |
| Stuffing.EscapeConcat | controller.py:24-32 | escaping works byte by byte: it distributes over concatenation |
| Stuffing.EscapeSingle | controller.py:27-31 | one byte escapes to SOE and the byte plus 0x40 if reserved, to itself otherwise |
| Stuffing.EscapeSnoc | controller.py:25-31 | one more input byte appends its escaped form |
| Stuffing.EscapeLength | controller.py:24-32 | the output is one byte longer per reserved input byte |
| Stuffing.EscapeIdentity | controller.py:30-31 | a string with no reserved byte is copied unchanged |
| Stuffing.CountReservedZero | controller.py:27 | no reserved byte is counted exactly when no byte is one of 10, 13, 17, 19, 94 |
| Stuffing.EscapeUnchangedExactly | controller.py:24-32 | escaping changes a string exactly when it holds a reserved byte |
| Stuffing.EscapeStuffed | controller.py:27-31 | escaped output holds no bare LF, CR, XON or XOFF, and every SOE in it is followed by the escaped form of a reserved byte |
| Stuffing.EscapeSpecialCharacters | controller.py:24-32 | the loop builds exactly the escaped form of its input |
| Stuffing.CountSoeEscapeByte | controller.py:27-29 | the escaped form of a byte holds one SOE if the byte is reserved and none otherwise |
| Stuffing.UnescapeFrom | controller.py:60-69 | the definition: the unescape loop from a given index and escape flag, raising at the first flagged byte below 0x40 |
| Stuffing.Unescape | controller.py:60-69 | the definition: the unescape loop over the whole response, from index 0 with no escape pending |
| Stuffing.UnescapeResponse | controller.py:60-69 | the loop returns the unescaped line, or raises at the first byte below 0x40 that follows an SOE |
| Stuffing.UnescapePair | controller.py:63-67 | an escape pair decodes to the reserved byte it stands for |
| Stuffing.UnescapePlain | controller.py:68-69 | a byte other than SOE with no escape pending is copied |
| Stuffing.UnescapeEscapeThen | controller.py:60-69 | escaped bytes followed by anything decode to the original bytes followed by the decoding of the rest |
| Stuffing.UnescapeEscape | controller.py:60-69 | round trip: unescaping the output of `escape_special_characters` gives its input back |
| Stuffing.EscapeInjective | controller.py:24-32 | different byte strings never escape to the same bytes |
| Stuffing.UnescapeCopyThen | controller.py:68-69 | bytes holding no SOE, with no escape pending, are copied and the loop goes on after them |
| Stuffing.CountSoeZero | controller.py:63-64 | a string holds no marker exactly when SOE is not one of its bytes |
| Stuffing.UnescapeFailsExactly | controller.py:65-66 | unescaping raises exactly when some byte below 0x40 follows an SOE, and it raises at the first such byte |
| Stuffing.UnescapeLength | controller.py:60-69 | every SOE is dropped and every other byte gives one output byte; an error names an index of the line |
| Stuffing.UnescapeTrailingSoe | controller.py:63-64 | a trailing SOE is dropped without a trace |
| Stuffing.UnescapeDoubleSoe | controller.py:63-64 | an SOE after an SOE is another marker: the escape stays pending |
| Messages.Fields | controller.py:13-15 | the definition: destination, source, command, then the data bytes |
| Messages.CalculateCrc16 | controller.py:11-22 | the method returns the two checksum bytes of destination, source, command and data, in that order |
| Messages.ConstructMessage | controller.py:34-39 | the definition: SOT, the destination, the escaped source, the command, the data, the two checksum bytes over the unescaped fields, EOT |
| Messages.BuildFrame | controller.py:34-39 | built step by step with the escaping and checksum methods, the frame is exactly `ConstructMessage` |
| Messages.ConstructMessageShape | controller.py:34-39 | the frame is SOT, destination, escaped source, command, data, checksum, EOT, with only the source escaped |
| Messages.ConstructMessageLayout | controller.py:34-39 | position by position: 7 bytes plus the data, plus one if the source is reserved, and the checksum over the unescaped fields just before EOT |
| Messages.FrameChecksumAccepted | controller.py:36-38 | the checksum a frame carries brings the residue over the unescaped fields to zero |
| Messages.EncodeFrame | controller.py:34-39 | the corrected frame, with every byte between the delimiters escaped: its length, and SOT and EOT at its ends |
| Messages.EncodeFrameDelimited | controller.py:34-39 | between its delimiters the corrected frame holds no SOT, EOT, XON or XOFF |
| Response.Strip | controller.py:72 | `[1:-1]` drops the first and the last byte, and a line shorter than two bytes strips to nothing |
| Response.StripFrame | controller.py:72 | stripping undoes the framing by two delimiters |
| Response.CheckCrc | controller.py:75-83 | the check passes exactly when the recurrence over the stripped line ends at zero |
| Response.ParseDate | controller.py:89-106 | a date exactly when at least 8 bytes start with 5E 51 42 08 0F; the verdict for the first mismatching byte; an `IndexError` at the first index past the end exactly when the line is shorter than the bytes the tests read |
| Response.Receive | controller.py:60-106 | the receive path fails exactly when unescaping raises, with the same error, and otherwise checks and decodes the stripped line |
| Response.ReceiveResponse | controller.py:60-106 | the script's statements compute the receive path |
| Response.CorruptedByteRejected | controller.py:75-83 | a checksummed string with any one byte changed fails the check |
| Response.ChangedByteRejected | controller.py:75-83 | any string the check accepts is rejected once one of its bytes changes |
| Frames.UnescapeDelimited | controller.py:60-69 | SOT, an escaped string and EOT unescape to SOT, the string and EOT |
| Frames.ReceiveDelimited | controller.py:72-83 | a line that unescapes to SOT, a checksummed payload and EOT passes the check with that payload |
| Frames.EncodeFrameReceived | controller.py:60-106 | round trip: the corrected frame of any message reaches the receiver intact and passes the check |
| Frames.EscapeSourceOnly | controller.py:35 | with every other byte plain, escaping the whole payload escapes the source alone |
| Frames.ConstructAgreesWithEncodeExactly | controller.py:34-39 | `construct_message` sends the corrected frame exactly when destination, command, data and checksum hold no reserved byte |
| Frames.ConstructMessageReceived | controller.py:34-39 | when only the source may be reserved, the frame `construct_message` builds reaches the receiver intact and passes the check |
| Frames.MarkersAfterSoeDestination | controller.py:35 | a frame sent to SOE holds at least one more SOE than its escaped source |
| Frames.UnescapeFrameParts | controller.py:60-69 | a frame whose raw bytes hold no SOE unescapes to SOT, the unescaped fields and checksum, EOT |
| Frames.ConstructMessageUnescaped | controller.py:34-39 | with no SOE among destination, command, data and checksum, the unescape loop gives back SOT, the payload and EOT |
| Frames.MarkersOfFrameParts | controller.py:34-39 | the SOE bytes of a frame are those of the escaped source plus those sent raw |
| Frames.ConstructMessageMarkers | controller.py:34-39 | a constructed frame holds one SOE for a reserved source plus every raw SOE |
| Frames.ConstructMessageIntactExactly | controller.py:34-39 | the frame `construct_message` builds is received intact and passes the check exactly when no raw byte is SOE |
| Frames.ConstructMessageSoeDestinationLost | controller.py:35-38 | a frame sent to destination SOE never reaches the receiver intact: if unescaping does not raise, the stripped payload is shorter than the one sent |
| Frames.ConstructMessageSoeDestinationRaises | controller.py:35-38 | with destination SOE and a plain source below 0x40, the receive loop raises at index 2 |
| Frames.UnescapeMarkerThenLow | controller.py:65-66 | SOT, SOE and a byte below 0x40 make the unescape loop raise at index 2 |
| Frames.ConstructMessageUnreadable | controller.py:35-38 | the message to destination 0x5E with source 0, command 0 and no data cannot be read back |
| Vectors.DemoChecksum | controller.py:45-50 | the demo message has checksum 0x94C0 |
| Vectors.DemoFrame | controller.py:50-51 | the demo frame is 0D 42 5E 51 04 0F 06 94 C0 0A |
| Vectors.DemoFrameReceived | controller.py:57-106 | read back, the demo frame passes the check and decodes to "Unknown source" |
| Vectors.CarriageReturnDestinationIntact | controller.py:34-39 | a frame addressed to CR differs from the fully escaped frame and is still received intact |
| Vectors.CheckValue | controller.py:16-21 | the recurrence gives the CRC-16/XMODEM check value 0x31C3 for "123456789" |
| Vectors.DateReplyReceived | controller.py:89-98 | a fully escaped date reply with a correct checksum decodes to its day, month and year |

## Left out

- The serial port is not modelled: opening it (line 42), writing the frame (line 54) and `readline` (line 57). The response line is an input byte string. That `readline` ends the line at the first LF is not modelled either.
- The `print` calls are not modelled. The CRC verdict becomes the `crcPassed` field, and the decode result becomes a `DateReply` value.
- The demo values of lines 45-51 appear only as test vectors (`Vectors`), not as part of the model.
- registers.py is not part of this model.
- That the recurrence of lines 16-20 equals the bit-by-bit CRC-16/XMODEM division (polynomial 0x1021, initial state 0) on every input is not proved. Only the catalogue check value is proved, by `Vectors.CheckValue`.
- `int.to_bytes(1, ...)` raises `OverflowError` for a field outside 0..255. The model's fields are bytes, so that error cannot arise.
- Crc16.UpdateCrc: the loop body runs on a 16-bit state, not on Python's unbounded integer. The agreement with Python's arithmetic is proved separately, by `WideStepAgrees` and `WideStepBounded`, not by the method itself.
- Exceptions (the `ValueError` of `append(byte - 64)`, the `IndexError` of the decode) are values of `UnescapeError` and `DateReply`. Nothing after them is modelled, since the script stops there.
- The decode compares the unescaped bytes with 5E 51, the escaped form of source 0x11. The model reproduces this comparison as written. It is not reported as a finding, because the reply format of the device is not part of this model.

## Findings

| source | as written | input that shows it | evidently intended | confidence | as-written member | corrected member |
|---|---|---|---|---|---|---|
| controller.py:35-38 | `construct_message` escapes only the source byte. Destination, command, data and checksum go out raw, while the receive loop (lines 60-69) unescapes every byte. | `Message(0x5E, 0x00, 0x00, b'')`: the frame `0D 5E 00 00 …` makes the unescape loop raise at index 2 | every byte between SOT and EOT escaped, so that any message reads back intact | not executed | Frames.ConstructMessageUnreadable | Frames.EncodeFrameReceived |
