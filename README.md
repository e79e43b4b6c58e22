# Push integer through UDP — a Dafny model

This project models the key action of a button-deck plugin. When a key is pressed or
released, the action sends an 8-byte UDP datagram. Bytes 0..4 hold the key's integer
index and bytes 4..8 hold the value configured for that edge ("down" on press, "up" on
release). Each is a signed little-endian 32-bit integer. The action also sets the key's
title to a multi-line summary of its settings.

Modules:

- `Wrappers` (`wrappers.dfy`): `Option`, with `GetOr` standing for the source's `??` operator.
- `Int32LE` (`int32_le.dfy`): the four bytes `Buffer.writeInt32LE` stores for an int32
  (two's complement, least significant byte first), and the matching reader. It proves
  round trips in both directions, injectivity, where the sign bit sits, and the boundary values.
- `Decimal` (`decimal.dfy`): the text a template literal prints for an integer, and a reader
  for optional-minus-then-digits text. It proves that reading back the printed text gives
  the same integer.
- `TextLines` (`text_lines.dfy`): joins lines with newlines and splits text at newlines.
  It proves that splitting joined lines that hold no newline gives the lines back.
- `PushIntegerToUdp` (`push_integer_to_udp.dfy`): the settings record, the datagram body
  (`Payload`), the methods that fill a zeroed 8-byte array in place with two int32 writes
  (`WriteInt32LE`, `BuildPayload`, `OnKeyDown`, `OnKeyUp`), the title (`Title`) and the
  send destination (`Destination`), with their properties.
- `PushIntegerToUdpExamples` (`push_integer_to_udp_examples.dfy`): concrete datagrams and titles.

The index is written at offset 0 and the edge value at offset 4
(`apint/src/actions/push_integer_to_udp.ts:50-51`, `:75-76`); for index 3 pressed with 5
the model proves the body `03 00 00 00 05 00 00 00`. Each edge requires only the two
numbers it writes to be int32 values; the other edge's value is never read.

## Model

| member | source | states |
|---|---|---|
| `PushIntegerToUdp.IndexOrZero` | apint/src/actions/push_integer_to_udp.ts:50 | The index written is the field's value when present (0 and negatives included) and 0 only when absent. |
| `PushIntegerToUdp.EdgeValue` | apint/src/actions/push_integer_to_udp.ts:51-76 | A press writes `integerValueDown`, a release `integerValueUp`, each as present or 0 when absent; it is int32 whenever the present numbers are. |
| `PushIntegerToUdp.Payload` | apint/src/actions/push_integer_to_udp.ts:49-51 | The body is exactly 8 bytes, whichever settings are present or absent; it needs only the index and this edge's value to be int32. |
| `PushIntegerToUdp.WriteInt32LE` | apint/src/actions/push_integer_to_udp.ts:50 | Four byte stores at `offset..offset+4` leave the buffer equal to the old prefix, then the int32's little-endian two's-complement bytes, then the old suffix. Nothing else changes. |
| `PushIntegerToUdp.BuildPayload` | apint/src/actions/push_integer_to_udp.ts:49-51 | A freshly allocated 8-byte array, after the writes at offsets 0 and 4, holds exactly `Payload(s, e)`. |
| `PushIntegerToUdp.OnKeyDown` | apint/src/actions/push_integer_to_udp.ts:44-57 | On press: the title is `Title(s)`, the fresh message holds the key-down body, and the destination is `Destination(s)`. |
| `PushIntegerToUdp.OnKeyUp` | apint/src/actions/push_integer_to_udp.ts:69-82 | On release: the title is `Title(s)`, the fresh message holds the key-up body, and the destination is `Destination(s)`. |
| `PushIntegerToUdp.PayloadRoundTrip` | apint/src/actions/push_integer_to_udp.ts:49-51 | A receiver reading both halves as signed LE int32 gets exactly the index and the edge value, with 0 for an absent field. |
| `PushIntegerToUdp.PayloadDeterminedByNumbers` | apint/src/actions/push_integer_to_udp.ts:50-51 | Two settings give equal bodies if and only if their defaulted index and edge value are equal. |
| `PushIntegerToUdp.PayloadIgnoresDisplayFields` | apint/src/actions/push_integer_to_udp.ts:49-51 | Changing `useIntegerIndex`, `ipAddress` or `ipPort` never changes the body. |
| `PushIntegerToUdp.AbsentNumbersEncodeZero` | apint/src/actions/push_integer_to_udp.ts:50-51 | An absent index gives four zero bytes at 0..4. An absent edge value gives four zero bytes at 4..8. |
| `PushIntegerToUdp.KeyDownKeyUpShareIndex` | apint/src/actions/push_integer_to_udp.ts:50-76 | Press and release bodies agree on bytes 0..4. The two bodies are equal if and only if the defaulted down and up values are equal. |
| `PushIntegerToUdp.PayloadSignBytes` | apint/src/actions/push_integer_to_udp.ts:50-51 | Byte 3 is 0x80 or more exactly when the index is negative. Byte 7 is 0x80 or more exactly when the edge value is negative. |
| `PushIntegerToUdp.EveryBodyIsSent` | apint/src/actions/push_integer_to_udp.ts:49-51 | Every 8-byte sequence is the body of some int32 settings for each edge, so the encoder is onto. |
| `PushIntegerToUdp.Title` | apint/src/actions/push_integer_to_udp.ts:19-36 | The title is never empty and starts with `I` exactly when `useIntegerIndex` is truthy (otherwise it starts with the `D` line). |
| `PushIntegerToUdp.TitleIndexLine` | apint/src/actions/push_integer_to_udp.ts:22-33 | With the flag truthy, the title is `I <index>` plus a newline followed by the flag-off title. Otherwise it is the flag-off title. |
| `PushIntegerToUdp.TitleIsJoinedLines` | apint/src/actions/push_integer_to_udp.ts:19-36 | The title is its labelled lines (`I`?, `D`, `R`, `IP`, `P`) joined by single newlines. |
| `PushIntegerToUdp.TitleSplitsIntoLines` | apint/src/actions/push_integer_to_udp.ts:19-36 | Split at newlines, the title gives back exactly those lines: 5 with the flag truthy and 4 otherwise. This holds when the address and port hold no newline. |
| `PushIntegerToUdp.TitleReadsBack` | apint/src/actions/push_integer_to_udp.ts:22-32 | The `I`, `D` and `R` lines read back as the index, down and up numbers, 0 where absent. The `IP`/`P` lines show the fields, empty where absent. They come in the order `I`?, `D`, `R`, `IP`, `P`. |
| `PushIntegerToUdp.Destination` | apint/src/actions/push_integer_to_udp.ts:56-57 | The address (port text) sent to is empty exactly when the field is present and empty: an absent field is never sent empty. |
| `PushIntegerToUdp.DestinationPort` | apint/src/actions/push_integer_to_udp.ts:57 | An absent port gives port number 3615; a number is only read from non-empty port text. |
| `PushIntegerToUdp.DestinationDefaultsOnlyWhenAbsent` | apint/src/actions/push_integer_to_udp.ts:56-57 | Address and port text default to `127.0.0.1` and `3615` only when absent. A present field is used as is, even if empty. |
| `PushIntegerToUdp.DestinationPortNumber` | apint/src/actions/push_integer_to_udp.ts:57 | Absent port gives 3615. Port text that prints `n` gives `n`. A present but empty port gives no number. |
| `PushIntegerToUdp.TitleShowsDestinationIffPresent` | apint/src/actions/push_integer_to_udp.ts:56-57 | The title's `IP` line shows the address actually sent to if and only if the address field is present. The same holds for the `P` line and the port. |
| `PushIntegerToUdpExamples.PayloadExamples` | apint/src/actions/push_integer_to_udp.ts:49-76 | Index 3 pressed with 5 gives `03 00 00 00 05 00 00 00`. Index 0 released with -1 gives `00 00 00 00 FF FF FF FF`. |
| `PushIntegerToUdpExamples.PayloadExampleOtherEdgeUnread` | apint/src/actions/push_integer_to_udp.ts:49-51 | Index 0 pressed with 1 gives `00 00 00 00 01 00 00 00` even when the up value is 2^32, outside int32. |
| `PushIntegerToUdpExamples.TitleExampleWithIndex` | apint/src/actions/push_integer_to_udp.ts:22-27 | Flag on, index 7, values 1 and 2, `10.0.0.5`, `9000` gives `I 7\nD 1\nR 2\nIP 10.0.0.5\nP 9000`. |
| `PushIntegerToUdpExamples.TitleExampleWithoutIndex` | apint/src/actions/push_integer_to_udp.ts:28-32 | The same settings with the flag false give the same text without the `I` line. |
| `PushIntegerToUdpExamples.TitleExampleEmpty` | apint/src/actions/push_integer_to_udp.ts:29-32 | Empty settings give `D 0\nR 0\nIP \nP `. |
| `Int32LE.EncodeInt32` | apint/src/actions/push_integer_to_udp.ts:50-51 | `writeInt32LE` stores exactly four bytes for an int32. |
| `Int32LE.EncodeInt32Bytes` | apint/src/actions/push_integer_to_udp.ts:50 | The four bytes are the two's-complement pattern's bytes, least significant first. |
| `Int32LE.DecodeEncodeInt32` | apint/src/actions/push_integer_to_udp.ts:50-51 | Reading back the four bytes of any int32 gives that int32. |
| `Int32LE.EncodeDecodeInt32` | apint/src/actions/push_integer_to_udp.ts:50-51 | Every four-byte pattern is the encoding of the int32 it reads as. |
| `Int32LE.EncodeInt32Injective` | apint/src/actions/push_integer_to_udp.ts:75-76 | Two int32s have equal encodings if and only if they are equal. |
| `Int32LE.EncodeInt32Sign` | apint/src/actions/push_integer_to_udp.ts:51 | The last byte is 0x80 or more exactly for negative values. |
| `Int32LE.EncodeInt32Examples` | apint/src/actions/push_integer_to_udp.ts:76 | 0, -1, 5, -2^31 and 2^31-1 encode as `00×4`, `FF×4`, `05 00 00 00`, `00 00 00 80` and `FF FF FF 7F`. |
| `Int32LE.FromToBytesLE` | apint/src/actions/push_integer_to_udp.ts:50 | Reading back the n little-endian bytes written for an unsigned value below 256^n gives that value. |
| `Int32LE.ToFromBytesLE` | apint/src/actions/push_integer_to_udp.ts:75 | Writing the value of a byte sequence gives back the same bytes. |
| `Decimal.IntToDecimal` | apint/src/actions/push_integer_to_udp.ts:23-30 | The `${n}` text of an integer is non-empty and made only of digits and `-`, so it never holds a newline. |
| `Decimal.IntToDecimalRoundTrip` | apint/src/actions/push_integer_to_udp.ts:23-25 | The text printed for any integer reads back as that integer. |
| `Decimal.IntToDecimalInjective` | apint/src/actions/push_integer_to_udp.ts:29-30 | Two integers print the same text if and only if they are equal. |

## Left out

- Sending: `dgram.createSocket`, `client.send`, `unref`, `close`, and the error callback that logs and sets the title to `"Error"` (`push_integer_to_udp.ts:54-61`, `:79-92`). This is network I/O with asynchronous callbacks. `OnKeyDown`/`OnKeyUp` return the title, the message and the destination that would be passed on.
- `setTitle` and `onWillAppear` (`push_integer_to_udp.ts:15-17`, `:47`, `:72`) are calls into the host SDK. Only the string they receive, `Title(s)`, is modelled.
- `WriteInt32LE`: Node's `RangeError` for out-of-range values or offsets, and the conversion of non-integral JavaScript numbers, are not modelled. The index and the edge value being written are required to be int32 integers (the other edge's value is not constrained), and the offsets are 0 and 4 in an 8-byte buffer.
- `DestinationPort`: `parseInt(…, 10)` is modelled only for text that is an optional minus sign followed by digits. Leading whitespace, a `+` sign, trailing junk after the digits (which `parseInt` accepts) and `NaN` are not modelled. Such text gives `None`.
- `Title`: numbers are rendered as integers only. JavaScript's exponent form for magnitudes of 1e21 and above, and fractional numbers, are not modelled.
- `ShowsIndex`: `useIntegerIndex` is a `bool` when present, so "truthy" is exactly `Some(true)`. Non-boolean values stored under that key by a settings editor are not modelled.
- `apint/src/plugin.ts` (logger level, action registration, `connect()`) and `APIntIO/plugin.js` (WebSocket registration and logging) are wiring with no logic to model.
