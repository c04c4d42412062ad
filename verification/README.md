# APsystems ECU protocol codec

A model of the protocol core of the openHAB `apsystems` binding. The binding talks to an APsystems ECU, the
gateway of a set of solar micro-inverters, over a plain TCP socket. The model covers six parts:

- Requests. Each is an ASCII frame `APS11<length><code><ECU id>END<extension>\n`. The four-digit length field is
  filled in after the frame is laid out.
- Response framing. Each response is checked in a fixed order: start signature "APS", command group 11 or 12,
  declared length, end signature "END\n". Then it is routed on its command code.
- Payload decoders. There are four: system info, realtime data (with per-inverter records), inverter signal
  levels, and power of the day.
- Binary helpers. These cover big-endian integers with saturation, BCD digit strings and BCD timestamps.
- Enumerations. Inverter state and inverter type codes, and the command and status codes.
- Connector logic. The `END\n` scanner that decides where a reply ends, and the three-second relaxation pause
  between exchanges.

Everything is a pure function over byte sequences (`uint8` values 0..255). Java exceptions become
`Fail(Error)` and Java `null` becomes `Ok(None)`. Modules follow the Java classes:

| file | module | Java |
|---|---|---|
| results.dfy | Results | exceptions and `null` results |
| java_prims.dfy | JavaPrims | the JDK behaviour the code relies on: signed bytes, `Arrays.copyOfRange`, US-ASCII and UTF-8 coding, `Integer.parseInt`, `%d` / `%04d` |
| binary_tools.dfy | BinaryTools | BinaryTools.java |
| constants.dfy | Constants | apsystemsBindingConstants.java |
| ecu_request.dfy | EcuRequest | ECURequest.java |
| ecu_response.dfy | EcuResponse | ECUResponse.java |
| system_info.dfy | SystemInfo | SystemInfoPayload.java |
| realtime_data.dfy | Realtime | RealtimeDataPayload.java, InverterRealtimeData.java |
| inverter_signal.dfy | InverterSignal | InverterSignalPayload.java |
| power_of_day.dfy | PowerOfDay | PowerOfDayPayload.java |
| ecu_connector.dfy | EcuConnector | ECUConnector.java (scanner, pause, `fetch*`) |

Each decoder has an encoder as its partner: the bytes an ECU would send for a value. The round trip
`Decode(Encode(x)) == Ok(x)` is proved for system info, realtime data, inverter signals, whole response frames
and BCD timestamps. The request encoder is paired with `parseInt` of its own fields instead.

## Model

| member | source | states |
|---|---|---|
| JavaPrims.SignedByte | bundles/org.openhab.binding.apsystems/src/main/java/org/openhab/binding/apsystems/internal/ECU/InverterRealtimeData.java:126 | a byte read into an `int` lies in -128..127, is negative exactly when the top bit is set, and equals the unsigned byte modulo 256 |
| JavaPrims.ToInt32 | bundles/org.openhab.binding.apsystems/src/main/java/org/openhab/binding/apsystems/internal/ECU/BinaryTools.java:113 | the shift-and-or of four bytes wraps to a 32-bit value: in int range, congruent modulo 2^32, unchanged when it already fits |
| JavaPrims.CopyOfRange | bundles/org.openhab.binding.apsystems/src/main/java/org/openhab/binding/apsystems/internal/ECU/SystemInfoPayload.java:140-159 | `Arrays.copyOfRange` succeeds exactly when `from <= to` and `0 <= from <= length`; the copy has `to - from` bytes, each the source byte or 0 past the end |
| JavaPrims.CopyOfRangeWithin | bundles/org.openhab.binding.apsystems/src/main/java/org/openhab/binding/apsystems/internal/ECU/SystemInfoPayload.java:140-149 | within bounds the copy is the plain slice |
| JavaPrims.AsciiEncode | bundles/org.openhab.binding.apsystems/src/main/java/org/openhab/binding/apsystems/internal/ECU/ECUResponse.java:80 | US-ASCII decoding of the encoded text gives the text back, byte for character |
| JavaPrims.Utf8Char | bundles/org.openhab.binding.apsystems/src/main/java/org/openhab/binding/apsystems/internal/ECU/ECURequest.java:94 | UTF-8 uses 1 to 4 bytes per character, and one byte (the code itself) exactly for ASCII |
| JavaPrims.Utf8OfAscii | bundles/org.openhab.binding.apsystems/src/main/java/org/openhab/binding/apsystems/internal/ECU/ECURequest.java:93-95 | for ASCII text, UTF-8 bytes are the ASCII bytes and decode back as US-ASCII to the same text |
| JavaPrims.ParseInt | bundles/org.openhab.binding.apsystems/src/main/java/org/openhab/binding/apsystems/internal/ECU/ECUResponse.java:97 | `Integer.parseInt` succeeds exactly on an optional "+" or "-" followed by at least one digit whose value fits an int, giving that value with its sign, ten-digit values included; every failure is a NumberFormatException on the text |
| JavaPrims.DecimalValue | bundles/org.openhab.binding.apsystems/src/main/java/org/openhab/binding/apsystems/internal/ECU/ECURequest.java:83 | `%d` text of n reads back as n |
| JavaPrims.DecimalLength | bundles/org.openhab.binding.apsystems/src/main/java/org/openhab/binding/apsystems/internal/ECU/ECURequest.java:86 | `%d` text of n fits in w characters exactly when n < 10^w |
| JavaPrims.ZeroPad | bundles/org.openhab.binding.apsystems/src/main/java/org/openhab/binding/apsystems/internal/ECU/ECURequest.java:86 | `%04d`-style text is all digits, as wide as asked (or wider when n needs it), and reads back as n |
| JavaPrims.ParseZeroPad | bundles/org.openhab.binding.apsystems/src/main/java/org/openhab/binding/apsystems/internal/ECU/ECURequest.java:86 | `parseInt` of a zero-padded field of at most nine digits returns the number padded |
| BinaryTools.ByteArrayToInt | bundles/org.openhab.binding.apsystems/src/main/java/org/openhab/binding/apsystems/internal/ECU/BinaryTools.java:111-118 | four bytes give the wrapped 32-bit big-endian value; two bytes give the unsigned 16-bit value; any other length gives 0 |
| BinaryTools.TwoBytesToInt | bundles/org.openhab.binding.apsystems/src/main/java/org/openhab/binding/apsystems/internal/ECU/BinaryTools.java:28-43 | the result is always in 0..65535; up to two bytes read as unsigned big-endian (one byte is its unsigned value, none is 0); longer input saturates to 0xFFFF |
| BinaryTools.FourBytesToInt | bundles/org.openhab.binding.apsystems/src/main/java/org/openhab/binding/apsystems/internal/ECU/BinaryTools.java:87-102 | the result is always an int; shorter input is zero-extended on the left; four bytes read as signed two's complement; longer input saturates to `Integer.MAX_VALUE` |
| BinaryTools.TwoBytesRoundTrip | bundles/org.openhab.binding.apsystems/src/main/java/org/openhab/binding/apsystems/internal/ECU/BinaryTools.java:111-115 | 16-bit big-endian encoding and `TwoBytesToInt` are inverse bijections between 0..65535 and two-byte arrays |
| BinaryTools.FourBytesRoundTrip | bundles/org.openhab.binding.apsystems/src/main/java/org/openhab/binding/apsystems/internal/ECU/BinaryTools.java:87-102 | 32-bit big-endian encoding and `FourBytesToInt` are inverse bijections between int values and four-byte arrays |
| BinaryTools.Int32BEValue | bundles/org.openhab.binding.apsystems/src/main/java/org/openhab/binding/apsystems/internal/ECU/BinaryTools.java:113 | the signed big-endian bytes of an int read back as that int |
| BinaryTools.Int32BEOfBytes | bundles/org.openhab.binding.apsystems/src/main/java/org/openhab/binding/apsystems/internal/ECU/BinaryTools.java:113 | reading four bytes and encoding the value again gives the same bytes |
| BinaryTools.NibbleText | bundles/org.openhab.binding.apsystems/src/main/java/org/openhab/binding/apsystems/internal/ECU/BinaryTools.java:80-81 | a nibble prints as decimal digits, one for 0..9 and two for 10..15 |
| BinaryTools.BcdText | bundles/org.openhab.binding.apsystems/src/main/java/org/openhab/binding/apsystems/internal/ECU/BinaryTools.java:77-82 | the nibble text of a byte array is all digits, two to four per byte |
| BinaryTools.Bcd2Str | bundles/org.openhab.binding.apsystems/src/main/java/org/openhab/binding/apsystems/internal/ECU/BinaryTools.java:76-85 | `bcd2Str` fails exactly on empty input; otherwise it is the nibble text with one leading '0' dropped, and only when the text starts with '0' |
| BinaryTools.BcdTextOfEncode | bundles/org.openhab.binding.apsystems/src/main/java/org/openhab/binding/apsystems/internal/ECU/BinaryTools.java:79-82 | packing an even-length digit string into BCD bytes and printing the nibbles gives the digits back |
| BinaryTools.BcdEncodeOfText | bundles/org.openhab.binding.apsystems/src/main/java/org/openhab/binding/apsystems/internal/ECU/BinaryTools.java:79-82 | for bytes whose nibbles are all 0..9, printing the nibbles and packing them again gives the bytes back |
| BinaryTools.Bcd2StrRoundTrip | bundles/org.openhab.binding.apsystems/src/main/java/org/openhab/binding/apsystems/internal/ECU/BinaryTools.java:76-85 | `bcd2Str` of packed digits is those digits, less their first character exactly when it is '0' |
| BinaryTools.InverterIdRoundTrip | bundles/org.openhab.binding.apsystems/src/main/java/org/openhab/binding/apsystems/internal/ECU/InverterRealtimeData.java:125 | a 12-digit inverter id not starting with '0' packs into 6 bytes that `bcd2Str` turns back into the id |
| BinaryTools.PatternForLength | bundles/org.openhab.binding.apsystems/src/main/java/org/openhab/binding/apsystems/internal/ECU/BinaryTools.java:49-64 | the parse pattern is `HH:mm` for 4 digits, `yyyyMMdd` for 8, `yyyyMMddHHmmss` for 14 and `yyyyMMddHHmmssSS` for any other length |
| BinaryTools.Resolve | bundles/org.openhab.binding.apsystems/src/main/java/org/openhab/binding/apsystems/internal/ECU/BinaryTools.java:66 | the smart resolver accepts exactly the field values in range (year from 1, month 1..12, day 1..31, hour 0..23, minute and second 0..59); its result is a valid date-time, and is the fields themselves when the day exists in that month; the 24:00 roll-over is left out |
| BinaryTools.ParseWithPattern | bundles/org.openhab.binding.apsystems/src/main/java/org/openhab/binding/apsystems/internal/ECU/BinaryTools.java:66 | `LocalDateTime.parse` yields a value only for the two full date-time patterns on texts of matching length, and that value is a valid date-time |
| BinaryTools.BcdToDateTime | bundles/org.openhab.binding.apsystems/src/main/java/org/openhab/binding/apsystems/internal/ECU/BinaryTools.java:45-67 | `bcdToDateTime` succeeds only on 14- or 16-digit texts; the 4- and 8-digit patterns never yield a date-time |
| BinaryTools.Format14Parses | bundles/org.openhab.binding.apsystems/src/main/java/org/openhab/binding/apsystems/internal/ECU/BinaryTools.java:62-66 | the 14-digit text of a date-time parses back with the `yyyyMMddHHmmss` pattern |
| BinaryTools.BcdTimestampRoundTrip | bundles/org.openhab.binding.apsystems/src/main/java/org/openhab/binding/apsystems/internal/ECU/BinaryTools.java:45-67 | the 7 BCD bytes of a whole-second timestamp from year 1000 on decode with `bcdToDateTime` to that timestamp |
| BinaryTools.IntegerExamples | bundles/org.openhab.binding.apsystems/src/test/java/org/openhab/binding/apsystems/internal/BinToolsTest.java:84-163 | the integer fixtures: 836, 326, 0, the maximum, and the saturating overflows of both readers |
| BinaryTools.TimestampExample | bundles/org.openhab.binding.apsystems/src/test/java/org/openhab/binding/apsystems/internal/BinToolsTest.java:207-222 | 2023-07-27 16:39:22 as 7 BCD bytes decodes to itself |
| Constants.CommandOfCode | bundles/org.openhab.binding.apsystems/src/main/java/org/openhab/binding/apsystems/internal/apsystemsBindingConstants.java:44-48 | the command codes are exactly 1, 2, 3, 4 and 30, each naming a different command |
| Constants.CommandCode | bundles/org.openhab.binding.apsystems/src/main/java/org/openhab/binding/apsystems/internal/apsystemsBindingConstants.java:44-48 | each command's code maps back to that command, so the five codes are pairwise distinct |
| Constants.InverterStateFromInt | bundles/org.openhab.binding.apsystems/src/main/java/org/openhab/binding/apsystems/internal/apsystemsBindingConstants.java:64-75 | 1 is Online, 0 is Offline, and every other integer (including -1) is Unknown |
| Constants.IntFromInverterState | bundles/org.openhab.binding.apsystems/src/main/java/org/openhab/binding/apsystems/internal/apsystemsBindingConstants.java:77-88 | each state's code is in -1..1 and decodes back to that state |
| Constants.InverterTypeFromInt | bundles/org.openhab.binding.apsystems/src/main/java/org/openhab/binding/apsystems/internal/apsystemsBindingConstants.java:99-117 | codes outside 0..5 decode to `unknown`, and only 0 or such codes do |
| Constants.IntFromInverterType | bundles/org.openhab.binding.apsystems/src/main/java/org/openhab/binding/apsystems/internal/apsystemsBindingConstants.java:119-136 | each type's code is in 0..5 and decodes back to that type |
| Constants.InverterTypeCodesRoundTrip | bundles/org.openhab.binding.apsystems/src/main/java/org/openhab/binding/apsystems/internal/apsystemsBindingConstants.java:99-136 | every code 0..5 survives decoding and re-encoding |
| EcuRequest.FormatDate | bundles/org.openhab.binding.apsystems/src/main/java/org/openhab/binding/apsystems/internal/ECU/ECURequest.java:60-61 | a date in years 1..9999 formats as eight digits |
| EcuRequest.Replace | bundles/org.openhab.binding.apsystems/src/main/java/org/openhab/binding/apsystems/internal/ECU/ECURequest.java:87 | replacing every "XXXX" with a four-character field keeps the text's length |
| EcuRequest.ReplaceNoPlaceholder | bundles/org.openhab.binding.apsystems/src/main/java/org/openhab/binding/apsystems/internal/ECU/ECURequest.java:87 | text without "XXXX" is left unchanged |
| EcuRequest.ReplaceLeading | bundles/org.openhab.binding.apsystems/src/main/java/org/openhab/binding/apsystems/internal/ECU/ECURequest.java:87 | a leading "XXXX" is replaced and the scan continues after it |
| EcuRequest.ReplaceAppend | bundles/org.openhab.binding.apsystems/src/main/java/org/openhab/binding/apsystems/internal/ECU/ECURequest.java:87 | replacement distributes over concatenation when no "XX" straddles the seam |
| EcuRequest.ReplaceKeepsAscii | bundles/org.openhab.binding.apsystems/src/main/java/org/openhab/binding/apsystems/internal/ECU/ECURequest.java:87 | replacing with ASCII in ASCII text gives ASCII text |
| EcuRequest.Template | bundles/org.openhab.binding.apsystems/src/main/java/org/openhab/binding/apsystems/internal/ECU/ECURequest.java:83-84 | the formatted frame is "APS", the group, four placeholder characters, the padded code, the id, "END", the extension and a newline; its length is the sum of those parts |
| EcuRequest.LengthField | bundles/org.openhab.binding.apsystems/src/main/java/org/openhab/binding/apsystems/internal/ECU/ECURequest.java:86 | the length field is the digits of the template's `String.length()` in UTF-16 units less one, and has exactly four digits exactly when that length is at most 10000 |
| EcuRequest.ToString | bundles/org.openhab.binding.apsystems/src/main/java/org/openhab/binding/apsystems/internal/ECU/ECURequest.java:82-90 | while the length field has four digits, replacing the placeholders keeps the template's length in characters and in UTF-16 units |
| EcuRequest.GetBytes | bundles/org.openhab.binding.apsystems/src/main/java/org/openhab/binding/apsystems/internal/ECU/ECURequest.java:93-95 | the UTF-8 bytes are at least as many as the characters, and an ASCII frame is one byte per character that decodes back to the frame |
| EcuRequest.ReplaceKeepsUtf16Length | bundles/org.openhab.binding.apsystems/src/main/java/org/openhab/binding/apsystems/internal/ECU/ECURequest.java:86-87 | replacing "XXXX" with four characters below U+10000 keeps the UTF-16 length |
| EcuRequest.TemplateUtf16Length | bundles/org.openhab.binding.apsystems/src/main/java/org/openhab/binding/apsystems/internal/ECU/ECURequest.java:83-86 | the template's UTF-16 length is its character count plus one for every id or extension character above U+FFFF, and equals the character count for BMP-only ids and extensions |
| EcuRequest.SupplementaryIdCountsTwice | bundles/org.openhab.binding.apsystems/src/main/java/org/openhab/binding/apsystems/internal/ECU/ECURequest.java:86-87 | an id of one character above U+FFFF gives an 18-character frame whose length field is "0018", because `String.length()` counts the surrogate pair |
| EcuRequest.FrameLayout | bundles/org.openhab.binding.apsystems/src/main/java/org/openhab/binding/apsystems/internal/ECU/ECURequest.java:82-90 | the sent frame is head, length field, padded code, the id and extension with any "XXXX" also replaced, "END" and "\n", in that order |
| EcuRequest.FrameLengthField | bundles/org.openhab.binding.apsystems/src/main/java/org/openhab/binding/apsystems/internal/ECU/ECURequest.java:83-88 | for group 11 and templates of at most 10000 UTF-16 units, the frame keeps the template's length, starts "APS11", and its length field parses to the frame's `String.length()` less the newline |
| EcuRequest.FrameKeepsIdAndExtension | bundles/org.openhab.binding.apsystems/src/main/java/org/openhab/binding/apsystems/internal/ECU/ECURequest.java:83-87 | when id and extension hold no "XXXX" they appear in the frame verbatim |
| EcuRequest.PlaceholderIdIsRewritten | bundles/org.openhab.binding.apsystems/src/main/java/org/openhab/binding/apsystems/internal/ECU/ECURequest.java:87 | an id of "XXXX" is itself overwritten with the length field, so the frame differs from the template |
| EcuRequest.SystemInfoFrame | bundles/org.openhab.binding.apsystems/src/main/java/org/openhab/binding/apsystems/internal/ECU/ECURequest.java:46-49 | the system-info request is exactly "APS1100160001END\n" |
| EcuRequest.Factories | bundles/org.openhab.binding.apsystems/src/main/java/org/openhab/binding/apsystems/internal/ECU/ECURequest.java:33-78 | every request uses group 11; the factories give codes 1, 2, 3, 4 and 30 for their commands; power of day carries the date then "END", energy carries the period then "END", and the others carry none |
| EcuRequest.PowerOfDayExtensionRoundTrip | bundles/org.openhab.binding.apsystems/src/main/java/org/openhab/binding/apsystems/internal/ECU/ECURequest.java:57-64 | the power-of-day extension is 11 characters whose year, month and day fields parse back to the date, followed by "END" |
| EcuRequest.AsciiRequestBytes | bundles/org.openhab.binding.apsystems/src/main/java/org/openhab/binding/apsystems/internal/ECU/ECURequest.java:93-95 | with an ASCII id and extension, `GetBytes` has one byte per character and decodes back to the frame |
| EcuResponse.CheckFrame | bundles/org.openhab.binding.apsystems/src/main/java/org/openhab/binding/apsystems/internal/ECU/ECUResponse.java:76-110 | the checks fail in order, each with its own error: fewer than 13 bytes, no "APS", a group other than 11 or 12 (naming it), a length field that does not parse, a buffer shorter than the length plus one (with both sizes), a length too small to hold the end signature, a missing "END" there; a frame that passes has all of these right |
| EcuResponse.Dispatch | bundles/org.openhab.binding.apsystems/src/main/java/org/openhab/binding/apsystems/internal/ECU/ECUResponse.java:112-172 | a code that does not parse fails with NumberFormat, code 4 with NotImplemented, any other code without a decoder with InvalidCommandCode naming the text; for codes 2, 3 and 30 a status that does not parse fails and a status other than 0 gives null; a response carries the group, the length, status 0, the parsed code, and what that code's decoder made of the bytes from the payload start to the end signature |
| EcuResponse.MatchStatus | bundles/org.openhab.binding.apsystems/src/main/java/org/openhab/binding/apsystems/internal/ECU/ECUResponse.java:181-184 | the match status is `parseInt` of bytes 13..15 and is read only when those bytes exist |
| EcuResponse.DecodePayload | bundles/org.openhab.binding.apsystems/src/main/java/org/openhab/binding/apsystems/internal/ECU/ECUResponse.java:119-161 | a decoded payload is the kind the command code names |
| EcuResponse.Decode | bundles/org.openhab.binding.apsystems/src/main/java/org/openhab/binding/apsystems/internal/ECU/ECUResponse.java:72-173 | a failed frame check is the result; after it, an unparsable code, code 4 and codes without a decoder fail with their own errors; a success passed every frame check and had a payload-carrying code; a response carries the frame's group and length, status OK and a payload of its code's kind; null comes only from a non-OK status on a code other than system info |
| EcuResponse.CreateFromBytes | bundles/org.openhab.binding.apsystems/src/main/java/org/openhab/binding/apsystems/internal/ECU/ECUResponse.java:72-77 | a null input fails with "No data" and fewer than 13 bytes fail before any other check |
| EcuResponse.ShortFrameHasNoCode | bundles/org.openhab.binding.apsystems/src/main/java/org/openhab/binding/apsystems/internal/ECU/ECUResponse.java:93-119 | a frame that passes the checks but is too short for a match status has its code field overlapping "END", so routing fails at `parseInt` |
| EcuResponse.DecodeIsDispatch | bundles/org.openhab.binding.apsystems/src/main/java/org/openhab/binding/apsystems/internal/ECU/ECUResponse.java:72-172 | once the frame checks pass with a group and a length, the response is what the code dispatch makes of them |
| EcuResponse.DispatchOfBadCode | bundles/org.openhab.binding.apsystems/src/main/java/org/openhab/binding/apsystems/internal/ECU/ECUResponse.java:116-119 | a command code that does not parse fails the dispatch with NumberFormat naming the code text, whatever the group and length |
| EcuResponse.TrailingBytesIgnored | bundles/org.openhab.binding.apsystems/src/main/java/org/openhab/binding/apsystems/internal/ECU/ECUResponse.java:100-164 | bytes after the derived length never change the outcome |
| EcuResponse.TruncatedFrame | bundles/org.openhab.binding.apsystems/src/main/java/org/openhab/binding/apsystems/internal/ECU/ECUResponse.java:100-102 | cutting a valid frame anywhere after the header yields the size-mismatch error with the given and declared sizes |
| EcuResponse.HeadTextFields | bundles/org.openhab.binding.apsystems/src/main/java/org/openhab/binding/apsystems/internal/ECU/ECUResponse.java:80-97 | a built header has the signature, the group digits, a length field that parses to the total less one, and a code field that parses to the code |
| EcuResponse.StatusFieldValue | bundles/org.openhab.binding.apsystems/src/main/java/org/openhab/binding/apsystems/internal/ECU/ECUResponse.java:181-184 | the two status digits written for a non-system-info response parse back to the status |
| EcuResponse.CheckResponseBytes | bundles/org.openhab.binding.apsystems/src/main/java/org/openhab/binding/apsystems/internal/ECU/ECUResponse.java:79-110 | a frame built from group, code, status and payload passes every check with its own group and length, and its code parses back, whatever follows it |
| EcuResponse.ResponseBytesPayload | bundles/org.openhab.binding.apsystems/src/main/java/org/openhab/binding/apsystems/internal/ECU/ECUResponse.java:122-158 | the payload slice taken from a built frame is exactly the payload put in |
| EcuResponse.ResponseBytesStatus | bundles/org.openhab.binding.apsystems/src/main/java/org/openhab/binding/apsystems/internal/ECU/ECUResponse.java:181-184 | the match status read from a built frame is the status put in |
| EcuResponse.DecodeOfParts | bundles/org.openhab.binding.apsystems/src/main/java/org/openhab/binding/apsystems/internal/ECU/ECUResponse.java:119-172 | once the frame checks, code, status and payload slice are known, the result is null for a non-OK status, and otherwise the payload decoder's verdict wrapped in a response |
| EcuResponse.DecodeResponseBytes | bundles/org.openhab.binding.apsystems/src/main/java/org/openhab/binding/apsystems/internal/ECU/ECUResponse.java:72-173 | a built frame, with any trailing bytes, decodes to null for a non-OK status of codes 2, 3 and 30, and otherwise to a response holding exactly what the payload decoder makes of the payload |
| EcuResponse.SystemInfoResponse | bundles/org.openhab.binding.apsystems/src/main/java/org/openhab/binding/apsystems/internal/ECU/ECUResponse.java:120-126 | a system-info frame round-trips to a response with status forced to OK and the encoded info |
| EcuResponse.RealtimeResponse | bundles/org.openhab.binding.apsystems/src/main/java/org/openhab/binding/apsystems/internal/ECU/ECUResponse.java:128-137 | a realtime frame with status OK round-trips to its payload |
| EcuResponse.InverterSignalResponse | bundles/org.openhab.binding.apsystems/src/main/java/org/openhab/binding/apsystems/internal/ECU/ECUResponse.java:152-161 | a signal frame with status OK round-trips to its entries |
| EcuResponse.PowerOfDayResponse | bundles/org.openhab.binding.apsystems/src/main/java/org/openhab/binding/apsystems/internal/ECU/ECUResponse.java:139-147 | a power-of-day frame with status OK decodes exactly when its payload is empty |
| SystemInfo.DecodeFixed | bundles/org.openhab.binding.apsystems/src/main/java/org/openhab/binding/apsystems/internal/ECU/SystemInfoPayload.java:140-149 | the fixed part decodes exactly when 37 bytes are present (the channel copy zero-pads); id and model are ASCII 0..12 and 12..14; the three energies are signed 32-bit reads at 14, 18 and 22; bytes 26..33 are skipped; the counts are unsigned 16-bit reads at 33 and 35; the channel is ASCII 37..39 |
| SystemInfo.ReadLengthPrefixed | bundles/org.openhab.binding.apsystems/src/main/java/org/openhab/binding/apsystems/internal/ECU/SystemInfoPayload.java:151-159 | a length-prefixed field takes three length bytes then that many text bytes, and the next position is just past them |
| SystemInfo.Decode | bundles/org.openhab.binding.apsystems/src/main/java/org/openhab/binding/apsystems/internal/ECU/SystemInfoPayload.java:137-167 | a decoded payload had at least 42 bytes; id, model and channel are the ASCII of 0..12, 12..14 and 37..39; lifetime energy, last power and day energy are the signed 32-bit reads at 14, 18 and 22; the inverter and online counts are the unsigned 16-bit reads at 33 and 35; the three bytes at 39 parse to the version's length n, the version is the text 42..42+n, the three bytes after it parse to the timezone's length m, and the timezone is the (zero-padded) copy of the m bytes after those; the last-EMA default "nver" and both MAC fields "not yet implemented" are kept |
| SystemInfo.DecodeVersionAndZone | bundles/org.openhab.binding.apsystems/src/main/java/org/openhab/binding/apsystems/internal/ECU/SystemInfoPayload.java:151-159 | the version's length field at 39 parses to n and lies inside with the timezone's length field after it; the version is bytes 42..42+n, the timezone's length field parses to its length, and the timezone is the copy of that many bytes after it |
| SystemInfo.ReadLengthPrefixedFields | bundles/org.openhab.binding.apsystems/src/main/java/org/openhab/binding/apsystems/internal/ECU/SystemInfoPayload.java:151-159 | a field that reads has its three length bytes inside the buffer, they parse to the text's length, and the text is the copy of that many bytes after them |
| SystemInfo.ReadLengthPrefixedOk | bundles/org.openhab.binding.apsystems/src/main/java/org/openhab/binding/apsystems/internal/ECU/SystemInfoPayload.java:151-159 | a field reads exactly when its three length bytes are inside the buffer and parse to a non-negative int |
| SystemInfo.StagesOkIff | bundles/org.openhab.binding.apsystems/src/main/java/org/openhab/binding/apsystems/internal/ECU/SystemInfoPayload.java:137-167 | the fixed part and the two length-prefixed texts all decode exactly when the layout holds |
| SystemInfo.DecodeFixedOf | bundles/org.openhab.binding.apsystems/src/main/java/org/openhab/binding/apsystems/internal/ECU/SystemInfoPayload.java:140-149 | fixed-part copies holding a valid info's encoded fields decode to that info's fixed fields |
| SystemInfo.CutLengthFieldFails | bundles/org.openhab.binding.apsystems/src/main/java/org/openhab/binding/apsystems/internal/ECU/SystemInfoPayload.java:151-157 | a length field cut short by the end of the payload contains a zero byte and fails `parseInt` |
| SystemInfo.DecodeSucceedsIff | bundles/org.openhab.binding.apsystems/src/main/java/org/openhab/binding/apsystems/internal/ECU/SystemInfoPayload.java:137-167 | decoding succeeds exactly when the payload has 42 bytes, a non-negative numeric version length whose text and timezone length fit, and a non-negative numeric timezone length |
| SystemInfo.LengthPrefixed | bundles/org.openhab.binding.apsystems/src/main/java/org/openhab/binding/apsystems/internal/ECU/SystemInfoPayload.java:151-159 | a written field is a three-digit length that parses to the text's length, then the text |
| SystemInfo.EncodedFixedFields | bundles/org.openhab.binding.apsystems/src/main/java/org/openhab/binding/apsystems/internal/ECU/SystemInfoPayload.java:140-149 | the encoder puts every fixed field at the offset the decoder reads it from |
| SystemInfo.DecodeFixedAt | bundles/org.openhab.binding.apsystems/src/main/java/org/openhab/binding/apsystems/internal/ECU/SystemInfoPayload.java:140-149 | the fixed part of an encoded info, followed by anything, decodes to that info's fixed fields |
| SystemInfo.ReadLengthPrefixedAt | bundles/org.openhab.binding.apsystems/src/main/java/org/openhab/binding/apsystems/internal/ECU/SystemInfoPayload.java:151-159 | a written field reads back as its text, wherever it sits |
| SystemInfo.DecodeVersionAndZoneAt | bundles/org.openhab.binding.apsystems/src/main/java/org/openhab/binding/apsystems/internal/ECU/SystemInfoPayload.java:151-159 | version then timezone, written after the fixed part, read back as themselves |
| SystemInfo.DecodeEncode | bundles/org.openhab.binding.apsystems/src/main/java/org/openhab/binding/apsystems/internal/ECU/SystemInfoPayload.java:137-167 | every valid info, followed by any bytes, decodes back to itself |
| SystemInfo.EmaBytesIgnored | bundles/org.openhab.binding.apsystems/src/main/java/org/openhab/binding/apsystems/internal/ECU/SystemInfoPayload.java:145-146 | the seven bytes at 26..33 never affect the decoded payload |
| SystemInfo.Example | bundles/org.openhab.binding.apsystems/src/test/java/org/openhab/binding/apsystems/internal/ECUResponseTest.java:40-66 | the captured system info ("216300090693", model "01", 836 W, 2 of 2 inverters online, channel "10", "ECU_B_1.2.26E", "Etc/GMT-8") round-trips, with 115.0 kWh lifetime and 3.43 kWh today |
| SystemInfo.LifeTimeEnergy | bundles/org.openhab.binding.apsystems/src/main/java/org/openhab/binding/apsystems/internal/ECU/SystemInfoPayload.java:142 | the lifetime energy in kWh times 10 is the raw reading, non-negative for a non-negative reading |
| SystemInfo.CurrentDayEnergy | bundles/org.openhab.binding.apsystems/src/main/java/org/openhab/binding/apsystems/internal/ECU/SystemInfoPayload.java:144 | the day's energy in kWh times 100 is the raw reading, non-negative for a non-negative reading |
| Realtime.ResolveType | bundles/org.openhab.binding.apsystems/src/main/java/org/openhab/binding/apsystems/internal/ECU/InverterRealtimeData.java:134-144 | type YC600orDS3 resolves by id prefix: "40" gives Y600, "70" gives DS3, anything else gives unknown; other types are kept; the result is never YC600orDS3 |
| Realtime.RecordHead | bundles/org.openhab.binding.apsystems/src/main/java/org/openhab/binding/apsystems/internal/ECU/InverterRealtimeData.java:125-144 | a record head needs its state byte inside the payload, and then succeeds exactly when bytes 7..9 of the record parse as an int; the id is bcd2Str of the record's first six bytes; the state is the signed state byte's enum value; the type is the parsed code's enum value resolved by the id, so code "01" becomes Y600, DS3 or unknown by the id's prefix |
| Realtime.Ds3Readings | bundles/org.openhab.binding.apsystems/src/main/java/org/openhab/binding/apsystems/internal/ECU/InverterRealtimeData.java:157-166 | the four DS3 readings succeed exactly when six of their bytes are present; each is the 16-bit value of its own two-byte copy, in the order power 1, voltage 1, power 2, voltage 2, and lies in 0..65535 |
| Realtime.DecodeRecord | bundles/org.openhab.binding.apsystems/src/main/java/org/openhab/binding/apsystems/internal/ECU/InverterRealtimeData.java:124-168 | a record fails with the head's error when its head fails, and a DS3 record fails when fewer than 19 of its bytes are present; a decoded record has the head's id, state and resolved type, the frequency of bytes 9..11, the temperature of the copy of bytes 11..13, the DS3 readings from byte 13 (zero for other models), and ends 21 bytes on for DS3 and 13 otherwise |
| Realtime.DecodeInverters | bundles/org.openhab.binding.apsystems/src/main/java/org/openhab/binding/apsystems/internal/ECU/InverterRealtimeData.java:117-173 | exactly the requested number of records is produced, each well formed |
| Realtime.DecodeHeader | bundles/org.openhab.binding.apsystems/src/main/java/org/openhab/binding/apsystems/internal/ECU/RealtimeDataPayload.java:65-67 | the model is ASCII 0..2, the count is the unsigned 16-bit value at 2..4, and the timestamp is `bcdToDateTime` of the seven bytes at 4..11, a valid date-time; a timestamp that fails to parse fails the header |
| Realtime.DecodeHeaderOf | bundles/org.openhab.binding.apsystems/src/main/java/org/openhab/binding/apsystems/internal/ECU/RealtimeDataPayload.java:65-67 | eleven header bytes whose BCD part names a time decode to the model, the count and that time |
| Realtime.Decode | bundles/org.openhab.binding.apsystems/src/main/java/org/openhab/binding/apsystems/internal/ECU/RealtimeDataPayload.java:62-73 | the payload has at least 11 bytes; model and count come from the header, and the timestamp is `bcdToDateTime` of bytes 4..11; the records are the decoding of bytes 11.. for the count, as many as it says, each well formed; a failing header, a payload cut before byte 11, or a failing record fails the whole payload with that error |
| Realtime.StateByte | bundles/org.openhab.binding.apsystems/src/main/java/org/openhab/binding/apsystems/internal/ECU/InverterRealtimeData.java:126-127 | the byte written for a state reads back as that state |
| Realtime.TypeField | bundles/org.openhab.binding.apsystems/src/main/java/org/openhab/binding/apsystems/internal/ECU/InverterRealtimeData.java:130-132 | the two type digits written parse back to the type's code |
| Realtime.EncodedRecordFields | bundles/org.openhab.binding.apsystems/src/main/java/org/openhab/binding/apsystems/internal/ECU/InverterRealtimeData.java:125-166 | the encoder puts every record field at the offset the decoder reads it from, the four DS3 readings last |
| Realtime.ParseCodeOne | bundles/org.openhab.binding.apsystems/src/main/java/org/openhab/binding/apsystems/internal/ECU/InverterRealtimeData.java:131-132 | the type field "01" parses to code 1 |
| Realtime.WireCodeOneHead | bundles/org.openhab.binding.apsystems/src/main/java/org/openhab/binding/apsystems/internal/ECU/InverterRealtimeData.java:125-144 | a head whose type field reads "01" gets the model its id selects |
| Realtime.WireCodeOneRecord | bundles/org.openhab.binding.apsystems/src/main/java/org/openhab/binding/apsystems/internal/ECU/InverterRealtimeData.java:124-168 | a record whose type field reads "01" decodes and is as long as the model its id selects: 21 bytes for DS3, 13 otherwise |
| Realtime.WireCodeOneRecords | bundles/org.openhab.binding.apsystems/src/main/java/org/openhab/binding/apsystems/internal/ECU/InverterRealtimeData.java:124-168 | with type code "01", an id starting "70" makes a 21-byte DS3 record, one starting "40" a 13-byte Y600 record, and any other id an unknown record |
| Realtime.WireCodeOneDs3 | bundles/org.openhab.binding.apsystems/src/main/java/org/openhab/binding/apsystems/internal/ECU/InverterRealtimeData.java:125-144 | the DS3 "707000017197" sent with type code "01" decodes as a DS3 |
| Realtime.RecordHeadAt | bundles/org.openhab.binding.apsystems/src/main/java/org/openhab/binding/apsystems/internal/ECU/InverterRealtimeData.java:125-144 | an encoded record's head reads back as its id, state and type, wherever it sits |
| Realtime.Ds3ReadingsAt | bundles/org.openhab.binding.apsystems/src/main/java/org/openhab/binding/apsystems/internal/ECU/InverterRealtimeData.java:157-166 | an encoded DS3 record's readings read back in the order power 1, voltage 1, power 2, voltage 2 |
| Realtime.DecodeRecordAt | bundles/org.openhab.binding.apsystems/src/main/java/org/openhab/binding/apsystems/internal/ECU/InverterRealtimeData.java:124-168 | an encoded record decodes to itself and advances by its length |
| Realtime.DecodeInvertersPlaced | bundles/org.openhab.binding.apsystems/src/main/java/org/openhab/binding/apsystems/internal/ECU/InverterRealtimeData.java:123-172 | encoded records placed anywhere in a buffer decode back to the same list, in wire order |
| Realtime.DecodeInvertersOfEncoding | bundles/org.openhab.binding.apsystems/src/main/java/org/openhab/binding/apsystems/internal/ECU/InverterRealtimeData.java:117-173 | the record list round-trips |
| Realtime.DecodeHeaderAt | bundles/org.openhab.binding.apsystems/src/main/java/org/openhab/binding/apsystems/internal/ECU/RealtimeDataPayload.java:65-67 | an encoded header reads back as its model, count and timestamp |
| Realtime.DecodeEncode | bundles/org.openhab.binding.apsystems/src/main/java/org/openhab/binding/apsystems/internal/ECU/RealtimeDataPayload.java:62-73 | every valid realtime payload decodes back to itself |
| Realtime.Example1 | bundles/org.openhab.binding.apsystems/src/test/java/org/openhab/binding/apsystems/internal/ECUResponseTest.java:68-112 | the first capture (two online DS3 inverters at 2023-07-31 17:44:22, powers 73/58 at 237 V) round-trips, with 49.9 Hz and the reported temperatures |
| Realtime.Example3 | bundles/org.openhab.binding.apsystems/src/test/java/org/openhab/binding/apsystems/internal/ECUResponseTest.java:160-205 | the third capture, whose offline inverter reports all-zero power, voltage and frequency, round-trips with the reported temperatures |
| Realtime.Frequency | bundles/org.openhab.binding.apsystems/src/main/java/org/openhab/binding/apsystems/internal/ECU/InverterRealtimeData.java:150-152 | the frequency in hertz times 10 is the raw reading, and a non-negative reading gives a non-negative frequency |
| Realtime.Temperature | bundles/org.openhab.binding.apsystems/src/main/java/org/openhab/binding/apsystems/internal/ECU/InverterRealtimeData.java:153-154 | the Celsius temperature converted back to Fahrenheit is the raw reading, and it is below zero exactly when the reading is below 32 |
| InverterSignal.SignalPercent | bundles/org.openhab.binding.apsystems/src/main/java/org/openhab/binding/apsystems/internal/ECU/InverterSignalPayload.java:46 | the percentage is in 0..100, and is 0 exactly for raw 0 and 100 exactly for raw 255 |
| InverterSignal.DecodeFrom | bundles/org.openhab.binding.apsystems/src/main/java/org/openhab/binding/apsystems/internal/ECU/InverterSignalPayload.java:42-51 | from a position on, decoding succeeds exactly when the rest is whole 7-byte records, possibly with a final one cut just before its signal byte; it yields ceil(rest/7) entries with digit ids and signals 0..255 |
| InverterSignal.Decode | bundles/org.openhab.binding.apsystems/src/main/java/org/openhab/binding/apsystems/internal/ECU/InverterSignalPayload.java:39-54 | the whole payload decodes exactly when its length is 0 or 6 modulo 7, to ceil(length/7) entries (their contents: InverterSignal.DecodeEntries) |
| InverterSignal.DecodeFromEntries | bundles/org.openhab.binding.apsystems/src/main/java/org/openhab/binding/apsystems/internal/ECU/InverterSignalPayload.java:42-51 | entry i of a list decoded from a position is the record 7*i bytes on: the bcd2Str text of its six id bytes and the unsigned value of the byte after them, so every record is kept in wire order |
| InverterSignal.DecodeEntries | bundles/org.openhab.binding.apsystems/src/main/java/org/openhab/binding/apsystems/internal/ECU/InverterSignalPayload.java:39-54 | entry i of the payload is the record at byte 7*i, whatever its bytes (non-BCD nibbles, a leading 0 nibble); a payload whose length is 6 modulo 7 ends with an entry of signal 0, read from the zero padding |
| InverterSignal.CutRecordSignal | bundles/org.openhab.binding.apsystems/src/main/java/org/openhab/binding/apsystems/internal/ECU/InverterSignalPayload.java:44 | a record that ends right after its id reads signal 0 |
| InverterSignal.DecodeEntryAt | bundles/org.openhab.binding.apsystems/src/main/java/org/openhab/binding/apsystems/internal/ECU/InverterSignalPayload.java:43-44 | an encoded entry's id and signal read back from its position |
| InverterSignal.DecodeFromEncode | bundles/org.openhab.binding.apsystems/src/main/java/org/openhab/binding/apsystems/internal/ECU/InverterSignalPayload.java:42-51 | encoded entries decode back to the same list, in wire order, wherever they start |
| InverterSignal.DecodeEncode | bundles/org.openhab.binding.apsystems/src/main/java/org/openhab/binding/apsystems/internal/ECU/InverterSignalPayload.java:39-54 | every list of valid entries round-trips |
| InverterSignal.SignalIsUnsignedByte | bundles/org.openhab.binding.apsystems/src/main/java/org/openhab/binding/apsystems/internal/ECU/InverterSignalPayload.java:44 | the signal is the stored byte read unsigned, whatever its top bit |
| InverterSignal.Fixture | bundles/org.openhab.binding.apsystems/src/test/java/org/openhab/binding/apsystems/internal/ECUResponseTest.java:207-233 | the captured entries ("702000337185" at 0, "707000017197" at 211) round-trip in 14 bytes, at 0 % and 21100/255 % |
| PowerOfDay.DecodeWith | bundles/org.openhab.binding.apsystems/src/main/java/org/openhab/binding/apsystems/internal/ECU/PowerOfDayPayload.java:42-49 | with any time reader, decoding yields ceil(length/4) entries with powers 0..65535, the first one timed by the reader on the first two bytes |
| PowerOfDay.DecodeWithEntries | bundles/org.openhab.binding.apsystems/src/main/java/org/openhab/binding/apsystems/internal/ECU/PowerOfDayPayload.java:42-49 | entry i comes from the record at 4*i: its time is the reader's value for the record's first two bytes and its power the next two bytes read unsigned |
| PowerOfDay.Decode | bundles/org.openhab.binding.apsystems/src/main/java/org/openhab/binding/apsystems/internal/ECU/PowerOfDayPayload.java:39-52 | a decoded payload has ceil(length/4) entries |
| PowerOfDay.DecodeOnlyEmpty | bundles/org.openhab.binding.apsystems/src/main/java/org/openhab/binding/apsystems/internal/ECU/PowerOfDayPayload.java:39-52 | as written, only the empty payload decodes, because every two-byte timestamp is rejected by `bcdToDateTime` |
| PowerOfDay.LayoutWithTotalReader | bundles/org.openhab.binding.apsystems/src/main/java/org/openhab/binding/apsystems/internal/ECU/PowerOfDayPayload.java:42-49 | with a reader that accepts every time, a payload decodes unless it ends one byte into a record |
| EcuConnector.EndMarkIsPatternEnd | bundles/org.openhab.binding.apsystems/src/main/java/org/openhab/binding/apsystems/internal/ECU/ECUConnector.java:108 | the scanner's byte pattern is the UTF-8 of "END\n" and reads back as it |
| EcuConnector.Step | bundles/org.openhab.binding.apsystems/src/main/java/org/openhab/binding/apsystems/internal/ECU/ECUConnector.java:118-122 | the counter advances exactly when the byte matches the next pattern byte, and otherwise drops to 0 |
| EcuConnector.Counter | bundles/org.openhab.binding.apsystems/src/main/java/org/openhab/binding/apsystems/internal/ECU/ECUConnector.java:110-123 | the counter stays in 0..4 |
| EcuConnector.CounterIsMatchedSuffix | bundles/org.openhab.binding.apsystems/src/main/java/org/openhab/binding/apsystems/internal/ECU/ECUConnector.java:110-123 | while the counter is below 4, the last counter-many bytes read are the start of "END\n" |
| EcuConnector.FirstDetectionEndsWithMark | bundles/org.openhab.binding.apsystems/src/main/java/org/openhab/binding/apsystems/internal/ECU/ECUConnector.java:110-119 | when the counter first reaches 4, the bytes read end with "END\n" |
| EcuConnector.ReadUntilEnd | bundles/org.openhab.binding.apsystems/src/main/java/org/openhab/binding/apsystems/internal/ECU/ECUConnector.java:110-123 | the buffer is a prefix of the stream, cut exactly at the first detection or at the stream's end, and ends with "END\n" when detection stopped it |
| EcuConnector.NoLaterStop | bundles/org.openhab.binding.apsystems/src/main/java/org/openhab/binding/apsystems/internal/ECU/ECUConnector.java:110 | nothing after the first stop is consumed |
| EcuConnector.MarkAfter | bundles/org.openhab.binding.apsystems/src/main/java/org/openhab/binding/apsystems/internal/ECU/ECUConnector.java:118-122 | "END\n" is detected after a prefix exactly when the counter was 0, so a partial match swallows the mark |
| EcuConnector.DoubledEMissed | bundles/org.openhab.binding.apsystems/src/main/java/org/openhab/binding/apsystems/internal/ECU/ECUConnector.java:118-122 | "EEND\n" is not detected: the second 'E' resets the counter without being matched again |
| EcuConnector.CleanFrameStopsAtItsEnd | bundles/org.openhab.binding.apsystems/src/main/java/org/openhab/binding/apsystems/internal/ECU/ECUConnector.java:110-123 | a reply that holds no partial mark before its final "END\n" is read up to that mark and not beyond |
| EcuConnector.PartialMark | bundles/org.openhab.binding.apsystems/src/main/java/org/openhab/binding/apsystems/internal/ECU/ECUConnector.java:118-119 | after i matching bytes of the mark the counter is i |
| EcuConnector.ShouldDelay | bundles/org.openhab.binding.apsystems/src/main/java/org/openhab/binding/apsystems/internal/ECU/ECUConnector.java:89 | the pause is due exactly when fewer than 3 seconds, counted in nanoseconds, have passed since the last exchange (or the clock went back), and never before the first |
| EcuConnector.NewConnector | bundles/org.openhab.binding.apsystems/src/main/java/org/openhab/binding/apsystems/internal/ECU/ECUConnector.java:38-44 | a new connector never pauses before its first exchange |
| EcuConnector.SendRequest | bundles/org.openhab.binding.apsystems/src/main/java/org/openhab/binding/apsystems/internal/ECU/ECUConnector.java:86-134 | a pause of 3000 ms exactly when due; the request's bytes are sent; the reply is the scanned prefix; the exchange's end becomes the last-request time, so a later pause is due exactly within 3 seconds of it |
| EcuConnector.ResponseOf | bundles/org.openhab.binding.apsystems/src/main/java/org/openhab/binding/apsystems/internal/ECU/ECUConnector.java:51-56 | an empty reply gives null, a non-empty one under 13 bytes fails as too short, and a response comes only from a reply that passed the frame checks with status OK and a payload of its code's kind; any other non-empty reply gives what the response decoder gives |
| EcuConnector.Fetch | bundles/org.openhab.binding.apsystems/src/main/java/org/openhab/binding/apsystems/internal/ECU/ECUConnector.java:46-84 | a fetch pauses 3000 ms exactly when due, sends the request, reads the scanned reply, keeps host and port and records the end of the exchange so the next pause is due exactly within 3 seconds of it; it returns null for an empty stream (nothing read exactly when nothing was sent back) and otherwise the decoded reply |
| EcuConnector.FetchRealTimeData | bundles/org.openhab.binding.apsystems/src/main/java/org/openhab/binding/apsystems/internal/ECU/ECUConnector.java:46-57 | sends the realtime request for the id, pauses exactly when due, keeps host and port, records the end of the exchange for the 3-second throttle, and returns null or the decoded reply |
| EcuConnector.FetchSystemInfo | bundles/org.openhab.binding.apsystems/src/main/java/org/openhab/binding/apsystems/internal/ECU/ECUConnector.java:59-70 | sends the system-info request, pauses exactly when due, keeps host and port, records the end of the exchange for the 3-second throttle, and returns null or the decoded reply |
| EcuConnector.FetchInverterSignals | bundles/org.openhab.binding.apsystems/src/main/java/org/openhab/binding/apsystems/internal/ECU/ECUConnector.java:72-84 | sends the signal request for the id, pauses exactly when due, keeps host and port, records the end of the exchange for the 3-second throttle, and returns null or the decoded reply |

## Left out

- Sockets, `Thread.sleep`, `LocalDateTime.now()` and logging are left out. The reply stream, the clock
  readings (`now` before the exchange, `done` after it) and the pause decision are parameters and results.
- `sendRequest` sleeps a fixed 3000 ms, not the time remaining until 3 seconds have passed. The model follows
  the code.
- A stream that ends before "END\n" is returned as read, with no error. The model follows the code.
- EcuConnector.NewConnector: `LocalDateTime.MIN` is modelled as "no exchange yet", which never pauses. Any real
  clock is centuries past MIN.
- InverterSignal.SignalPercent: Java computes this in `float`. The model uses exact reals, so fixture values are
  stated exactly (21100/255), not as the rounded 82.7451.
- Realtime.Example1: frequency and temperature are exact reals, not `float`. Temperatures are bounded to two
  decimals. The same holds for SystemInfo energies.
- Realtime.Frequency: computed in `float` by Java; the model's exact real is what the float rounds.
- Realtime.Temperature: Java multiplies by the `float` 5/9, itself rounded; the model uses exact 5/9.
- SystemInfo.LifeTimeEnergy: computed in `float` by Java; the model's exact real is what the float rounds.
- SystemInfo.CurrentDayEnergy: computed in `float` by Java; the model's exact real is what the float rounds.
- EcuRequest.LengthField: `String.format("%04d")` uses the default locale, and a locale with non-ASCII digits
  (Arabic, for one) would write the length and code fields in those digits. The model writes ASCII digits,
  as the ROOT and English locales do.
- EcuRequest.Template: Java strings may hold unpaired surrogates; Dafny strings hold Unicode scalar values
  only, so an id or extension with a lone surrogate is outside the model. Characters above U+FFFF are counted
  as two UTF-16 units, as `String.length()` does.
- BinaryTools.Resolve: the SMART resolver also accepts hour 24 with zero minutes, seconds and fraction, as
  midnight of the next day; the model rejects hour 24. Other java.time parsing internals are left out too:
  only pattern selection, the digit layout of the 14- and 16-digit patterns and the SMART resolver's range
  checks are modelled.
- The `HH:mm` and `yyyyMMdd` patterns of `bcdToDateTime` never yield a `LocalDateTime`. They are modelled as
  failures. Power-of-day timestamps are two BCD bytes, so any non-empty power-of-day payload fails (see
  PowerOfDay.DecodeOnlyEmpty). This is recorded, not corrected.
- InverterSignal.Decode: a final partial record of 1 to 5 bytes fails, because the signal byte is copied from
  past the end. A 6-byte tail yields signal 0. So the entry count is ceil(length/7) only for lengths 0 or 6
  modulo 7. The model follows the code.
- SystemInfo.Decode: the version text and the timezone length field are decoded with the platform charset.
  The model reads them as US-ASCII, which agrees with the usual platform charsets on ASCII bytes; what those
  two fields decode to from non-ASCII bytes is outside the model. The version length field and the timezone
  text are decoded as US-ASCII in the code, exactly as modelled.
- The BCD string fixtures of BinToolsTest.java (lines 165-205) are read from resource files that are not part of
  this model. BinaryTools.Bcd2StrRoundTrip covers them generically.
- The second realtime capture (ECUResponseTest.java, lines 114-158) is not restated. The first and third cover
  both record states.
- The handlers, handler factory, configuration and downtime test are openHAB glue without protocol logic and are
  not modelled.
