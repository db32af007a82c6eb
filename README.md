# LotusSim frame replay, modelled in Dafny

LotusSim replays a recorded capture to a device over a serial port. This
project models its replay engine, in `LotusSim/Program.cs`, and proves
properties of that model:

- `SendFromBinary` scans a binary capture two bytes at a time. A group whose
  first byte is not a magic signature (`(b0 & 0xFC) != 0xAC`) is written
  straight through. A magic signature declares a 10-bit payload length; the
  signature plus that payload is handed to `SendData` as one frame.
- `SendFromText` reads a text capture line by line. Each even-length line
  of hex pairs is decoded into one frame and handed to `SendData`. An odd
  line or a pair that is not hex ends the replay with an error message.
- `SendData` reads the 24-bit timestamp in bytes 5..7, writes the frame,
  sleeps (a fixed delay, or in realtime mode the tick difference times
  10 ms, clamped to 500 ms), and only then updates `prevTimestamp`.

Files:

- `wrappers.dfy` holds `Option` and `Result`.
- `formats.dfy` (module `Formats`) holds the byte-level decoding. The
  signature test is tied to the source's mask test `(b0 & 0xFC) == 0xAC` by
  `MagicByMask`. The payload length and the timestamp are each tied to the
  source's `BitConverter` route by a lemma. It also holds hex pair
  parsing. A text line is a sequence of UTF-16 code units, as a C# string is.
- `timing.dfy` (module `Timing`) holds the C# delay arithmetic, including
  unchecked `uint` subtraction and the `(int)` cast.
- `engine.dfy` (module `Engine`) holds the port and the input file as
  classes, and the methods `SendData`, `SendFromBinary` and `SendFromText`.
  - The port records writes, refused writes and sleeps on one trace. Which
    writes fail is fixed up front by a map from write attempt to fault.
  - Each method is proved against a function that gives the whole run as a
    value: `SendDataStep`, `BinaryRun` or `TextRun`.
- `facts.dfy` (module `EngineFacts`) holds properties of whole runs:
  - the pacing of writes and sleeps;
  - what a port that never fails receives;
  - where a text replay stops.

The model follows the code where its behaviour differs from what one would
design:

- A failed write inside `SendData` is caught there. The frame is skipped,
  `prevTimestamp` stays as it was, and the replay goes on with the next
  frame. It does not end the run.
- A failed pass-through write (line 222) is not inside any `try`, so it
  ends the program. The model gives it the outcome
  `Crashed(PassThroughFailed(f))`.
- A frame shorter than 8 bytes makes `Array.Copy` at line 241 throw, and
  nothing catches it. This is reachable from both capture formats and is
  modelled as the outcome `Crashed(ShortFrame)`.
- A wrapped counter (current timestamp below the previous one) gives a
  `uint` difference that the `(int)` cast turns negative. The clamp then
  chooses 500 ms because the value is not positive, not because it is
  large. `WrappedCounterExample` shows this for 10 followed by 5.

## Model

| member | source | states |
|---|---|---|
| Formats.BitAnd | LotusSim/Program.cs:220 | `a & b` on bytes is no larger than either operand |
| Formats.ToUInt16 | LotusSim/Program.cs:228 | `BitConverter.ToUInt16` takes its low byte from the array's first byte on a little-endian host and from its last on a big-endian one, the high byte from the other |
| Formats.ToUInt32 | LotusSim/Program.cs:244 | byte k of `BitConverter.ToUInt32`'s value, from the least significant, is `a[k]` on a little-endian host and `a[3 - k]` on a big-endian one |
| Formats.MagicByMask | LotusSim/Program.cs:220 | the mask test `(b0 & 0xFC) == 0xAC` holds exactly when b0 is one of 0xAC..0xAF |
| Formats.MaskLowAndHigh | LotusSim/Program.cs:220-225 | `b & 0x03` is the two low bits of b and `b & 0xFC` is b with them cleared |
| Formats.LowBits | LotusSim/Program.cs:225 | `b & 0x03` equals b mod 4 |
| Formats.PayloadLength | LotusSim/Program.cs:225-228 | the declared payload length is always below 1024 |
| Formats.LengthByBitConverter | LotusSim/Program.cs:225-228 | reversing `[b0 & 3, b1]` on a little-endian host and reading it with `ToUInt16` gives `(b0 mod 4) * 256 + b1` on a host of either byte order |
| Formats.Timestamp | LotusSim/Program.cs:240-244 | the timestamp of a frame of 8 or more bytes is below 2^24 |
| Formats.TimestampByBitConverter | LotusSim/Program.cs:240-244 | copying bytes 5..7 into a zeroed 4-byte array, reversing it and reading it with `ToUInt32` gives `d[5]*65536 + d[6]*256 + d[7]` on a host of either byte order |
| Formats.HostOrder | LotusSim/Program.cs:226-227 | `Array.Reverse` on a little-endian host reverses the bytes; it keeps them on a big-endian host |
| Formats.ParseHexPair | LotusSim/Program.cs:192 | a pair parses exactly when both characters are hex digits of either case |
| Formats.DecodePairs | LotusSim/Program.cs:187-199 | a decoded line has half as many bytes as characters; an error names an even column whose pair lies inside the line |
| Formats.DecodePairsMeaning | LotusSim/Program.cs:187-199 | byte k of a decoded line is the value of characters 2k and 2k+1; an error names the first pair that is not hex, every earlier pair being good |
| Formats.ParseEncodedByte | LotusSim/Program.cs:192 | parsing the upper-case hex encoding of a byte gives the byte back |
| Formats.EncodeParsedPair | LotusSim/Program.cs:192 | a pair that parses is the encoding of its byte, up to letter case |
| Formats.DecodeEncodedHex | LotusSim/Program.cs:187-199 | decoding the hex text of any bytes gives those bytes back |
| Formats.EncodeDecodedHex | LotusSim/Program.cs:187-199 | re-encoding a decoded line gives the line upper-cased |
| Timing.WrapU32 | LotusSim/Program.cs:248 | unchecked `uint` subtraction gives a value in [0, 2^32) congruent to the true difference modulo 2^32 |
| Timing.AsInt32 | LotusSim/Program.cs:248 | the `(int)` cast keeps the 32 bits, so the value is congruent modulo 2^32, and it is negative exactly when the top bit is set |
| Timing.WrapI32 | LotusSim/Program.cs:248 | unchecked `int` multiplication gives a value in the int range congruent to the true product modulo 2^32 |
| Timing.ScaledDelta | LotusSim/Program.cs:248 | `(int)(currTimestamp - prevTimestamp) * 10` is an int congruent modulo 2^32 to the true difference times 10 |
| Timing.RealtimeDelay | LotusSim/Program.cs:248-249 | every realtime sleep is positive and at most 500 ms |
| Timing.SleepMs | LotusSim/Program.cs:249 | with a delay of 0 or more the sleep is that delay; with a negative delay it lies in (0, 500] ms |
| Timing.ScaledDeltaExact | LotusSim/Program.cs:248 | for 24-bit timestamps the wrapped `(int)(curr - prev) * 10` equals the true signed difference times 10 |
| Timing.RealtimeDelayRule | LotusSim/Program.cs:248-249 | for 24-bit timestamps the realtime sleep is (curr - prev) * 10 ms when curr is 1 to 49 ticks after prev, and 500 ms otherwise |
| Timing.NoAdvanceSleepsFallback | LotusSim/Program.cs:248-249 | a timestamp equal to or below the previous one sleeps 500 ms in realtime |
| Timing.RealtimeTicksExample | LotusSim/Program.cs:248-249 | ticks 0, 5, 55, 500 from a start at 0 sleep 500, 50, 500 and 500 ms |
| Timing.WrappedCounterExample | LotusSim/Program.cs:248-249 | 10 followed by 5 wraps to 0xFFFFFFFB, casts to -5, scales to -50 and sleeps 500 ms |
| Engine.Port.Write | LotusSim/Program.cs:222 | a write either puts all its bytes on the trace or raises the fault set for that attempt and writes nothing; either way it counts as one attempt |
| Engine.Port.Sleep | LotusSim/Program.cs:249 | a sleep is recorded on the same trace, after what came before |
| Engine.FileStream.Read | LotusSim/Program.cs:218 | a read copies min(count, remaining) bytes into the buffer at the offset, leaves the rest of the buffer alone and advances the position by that many |
| Engine.SendDataStep | LotusSim/Program.cs:238-262 | a frame under 8 bytes fails with no write; a refused write adds one Refused event and keeps prev; a good write adds the write and then a sleep (the fixed delay, or the realtime delay), and prev becomes the frame's timestamp |
| Engine.SendData | LotusSim/Program.cs:238-262 | the method adds exactly `SendDataStep`'s events to the port's trace, in order, and returns its new prev and status |
| Engine.BinaryRun | LotusSim/Program.cs:214-234 | a binary replay only makes write attempts, never undoes one, and ends either at the end of the input or with a crash, never with a text error |
| Engine.ScanPass | LotusSim/Program.cs:215-234 | each pass of the binary loop either ends the run or moves strictly forward in the input |
| Engine.FramePass | LotusSim/Program.cs:229-233 | the payload step of a magic signature always moves forward, and never past the end of the input |
| Engine.ReadFrame | LotusSim/Program.cs:229-232 | the frame is read exactly when the whole payload is there, and it is then the signature followed by the payload bytes; the position advances by min(length, remaining) |
| Engine.SendFrame | LotusSim/Program.cs:225-233 | the magic branch of the loop adds `FramePass`'s events and leaves the stream where `FramePass` says |
| Engine.ScanGroup | LotusSim/Program.cs:217-233 | one pass of the loop body adds `ScanPass`'s events and leaves the stream where `ScanPass` says |
| Engine.SendFromBinary | LotusSim/Program.cs:210-236 | the replay adds exactly `BinaryRun`'s events to the trace from position 0 with `prevTimestamp` 0, and returns its outcome |
| Engine.ScanEnds | LotusSim/Program.cs:218-219 | with fewer than 2 bytes left the scan ends normally and writes nothing |
| Engine.PassThroughForwarded | LotusSim/Program.cs:220-224 | a non-magic group is written as exactly its two bytes, with no sleep, and the scan goes on 2 bytes later with `prevTimestamp` unchanged |
| Engine.PassThroughFailureCrashes | LotusSim/Program.cs:222 | a failed pass-through write ends the run with that fault |
| Engine.TruncatedFrameEndsRun | LotusSim/Program.cs:230-231 | a magic signature whose payload is cut short is dropped: nothing is written, nothing sleeps, and the run finishes |
| Engine.MagicFrameSent | LotusSim/Program.cs:225-233 | a complete magic frame, the signature plus the next `length` bytes, goes to `SendData` and the scan resumes right after it with the prev `SendData` leaves |
| Engine.ShortFrameCrashes | LotusSim/Program.cs:229-241 | a complete magic frame under 8 bytes ends the run with the `Array.Copy` exception and writes nothing |
| Engine.TextRun | LotusSim/Program.cs:177-201 | a text replay only makes write attempts; its only crash is a frame too short for a timestamp; an odd line or a bad pair names a line after the first one it started from and within the file, and a bad pair names an even column |
| Engine.ShortLineCrashes | LotusSim/Program.cs:241 | a line that is even and all hex but decodes to fewer than 8 bytes, an empty line say, crashes the replay with nothing written |
| Engine.DecodeLine | LotusSim/Program.cs:187-199 | the in-place decoding loop returns the decoded bytes, or the column of the first bad pair |
| Engine.SendFromText | LotusSim/Program.cs:170-208 | the replay adds exactly `TextRun`'s events to the trace from line 0 with `prevTimestamp` 0, and returns its outcome |
| EngineFacts.BinaryRunPaced | LotusSim/Program.cs:210-262 | in every binary replay, each sleep follows the write of a frame; each such write is followed by its sleep; and only written frames move prev on |
| EngineFacts.TextRunPaced | LotusSim/Program.cs:170-262 | the same pacing holds in every text replay |
| EngineFacts.PacedSleeps | LotusSim/Program.cs:247-249 | in a paced trace every sleep comes right after a write of 8 or more bytes; it lasts exactly the fixed delay, or lies in (0, 500] ms in realtime |
| EngineFacts.FixedDelayBinary | LotusSim/Program.cs:249 | with a fixed delay, every sleep of a binary replay lasts exactly that delay and follows a frame write |
| EngineFacts.RealtimeBoundedText | LotusSim/Program.cs:248-249 | in realtime mode every sleep of a text replay lies in (0, 500] ms and follows a frame write |
| EngineFacts.FixedDelayText | LotusSim/Program.cs:249 | with a fixed delay, every sleep of a text replay lasts exactly that delay and follows a frame write |
| EngineFacts.RealtimeBoundedBinary | LotusSim/Program.cs:248-249 | in realtime mode every sleep of a binary replay lies in (0, 500] ms and follows a frame write |
| EngineFacts.ShapedThenPaced | LotusSim/Program.cs:247-250 | one `SendData` call in front of a paced continuation keeps the trace paced, continuing from the prev the call leaves |
| EngineFacts.FrameStep | LotusSim/Program.cs:225-233 | a complete frame of 8 or more bytes takes one `SendData` step of the expected shape and resumes after it; on a healthy port the frame is written as read |
| EngineFacts.HealthyBinaryForwardsCapture | LotusSim/Program.cs:210-236 | on a port that never fails, the bytes a binary replay writes form a prefix of the file; the scan stops where fewer than 2 bytes remain, at a truncated frame, or at a frame under 8 bytes |
| EngineFacts.HealthyBinaryOutcomes | LotusSim/Program.cs:210-236 | on a port that never fails, a binary replay only finishes or crashes on a frame under 8 bytes |
| EngineFacts.TextRunStops | LotusSim/Program.cs:179-200 | a text replay stops at the first line that is not a frame. An odd line is reported by its 1-based number. A bad pair is reported by its line and its even column. A crash happens only at a line that is even and all hex but decodes to fewer than 8 bytes. In every case every earlier line was sent |
| EngineFacts.HealthyTextSendsLines | LotusSim/Program.cs:179-200 | on a port that never fails, a text replay that does not crash writes the decoded lines back to back, up to the line it stops at |
| EngineFacts.HealthyTextCrashes | LotusSim/Program.cs:179-200 | on a port that never fails, a text replay that crashes does so at a line that is even and all hex but decodes to fewer than 8 bytes; every line before it was sent, and the device received exactly their decoded bytes |
| EngineFacts.HealthyText | LotusSim/Program.cs:170-208 | on a port that never fails, a whole text replay sent every line before the line it stops or crashes at, and the device received exactly their decoded bytes; a crash is at a line too short for a timestamp |
| EngineFacts.FrameWriteFailureContinues | LotusSim/Program.cs:233-261 | a frame whose write fails adds one Refused event, and the binary scan goes on right after the frame with prev unchanged |
| EngineFacts.LineWriteFailureContinues | LotusSim/Program.cs:200-261 | a line whose write fails adds one Refused event, and the text replay goes on with the next line with prev unchanged |
| EngineFacts.TruncatedTailExample | LotusSim/Program.cs:218-231 | `01 02 AC 10 00` passes `01 02` through, drops the truncated frame and finishes |
| EngineFacts.RealtimeFrameExample | LotusSim/Program.cs:225-250 | a single 8-byte frame with timestamp 5, replayed in realtime from 0, is written and followed by a 50 ms sleep |
| EngineFacts.Utf16 | LotusSim/Program.cs:179 | a line read as C# text has between one and two code units per character; text inside the Basic Multilingual Plane keeps one unit per character, equal to its code; a line with as many units as characters has no character outside that plane |
| EngineFacts.OddLineExample | LotusSim/Program.cs:182-185 | `"ABC"` stops the replay at line 1 |
| EngineFacts.BadHexExample | LotusSim/Program.cs:188-197 | `"A1G2"` stops the replay at line 1, column 2 |
| EngineFacts.SurrogatePairExample | LotusSim/Program.cs:188-197 | a line holding only U+1F600 is two code units long and stops the replay at line 1, column 0 |
| EngineFacts.SurrogateOddExample | LotusSim/Program.cs:182-185 | U+1F600 after an `A` makes the line three code units long, so the replay stops at odd line 1 |
| EngineFacts.EmptyLineExample | LotusSim/Program.cs:241 | an empty first line crashes the replay before the odd line after it is looked at |

## Left out

- The console UI (`Main`'s argument checks, delay entry, the repeat prompt),
  `SelectPort` and the `SendFile` dispatch on file extension. These are
  interactive and device set-up code. The delay is an input value, negative
  for realtime.
- Real serial writes and `Thread.Sleep`. Both are events on the port's
  trace. The failures are a map from write attempt to fault, given up front.
- Engine.Port.Write: a write that times out is modelled as writing nothing.
  A real port may have sent part of the buffer before the timeout.
- Console messages. Each error message is an `Outcome` value: `OddLine`,
  `BadHex`, or `Crashed` for an exception nothing catches.
- `StreamReader` line splitting and its decoding of the file's bytes into
  text. The text capture is given as its sequence of lines, each a C#
  string, that is a sequence of UTF-16 code units, so that lengths and
  columns count what `line.Length` and `line.Substring` count.
- The `FileNotFoundException` handler of `SendFromText`. Opening files is not
  modelled; the binary capture is given as its bytes.
- Formats.ParseHexPair: any handling of a two-character string by
  `Convert.ToByte(s, 16)` other than plain hex digits is not modelled. A pair
  is valid exactly when both characters are hex digits of either case.
- The host byte order is the constant `LittleEndian`. `LengthByBitConverter`
  and `TimestampByBitConverter` show the results do not depend on it.
- The static fields `port`, `path` and `delay` are parameters of the methods.
