/** The replay engine: the serial port and input file as objects, the
    per-frame step `SendData`, the binary scanner `SendFromBinary` and the
    text decoder `SendFromText`. Each method is specified by a function that
    gives the whole run as a value (`SendDataStep`, `BinaryRun`, `TextRun`);
    the properties of those functions are in module EngineFacts. */
module Engine {
  import opened Wrappers
  import opened Formats
  import opened Timing

  /** `BitConverter.IsLittleEndian` on the hosts the replayer runs on. The
      results do not depend on it (see LengthByBitConverter and
      TimestampByBitConverter). */
  const LittleEndian := true

  /** The exceptions a write to the serial port can raise: a closed port
      (`InvalidOperationException`) or a write timeout (`TimeoutException`). */
  datatype Fault = PortClosed | TimedOut

  /** What the device and the clock see, in order: bytes written, a write the
      port refused, or a sleep of the replaying thread. */
  datatype Event = Wrote(bytes: seq<byte>) | Refused(fault: Fault) | Slept(ms: nat)

  /** The failure, if any, of the port's `attempt`th write (numbered from 0). */
  function FaultAt(faults: map<nat, Fault>, attempt: nat): Option<Fault>
  {
    if attempt in faults then Some(faults[attempt]) else None
  }

  /** The open serial port, with `Thread.Sleep` recorded on the same trace so
      that the order of writes and sleeps is observable. Which writes fail is
      fixed up front by `faults`, indexed by write attempt. */
  class Port {
    var trace: seq<Event>
    var attempts: nat
    const faults: map<nat, Fault>

    constructor (faults: map<nat, Fault>)
      ensures this.faults == faults && trace == [] && attempts == 0
    {
      this.faults := faults;
      trace := [];
      attempts := 0;
    }

    /** `port.Write(data, 0, data.Length)`: either all of `data` goes out or
        the attempt raises its fault and nothing is written. */
    method Write(data: seq<byte>) returns (fault: Option<Fault>)
      modifies this
      ensures fault == FaultAt(faults, old(attempts))
      ensures attempts == old(attempts) + 1
      ensures trace == old(trace) + [if fault.Some? then Refused(fault.value) else Wrote(data)]
    {
      fault := FaultAt(faults, attempts);
      trace := trace + [if fault.Some? then Refused(fault.value) else Wrote(data)];
      attempts := attempts + 1;
    }

    /** `Thread.Sleep(ms)`. */
    method Sleep(ms: nat)
      modifies this
      ensures attempts == old(attempts)
      ensures trace == old(trace) + [Slept(ms)]
    {
      trace := trace + [Slept(ms)];
    }
  }

  function Min(a: nat, b: nat): nat
  {
    if a < b then a else b
  }

  /** The capture file opened by `File.OpenRead`: a read returns as many of
      the requested bytes as remain. */
  class FileStream {
    const content: seq<byte>
    var position: nat

    ghost predicate Valid()
      reads this
    {
      position <= |content|
    }

    constructor (content: seq<byte>)
      ensures Valid() && this.content == content && position == 0
    {
      this.content := content;
      position := 0;
    }

    /** `stream.Read(buffer, offset, count)`: copies the next
        min(count, remaining) bytes into `buffer` from `offset` on, leaves the
        rest of `buffer` as it was, and returns how many it copied. */
    method Read(buffer: array<byte>, offset: nat, count: nat) returns (n: nat)
      requires Valid() && offset + count <= buffer.Length
      modifies this, buffer
      ensures Valid()
      ensures n == Min(count, |content| - old(position))
      ensures position == old(position) + n
      ensures forall k :: 0 <= k < buffer.Length ==>
        buffer[k] == if offset <= k < offset + n then content[old(position) + (k - offset)] else old(buffer[k])
    {
      var start := position;
      n := Min(count, |content| - start);
      var i := 0;
      while i < n
        invariant 0 <= i <= n && position == start
        invariant forall k :: 0 <= k < buffer.Length ==>
          buffer[k] == if offset <= k < offset + i then content[start + (k - offset)] else old(buffer[k])
      {
        buffer[offset + i] := content[start + i];
        i := i + 1;
      }
      position := start + n;
    }
  }

  // ---------------------------------------------------------------------------
  // One frame: SendData

  /** How a frame handed to `SendData` ended: written and waited for, refused
      by the port (reported, and the caller carries on), or too short to hold
      a timestamp (`Array.Copy` throws, which nothing catches). */
  datatype Status = Delivered | WriteFailed(fault: Fault) | FrameTooShort

  /** The effect of one `SendData` call: events added to the trace, the port's
      attempt count and `prevTimestamp` afterwards, and how it ended. */
  datatype Step = Step(events: seq<Event>, attempts: nat, prev: uint32, status: Status)

  /** `SendData(data, ref prevTimestamp)` as a value. The timestamp is read
      first; then the frame is written; then the thread sleeps; and only then
      does `prevTimestamp` take the frame's timestamp. */
  function SendDataStep(faults: map<nat, Fault>, attempts: nat, data: seq<byte>, prev: uint32, delay: int): (s: Step)
    ensures s.status.FrameTooShort? <==> |data| < 8
    ensures s.status.FrameTooShort? ==> s.events == [] && s.attempts == attempts
    ensures s.status.Delivered? <==> |data| >= 8 && FaultAt(faults, attempts).None?
    ensures s.status.WriteFailed? ==>
      && Some(s.status.fault) == FaultAt(faults, attempts)
      && s.events == [Refused(s.status.fault)] && s.attempts == attempts + 1
    ensures !s.status.Delivered? ==> s.prev == prev
    ensures s.status.Delivered? ==>
      && s.attempts == attempts + 1
      && |s.events| == 2 && s.events[0] == Wrote(data) && s.events[1].Slept?
      && s.prev == data[5] as int * 0x1_0000 + data[6] as int * 0x100 + data[7]
      && (delay >= 0 ==> s.events[1].ms == delay)
      && (delay < 0 ==> s.events[1].ms == RealtimeDelay(s.prev, prev))
  {
    if |data| < 8 then Step([], attempts, prev, FrameTooShort)
    else
      var curr := Timestamp(data);
      match FaultAt(faults, attempts)
      case Some(f) => Step([Refused(f)], attempts + 1, prev, WriteFailed(f))
      case None => Step([Wrote(data), Slept(SleepMs(delay, curr, prev))], attempts + 1, curr, Delivered)
  }

  method SendData(port: Port, delay: int, data: seq<byte>, prev: uint32) returns (next: uint32, status: Status)
    modifies port
    ensures var s := SendDataStep(port.faults, old(port.attempts), data, prev, delay);
      && port.trace == old(port.trace) + s.events
      && port.attempts == s.attempts
      && next == s.prev && status == s.status
  {
    if |data| < 8 {
      return prev, FrameTooShort;
    }
    var curr := ToUInt32(HostOrder([0, data[5], data[6], data[7]], LittleEndian), LittleEndian);
    TimestampByBitConverter(data, LittleEndian);
    var fault := port.Write(data);
    if fault.Some? {
      return prev, WriteFailed(fault.value);
    }
    port.Sleep(SleepMs(delay, curr, prev));
    return curr, Delivered;
  }

  // ---------------------------------------------------------------------------
  // Whole runs

  /** An unhandled exception that ends the program: a frame too short for its
      timestamp, or a failed pass-through write (not inside any try). */
  datatype Crash = ShortFrame | PassThroughFailed(fault: Fault)

  /** How a run ends: at end of input, at a text line of odd length (1-based
      line number), at a text pair that is not hex (line and even column), or
      with a crash. */
  datatype Outcome = Finished | OddLine(line: nat) | BadHex(line: nat, col: nat) | Crashed(crash: Crash)

  /** The events a run adds to the trace, the port's attempt count at its end
      and how it ended. */
  datatype Run = Run(events: seq<Event>, attempts: nat, outcome: Outcome)

  function Then(events: seq<Event>, r: Run): Run
  {
    Run(events + r.events, r.attempts, r.outcome)
  }

  lemma AppendAssoc(a: seq<Event>, b: seq<Event>, c: seq<Event>)
    ensures (a + b) + c == a + (b + c)
  {
  }

  lemma ThenThen(a: seq<Event>, b: seq<Event>, r: Run)
    ensures Then(a, Then(b, r)) == Then(a + b, r)
  {
    assert a + (b + r.events) == (a + b) + r.events;
  }

  /** What one pass of the binary scanner's loop does: the events it adds,
      the port's attempt count after it, the outcome when it ends the run,
      and the stream position and `prevTimestamp` the next pass starts from. */
  datatype Pass = Pass(events: seq<Event>, attempts: nat, stop: Option<Outcome>, pos: nat, prev: uint32)

  /** One pass of `SendFromBinary`'s loop at byte `pos`: fewer than 2 bytes
      left ends the run; a group that is not a magic signature is written
      through (and a failed write crashes); a magic signature whose payload
      is cut short is dropped, the short read having consumed the rest; a
      complete frame goes to `SendData`. */
  function ScanPass(faults: map<nat, Fault>, input: seq<byte>, pos: nat, prev: uint32, delay: int, attempts: nat): (p: Pass)
    requires pos <= |input|
    ensures p.pos <= |input|
    ensures p.stop.None? ==> pos < p.pos
  {
    if |input| - pos < 2 then Pass([], attempts, Some(Finished), |input|, prev)
    else
      var b0, b1 := input[pos], input[pos + 1];
      if !IsMagic(b0) then
        match FaultAt(faults, attempts)
        case Some(f) => Pass([Refused(f)], attempts + 1, Some(Crashed(PassThroughFailed(f))), pos + 2, prev)
        case None => Pass([Wrote([b0, b1])], attempts + 1, None, pos + 2, prev)
      else FramePass(faults, input, pos, PayloadLength(b0, b1), prev, delay, attempts)
  }

  /** The rest of a pass at a magic signature at `pos` that declares
      `length` payload bytes: the payload read takes what is there, up to
      `length` bytes; a short read drops the frame, and a full one hands
      the signature and payload, `2 + length` bytes, to `SendData`. */
  function FramePass(faults: map<nat, Fault>, input: seq<byte>, pos: nat, length: nat, prev: uint32, delay: int, attempts: nat): (p: Pass)
    requires pos + 2 <= |input|
    ensures pos < p.pos <= |input|
  {
    var n := Min(length, |input| - (pos + 2));
    if n != length then Pass([], attempts, None, pos + 2 + n, prev)
    else
      var s := SendDataStep(faults, attempts, input[pos..pos + 2 + length], prev, delay);
      Pass(s.events, s.attempts, if s.status.FrameTooShort? then Some(Crashed(ShortFrame)) else None, pos + 2 + length, s.prev)
  }

  /** `SendFromBinary` from byte `pos` of the capture on, with
      `prevTimestamp` = `prev` and `attempts` writes made so far: pass after
      pass until one ends the run. */
  function BinaryRun(faults: map<nat, Fault>, input: seq<byte>, pos: nat, prev: uint32, delay: int, attempts: nat): (r: Run)
    requires pos <= |input|
    ensures attempts <= r.attempts
    ensures r.outcome.Finished? || r.outcome.Crashed?
    decreases |input| - pos
  {
    var p := ScanPass(faults, input, pos, prev, delay, attempts);
    if p.stop.Some? then Run(p.events, p.attempts, p.stop.value)
    else Then(p.events, BinaryRun(faults, input, p.pos, p.prev, delay, p.attempts))
  }

  /** Fewer than two bytes left: the signature read comes back short and the
      scan ends normally. */
  lemma ScanEnds(faults: map<nat, Fault>, input: seq<byte>, pos: nat, prev: uint32, delay: int, attempts: nat)
    requires pos <= |input| && |input| - pos < 2
    ensures BinaryRun(faults, input, pos, prev, delay, attempts) == Run([], attempts, Finished)
  {
  }

  /** Pass-through rule: a 2-byte group that is not a magic signature is
      written to the port unchanged, as exactly those two bytes, with no
      sleep, and scanning goes on from the next group with `prevTimestamp`
      untouched. */
  lemma PassThroughForwarded(faults: map<nat, Fault>, input: seq<byte>, pos: nat, prev: uint32, delay: int, attempts: nat)
    requires pos + 2 <= |input| && !IsMagic(input[pos])
    requires FaultAt(faults, attempts).None?
    ensures BinaryRun(faults, input, pos, prev, delay, attempts)
         == Then([Wrote(input[pos..pos + 2])], BinaryRun(faults, input, pos + 2, prev, delay, attempts + 1))
  {
    assert input[pos..pos + 2] == [input[pos], input[pos + 1]];
  }

  /** A failed pass-through write is not caught: the run ends there. */
  lemma PassThroughFailureCrashes(faults: map<nat, Fault>, input: seq<byte>, pos: nat, prev: uint32, delay: int, attempts: nat)
    requires pos + 2 <= |input| && !IsMagic(input[pos])
    requires FaultAt(faults, attempts).Some?
    ensures var f := FaultAt(faults, attempts).value;
      BinaryRun(faults, input, pos, prev, delay, attempts) == Run([Refused(f)], attempts + 1, Crashed(PassThroughFailed(f)))
  {
  }

  /** Short input: a magic signature whose declared payload is longer than
      what remains is dropped. The short read consumes the rest of the file,
      so the scan then ends cleanly: nothing more is written, nothing sleeps,
      no error. */
  lemma TruncatedFrameEndsRun(faults: map<nat, Fault>, input: seq<byte>, pos: nat, prev: uint32, delay: int, attempts: nat)
    requires pos + 2 <= |input| && IsMagic(input[pos])
    requires |input| - (pos + 2) < PayloadLength(input[pos], input[pos + 1])
    ensures BinaryRun(faults, input, pos, prev, delay, attempts) == Run([], attempts, Finished)
  {
    assert BinaryRun(faults, input, pos, prev, delay, attempts) == BinaryRun(faults, input, |input|, prev, delay, attempts);
  }

  /** Magic frame assembly: with the whole payload available, the frame handed
      to `SendData` is the signature followed by the next `length` bytes,
      `2 + length` bytes in all, and scanning resumes right after it. */
  lemma MagicFrameSent(faults: map<nat, Fault>, input: seq<byte>, pos: nat, prev: uint32, delay: int, attempts: nat)
    requires pos + 2 <= |input| && IsMagic(input[pos])
    requires 8 <= 2 + PayloadLength(input[pos], input[pos + 1])
    requires pos + 2 + PayloadLength(input[pos], input[pos + 1]) <= |input|
    ensures var end := pos + 2 + PayloadLength(input[pos], input[pos + 1]);
      var s := SendDataStep(faults, attempts, input[pos..end], prev, delay);
      BinaryRun(faults, input, pos, prev, delay, attempts)
        == Then(s.events, BinaryRun(faults, input, end, s.prev, delay, s.attempts))
  {
    var length := PayloadLength(input[pos], input[pos + 1]);
    var s := SendDataStep(faults, attempts, input[pos..pos + 2 + length], prev, delay);
    var p := Pass(s.events, s.attempts, None, pos + 2 + length, s.prev);
    assert FramePass(faults, input, pos, length, prev, delay, attempts) == p;
    assert ScanPass(faults, input, pos, prev, delay, attempts) == p;
  }

  /** A complete magic frame of fewer than 8 bytes has no timestamp to read:
      `SendData`'s copy of bytes 5..7 throws, nothing is written, and the
      replay ends with that exception. */
  lemma ShortFrameCrashes(faults: map<nat, Fault>, input: seq<byte>, pos: nat, prev: uint32, delay: int, attempts: nat)
    requires pos + 2 <= |input| && IsMagic(input[pos])
    requires 2 + PayloadLength(input[pos], input[pos + 1]) < 8
    requires pos + 2 + PayloadLength(input[pos], input[pos + 1]) <= |input|
    ensures BinaryRun(faults, input, pos, prev, delay, attempts) == Run([], attempts, Crashed(ShortFrame))
  {
    var length := PayloadLength(input[pos], input[pos + 1]);
    var p := Pass([], attempts, Some(Crashed(ShortFrame)), pos + 2 + length, prev);
    assert FramePass(faults, input, pos, length, prev, delay, attempts) == p;
    assert ScanPass(faults, input, pos, prev, delay, attempts) == p;
  }

  /** `SendFromText` from line `i` (0-based) on, with `prevTimestamp` = `prev`
      and `attempts` writes made so far. */
  function TextRun(faults: map<nat, Fault>, lines: seq<string16>, i: nat, prev: uint32, delay: int, attempts: nat): (r: Run)
    requires i <= |lines|
    ensures attempts <= r.attempts
    ensures r.outcome.Crashed? ==> r.outcome.crash == ShortFrame
    ensures r.outcome.OddLine? ==> i < r.outcome.line <= |lines|
    ensures r.outcome.BadHex? ==> i < r.outcome.line <= |lines| && r.outcome.col % 2 == 0
    decreases |lines| - i
  {
    if i == |lines| then Run([], attempts, Finished)
    else if |lines[i]| % 2 != 0 then Run([], attempts, OddLine(i + 1))
    else
      match DecodePairs(lines[i])
      case Err(col) => Run([], attempts, BadHex(i + 1, col))
      case Ok(data) =>
        var s := SendDataStep(faults, attempts, data, prev, delay);
        if s.status.FrameTooShort? then Run(s.events, s.attempts, Crashed(ShortFrame))
        else Then(s.events, TextRun(faults, lines, i + 1, s.prev, delay, s.attempts))
  }

  /** A line that decodes to fewer than 8 bytes (an empty line, say) goes to
      `SendData`, whose copy of bytes 5..7 throws: nothing is written and
      the replay ends with that exception. */
  lemma ShortLineCrashes(faults: map<nat, Fault>, lines: seq<string16>, i: nat, prev: uint32, delay: int, attempts: nat)
    requires i < |lines| && |lines[i]| % 2 == 0 && DecodePairs(lines[i]).Ok?
    requires |DecodePairs(lines[i]).value| < 8
    ensures TextRun(faults, lines, i, prev, delay, attempts) == Run([], attempts, Crashed(ShortFrame))
  {
  }

  // ---------------------------------------------------------------------------
  // The binary scanner

  /** The payload read of the binary scanner: allocates a buffer of
      `2 + length` bytes, reads the payload into it from index 2 on, and, when
      the read came back full, copies the signature into its first two
      bytes. A short read gives no frame. */
  method ReadFrame(stream: FileStream, signature: array<byte>, length: nat) returns (frame: Option<seq<byte>>)
    requires stream.Valid() && signature.Length == 2
    modifies stream
    ensures stream.Valid()
    ensures stream.position == old(stream.position) + Min(length, |stream.content| - old(stream.position))
    ensures frame.Some? <==> old(stream.position) + length <= |stream.content|
    ensures frame.Some? ==> frame.value == signature[..] + stream.content[old(stream.position)..stream.position]
  {
    ghost var start := stream.position;
    var data := new byte[2 + length];
    var n := stream.Read(data, 2, length);
    if n != length {
      return None;
    }
    data[0], data[1] := signature[0], signature[1];
    assert data[..] == signature[..] + stream.content[start..stream.position] by {
      assert forall k :: 2 <= k < 2 + length ==> data[k] == stream.content[start + (k - 2)];
    }
    return Some(data[..]);
  }

  /** The magic-signature branch of the binary scanner's loop, entered just
      after the signature was read: reads the payload, drops the frame on a
      short read, and otherwise hands signature and payload to `SendData`. */
  method SendFrame(port: Port, delay: int, stream: FileStream, signature: array<byte>, length: nat, prev: uint32)
    returns (next: uint32, stop: Option<Outcome>)
    requires stream.Valid() && signature.Length == 2 && 2 <= stream.position
    requires signature[..] == stream.content[stream.position - 2..stream.position]
    modifies port, stream
    ensures var p := FramePass(port.faults, stream.content, old(stream.position) - 2, length, prev, delay, old(port.attempts));
      && port.trace == old(port.trace) + p.events
      && port.attempts == p.attempts
      && stop == p.stop
      && stream.position == p.pos && stream.Valid()
      && (stop.None? ==> next == p.prev)
  {
    ghost var content, pos := stream.content, stream.position - 2;
    var frame := ReadFrame(stream, signature, length);
    if frame.None? {
      return prev, None;
    }
    assert frame.value == content[pos..pos + 2 + length] by {
      assert content[pos..pos + 2 + length] == content[pos..pos + 2] + content[pos + 2..pos + 2 + length];
    }
    var status;
    next, status := SendData(port, delay, frame.value, prev);
    stop := if status.FrameTooShort? then Some(Crashed(ShortFrame)) else None;
  }

  /** The body of the binary scanner's loop: reads a 2-byte group and ends
      the scan, writes the group straight through, or goes on to read the
      frame a magic signature announces. */
  method ScanGroup(port: Port, delay: int, stream: FileStream, prev: uint32) returns (next: uint32, stop: Option<Outcome>)
    requires stream.Valid()
    modifies port, stream
    ensures var p := ScanPass(port.faults, stream.content, old(stream.position), prev, delay, old(port.attempts));
      && port.trace == old(port.trace) + p.events
      && port.attempts == p.attempts
      && stop == p.stop
      && stream.position == p.pos && stream.Valid()
      && (stop.None? ==> next == p.prev)
  {
    ghost var content, pos := stream.content, stream.position;
    var signature := new byte[2];
    var got := stream.Read(signature, 0, 2);
    if got != 2 {
      return prev, Some(Finished);
    }
    assert signature[..] == content[pos..pos + 2];
    MagicByMask(signature[0]);
    if BitAnd(signature[0], 0xFC) != 0xAC {
      assert signature[..] == [content[pos], content[pos + 1]];
      var fault := port.Write(signature[..]);
      if fault.Some? {
        return prev, Some(Crashed(PassThroughFailed(fault.value)));
      }
      return prev, None;
    }
    var length := ToUInt16(HostOrder([LowBits(signature[0]), signature[1]], LittleEndian), LittleEndian);
    LengthByBitConverter(signature[0], signature[1], LittleEndian);
    next, stop := SendFrame(port, delay, stream, signature, length, prev);
  }

  /** Replays a binary capture: reads 2-byte groups; writes a non-magic group
      straight to the port; for a magic group reads the declared payload and
      hands signature and payload to `SendData`, dropping the frame when the
      payload is short. `prevTimestamp` starts at 0. */
  method SendFromBinary(port: Port, delay: int, content: seq<byte>) returns (outcome: Outcome)
    modifies port
    ensures var r := BinaryRun(port.faults, content, 0, 0, delay, old(port.attempts));
      && port.trace == old(port.trace) + r.events
      && port.attempts == r.attempts
      && outcome == r.outcome
  {
    var stream := new FileStream(content);
    var prev: uint32 := 0;
    ghost var whole := BinaryRun(port.faults, content, 0, 0, delay, port.attempts);
    ghost var done: seq<Event> := [];
    while true
      invariant stream.Valid() && stream.content == content
      invariant port.trace == old(port.trace) + done
      invariant whole == Then(done, BinaryRun(port.faults, content, stream.position, prev, delay, port.attempts))
      decreases |content| - stream.position
    {
      ghost var p := ScanPass(port.faults, content, stream.position, prev, delay, port.attempts);
      var stop;
      ghost var trace0 := old(port.trace);
      prev, stop := ScanGroup(port, delay, stream, prev);
      AppendAssoc(trace0, done, p.events);
      if stop.Some? {
        done := done + p.events;
        return stop.value;
      }
      ThenThen(done, p.events, BinaryRun(port.faults, content, stream.position, prev, delay, port.attempts));
      done := done + p.events;
    }
  }

  // ---------------------------------------------------------------------------
  // The text decoder

  /** The hex decoding loop of one even-length line: fills a byte array pair
      by pair and stops at the first pair that is not hex, reporting its
      column. */
  method DecodeLine(line: string16) returns (r: Result<seq<byte>, nat>)
    requires |line| % 2 == 0
    ensures r == DecodePairs(line)
  {
    DecodePairsMeaning(line);
    var data := new byte[|line| / 2];
    var i := 0;
    while i < |line|
      invariant 0 <= i <= |line| && i % 2 == 0
      invariant forall k :: 0 <= k < i / 2 ==> Pair(line, k) == Some(data[k])
    {
      var b := ParseHexPair(line[i], line[i + 1]);
      if b.None? {
        assert Pair(line, i / 2).None?;
        return Err(i);
      }
      data[i / 2] := b.value;
      i := i + 2;
    }
    var r' := DecodePairs(line);
    assert forall k :: 0 <= k < |line| / 2 ==> r'.value[k] == data[k];
    assert r'.value == data[..];
    return Ok(data[..]);
  }

  /** Replays a text capture, one hex line per frame; stops at the first line
      of odd length or with a pair that is not hex. `prevTimestamp` starts
      at 0. */
  method SendFromText(port: Port, delay: int, lines: seq<string16>) returns (outcome: Outcome)
    modifies port
    ensures var r := TextRun(port.faults, lines, 0, 0, delay, old(port.attempts));
      && port.trace == old(port.trace) + r.events
      && port.attempts == r.attempts
      && outcome == r.outcome
  {
    var lineNr := 0;
    var prev: uint32 := 0;
    ghost var whole := TextRun(port.faults, lines, 0, 0, delay, port.attempts);
    ghost var done: seq<Event> := [];
    while lineNr < |lines|
      invariant lineNr <= |lines|
      invariant port.trace == old(port.trace) + done
      invariant whole == Then(done, TextRun(port.faults, lines, lineNr, prev, delay, port.attempts))
    {
      var line := lines[lineNr];
      lineNr := lineNr + 1;
      if |line| % 2 != 0 {
        return OddLine(lineNr);
      }
      var data := DecodeLine(line);
      if data.Err? {
        return BadHex(lineNr, data.error);
      }
      ghost var s := SendDataStep(port.faults, port.attempts, data.value, prev, delay);
      ghost var trace0 := old(port.trace);
      var status;
      prev, status := SendData(port, delay, data.value, prev);
      AppendAssoc(trace0, done, s.events);
      if status.FrameTooShort? {
        return Crashed(ShortFrame);
      }
      ThenThen(done, s.events, TextRun(port.faults, lines, lineNr, prev, delay, port.attempts));
      done := done + s.events;
    }
    return Finished;
  }
}
