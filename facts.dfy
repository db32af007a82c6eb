/** Properties of whole replay runs, stated over the functions that specify
    `SendFromBinary` and `SendFromText`: how writes and sleeps alternate and
    how long each sleep is, what a healthy port receives, and where a text
    replay stops. */
module EngineFacts {
  import opened Wrappers
  import opened Formats
  import opened Timing
  import opened Engine

  /** The bytes that reached the device, in order. */
  function Written(events: seq<Event>): seq<byte>
  {
    if events == [] then []
    else (if events[0].Wrote? then events[0].bytes else []) + Written(events[1..])
  }

  lemma {:induction false} WrittenAppend(a: seq<Event>, b: seq<Event>)
    ensures Written(a + b) == Written(a) + Written(b)
    decreases |a|
  {
    if a == [] {
      assert a + b == b;
    } else {
      assert (a + b)[1..] == a[1..] + b;
      WrittenAppend(a[1..], b);
    }
  }

  /** The pacing discipline of a replay, reading the trace from the front
      with `prev` the timestamp of the last frame that went out: a sleep only
      ever comes right after the write of a frame (8 bytes or more), every
      such write is followed by its sleep, the sleep lasts
      `SleepMs(delay, timestamp of that frame, prev)`, and only a frame that
      was written and waited for moves `prev` on. */
  ghost predicate Paced(events: seq<Event>, delay: int, prev: uint32)
    decreases |events|
  {
    if events == [] then true
    else if events[0].Slept? then false
    else if |events| >= 2 && events[1].Slept? then
      && events[0].Wrote? && |events[0].bytes| >= 8
      && events[1].ms == SleepMs(delay, Timestamp(events[0].bytes), prev)
      && Paced(events[2..], delay, Timestamp(events[0].bytes))
    else
      && !(events[0].Wrote? && |events[0].bytes| >= 8)
      && Paced(events[1..], delay, prev)
  }

  /** The events of one `SendData` call on a frame of 8 bytes or more, with
      `prev` before and `next` after it: a refused write that leaves `prev`
      alone, or the write of the frame, the sleep `SleepMs` prescribes and
      `next` the frame's timestamp. */
  ghost predicate StepShaped(events: seq<Event>, delay: int, prev: uint32, next: uint32)
  {
    || (|events| == 1 && events[0].Refused? && next == prev)
    || (&& |events| == 2 && events[0].Wrote? && |events[0].bytes| >= 8
        && events[1] == Slept(SleepMs(delay, Timestamp(events[0].bytes), prev))
        && next == Timestamp(events[0].bytes))
  }

  /** `SendData` on a frame of 8 bytes or more leaves events of that shape. */
  lemma SendDataShaped(faults: map<nat, Fault>, attempts: nat, data: seq<byte>, prev: uint32, delay: int)
    requires |data| >= 8
    ensures var s := SendDataStep(faults, attempts, data, prev, delay);
      StepShaped(s.events, delay, prev, s.prev)
  {
  }

  /** Putting the events of one `SendData` call in front of a paced
      continuation gives a paced trace, the continuation starting from the
      `prevTimestamp` that call leaves behind. */
  lemma ShapedThenPaced(events: seq<Event>, delay: int, prev: uint32, next: uint32, rest: seq<Event>)
    requires StepShaped(events, delay, prev, next) && Paced(rest, delay, next)
    ensures Paced(events + rest, delay, prev)
  {
    if |events| == 1 {
      assert (events + rest)[1..] == rest;
    } else {
      assert (events + rest)[2..] == rest;
    }
  }

  /** A complete frame of 8 bytes or more goes to `SendData`, and the scan
      resumes right after it, at `end`, whatever the write did; on a healthy
      port the frame is written as it is. */
  lemma FrameStep(faults: map<nat, Fault>, input: seq<byte>, pos: nat, prev: uint32, delay: int, attempts: nat)
      returns (end: nat, events: seq<Event>, next: uint32, count: nat)
    requires pos + 2 <= |input| && IsMagic(input[pos])
    requires 8 <= 2 + PayloadLength(input[pos], input[pos + 1])
    requires pos + 2 + PayloadLength(input[pos], input[pos + 1]) <= |input|
    ensures end == pos + 2 + PayloadLength(input[pos], input[pos + 1]) && pos < end <= |input|
    ensures BinaryRun(faults, input, pos, prev, delay, attempts) == Then(events, BinaryRun(faults, input, end, next, delay, count))
    ensures StepShaped(events, delay, prev, next)
    ensures faults == map[] ==> Written(events) == input[pos..end]
  {
    end := pos + 2 + PayloadLength(input[pos], input[pos + 1]);
    var frame := input[pos..end];
    var s := SendDataStep(faults, attempts, frame, prev, delay);
    MagicFrameSent(faults, input, pos, prev, delay, attempts);
    SendDataShaped(faults, attempts, frame, prev, delay);
    if faults == map[] {
      HealthyStepWrites(attempts, frame, prev, delay);
    }
    events, next, count := s.events, s.prev, s.attempts;
  }

  /** A pass-through group in front of a paced continuation, or its failed
      write, keeps the trace paced. */
  lemma PassThroughPaced(faults: map<nat, Fault>, input: seq<byte>, pos: nat, prev: uint32, delay: int, attempts: nat)
    requires pos + 2 <= |input| && !IsMagic(input[pos])
    requires Paced(BinaryRun(faults, input, pos + 2, prev, delay, attempts + 1).events, delay, prev)
    ensures Paced(BinaryRun(faults, input, pos, prev, delay, attempts).events, delay, prev)
  {
    if FaultAt(faults, attempts).None? {
      PassThroughForwarded(faults, input, pos, prev, delay, attempts);
      var rest := BinaryRun(faults, input, pos + 2, prev, delay, attempts + 1).events;
      assert ([Wrote(input[pos..pos + 2])] + rest)[1..] == rest;
    } else {
      PassThroughFailureCrashes(faults, input, pos, prev, delay, attempts);
      assert [Refused(FaultAt(faults, attempts).value)][1..] == [];
    }
  }

  /** A binary scan that stops at byte `pos` writes nothing more. */
  lemma ScanStops(faults: map<nat, Fault>, input: seq<byte>, pos: nat, prev: uint32, delay: int, attempts: nat)
    requires pos <= |input|
    requires |input| - pos < 2 || (IsMagic(input[pos]) && (|input| - pos < 2 + PayloadLength(input[pos], input[pos + 1]) || 2 + PayloadLength(input[pos], input[pos + 1]) < 8))
    ensures BinaryRun(faults, input, pos, prev, delay, attempts).events == []
  {
    if |input| - pos < 2 {
      ScanEnds(faults, input, pos, prev, delay, attempts);
    } else if |input| - pos < 2 + PayloadLength(input[pos], input[pos + 1]) {
      TruncatedFrameEndsRun(faults, input, pos, prev, delay, attempts);
    } else {
      ShortFrameCrashes(faults, input, pos, prev, delay, attempts);
    }
  }

  /** One pass of the binary scan keeps the trace paced: either the run ends
      in it with a paced trace, or it continues at `next` from `nextPrev`,
      and a paced continuation makes a paced run. */
  lemma PassPaced(faults: map<nat, Fault>, input: seq<byte>, pos: nat, prev: uint32, delay: int, attempts: nat)
      returns (stop: bool, next: nat, nextPrev: uint32, count: nat)
    requires pos <= |input|
    ensures stop ==> Paced(BinaryRun(faults, input, pos, prev, delay, attempts).events, delay, prev)
    ensures !stop ==> pos < next <= |input|
    ensures !stop && Paced(BinaryRun(faults, input, next, nextPrev, delay, count).events, delay, nextPrev) ==>
      Paced(BinaryRun(faults, input, pos, prev, delay, attempts).events, delay, prev)
  {
    stop, next, nextPrev, count := true, pos, prev, attempts;
    if |input| - pos >= 2 && !IsMagic(input[pos]) {
      stop, next, count := false, pos + 2, attempts + 1;
      if Paced(BinaryRun(faults, input, pos + 2, prev, delay, attempts + 1).events, delay, prev) {
        PassThroughPaced(faults, input, pos, prev, delay, attempts);
      }
    } else if |input| - pos >= 2 && 8 <= 2 + PayloadLength(input[pos], input[pos + 1]) <= |input| - pos {
      var events;
      stop := false;
      next, events, nextPrev, count := FrameStep(faults, input, pos, prev, delay, attempts);
      if Paced(BinaryRun(faults, input, next, nextPrev, delay, count).events, delay, nextPrev) {
        ShapedThenPaced(events, delay, prev, nextPrev, BinaryRun(faults, input, next, nextPrev, delay, count).events);
      }
    } else {
      ScanStops(faults, input, pos, prev, delay, attempts);
    }
  }

  /** The writes and sleeps of every binary replay are paced. */
  lemma {:induction false} BinaryRunPaced(faults: map<nat, Fault>, input: seq<byte>, pos: nat, prev: uint32, delay: int, attempts: nat)
    requires pos <= |input|
    ensures Paced(BinaryRun(faults, input, pos, prev, delay, attempts).events, delay, prev)
    decreases |input| - pos
  {
    var stop, next, nextPrev, count := PassPaced(faults, input, pos, prev, delay, attempts);
    if !stop {
      BinaryRunPaced(faults, input, next, nextPrev, delay, count);
    }
  }

  /** The writes and sleeps of every text replay are paced. */
  lemma {:induction false} TextRunPaced(faults: map<nat, Fault>, lines: seq<string16>, i: nat, prev: uint32, delay: int, attempts: nat)
    requires i <= |lines|
    ensures Paced(TextRun(faults, lines, i, prev, delay, attempts).events, delay, prev)
    decreases |lines| - i
  {
    if i < |lines| && |lines[i]| % 2 == 0 && DecodePairs(lines[i]).Ok? && |DecodePairs(lines[i]).value| >= 8 {
      var events, next, count := LineSent(faults, lines, i, prev, delay, attempts);
      TextRunPaced(faults, lines, i + 1, next, delay, count);
      ShapedThenPaced(events, delay, prev, next, TextRun(faults, lines, i + 1, next, delay, count).events);
    } else {
      TextRunHalts(faults, lines, i, prev, delay, attempts);
    }
  }

  /** What pacing means sleep by sleep: each sleep comes right after the
      write of a frame of at least 8 bytes; with a fixed delay it is exactly
      that delay; in realtime mode it is a positive wait of at most 500 ms. */
  lemma {:induction false} PacedSleeps(events: seq<Event>, delay: int, prev: uint32)
    requires Paced(events, delay, prev)
    ensures forall k :: 0 <= k < |events| && events[k].Slept? ==>
      && 0 < k && events[k - 1].Wrote? && |events[k - 1].bytes| >= 8
      && (delay >= 0 ==> events[k].ms == delay)
      && (delay < 0 ==> 0 < events[k].ms <= FallbackMs)
    decreases |events|
  {
    if events == [] {
    } else if |events| >= 2 && events[1].Slept? {
      var next := Timestamp(events[0].bytes);
      PacedSleeps(events[2..], delay, next);
      forall k | 0 <= k < |events| && events[k].Slept?
        ensures 0 < k && events[k - 1].Wrote? && |events[k - 1].bytes| >= 8
        ensures delay >= 0 ==> events[k].ms == delay
        ensures delay < 0 ==> 0 < events[k].ms <= FallbackMs
      {
        if k >= 2 {
          assert events[k] == events[2..][k - 2];
          assert events[k - 1] == events[2..][k - 3];
        }
      }
    } else {
      PacedSleeps(events[1..], delay, prev);
      forall k | 0 <= k < |events| && events[k].Slept?
        ensures 0 < k && events[k - 1].Wrote? && |events[k - 1].bytes| >= 8
        ensures delay >= 0 ==> events[k].ms == delay
        ensures delay < 0 ==> 0 < events[k].ms <= FallbackMs
      {
        assert events[k] == events[1..][k - 1];
        if k >= 2 {
          assert events[k - 1] == events[1..][k - 2];
        }
      }
    }
  }

  /** Fixed mode: in a binary replay with a delay of 0 or more, every sleep is
      exactly that delay and follows the write of a frame. */
  lemma FixedDelayBinary(faults: map<nat, Fault>, input: seq<byte>, delay: nat, attempts: nat)
    ensures var events := BinaryRun(faults, input, 0, 0, delay, attempts).events;
      forall k :: 0 <= k < |events| && events[k].Slept? ==>
        events[k].ms == delay && 0 < k && events[k - 1].Wrote? && |events[k - 1].bytes| >= 8
  {
    BinaryRunPaced(faults, input, 0, 0, delay, attempts);
    PacedSleeps(BinaryRun(faults, input, 0, 0, delay, attempts).events, delay, 0);
  }

  /** Realtime mode: in a text replay with a negative delay every sleep lies
      in (0, 500] ms and follows the write of a frame. */
  lemma RealtimeBoundedText(faults: map<nat, Fault>, lines: seq<string16>, delay: int, attempts: nat)
    requires delay < 0
    ensures var events := TextRun(faults, lines, 0, 0, delay, attempts).events;
      forall k :: 0 <= k < |events| && events[k].Slept? ==>
        0 < events[k].ms <= FallbackMs && 0 < k && events[k - 1].Wrote? && |events[k - 1].bytes| >= 8
  {
    TextRunPaced(faults, lines, 0, 0, delay, attempts);
    PacedSleeps(TextRun(faults, lines, 0, 0, delay, attempts).events, delay, 0);
  }

  /** Fixed mode in a text replay: every sleep is exactly the delay and
      follows the write of a frame. */
  lemma FixedDelayText(faults: map<nat, Fault>, lines: seq<string16>, delay: nat, attempts: nat)
    ensures var events := TextRun(faults, lines, 0, 0, delay, attempts).events;
      forall k :: 0 <= k < |events| && events[k].Slept? ==>
        events[k].ms == delay && 0 < k && events[k - 1].Wrote? && |events[k - 1].bytes| >= 8
  {
    TextRunPaced(faults, lines, 0, 0, delay, attempts);
    PacedSleeps(TextRun(faults, lines, 0, 0, delay, attempts).events, delay, 0);
  }

  /** Realtime mode in a binary replay: every sleep lies in (0, 500] ms and
      follows the write of a frame. */
  lemma RealtimeBoundedBinary(faults: map<nat, Fault>, input: seq<byte>, delay: int, attempts: nat)
    requires delay < 0
    ensures var events := BinaryRun(faults, input, 0, 0, delay, attempts).events;
      forall k :: 0 <= k < |events| && events[k].Slept? ==>
        0 < events[k].ms <= FallbackMs && 0 < k && events[k - 1].Wrote? && |events[k - 1].bytes| >= 8
  {
    BinaryRunPaced(faults, input, 0, 0, delay, attempts);
    PacedSleeps(BinaryRun(faults, input, 0, 0, delay, attempts).events, delay, 0);
  }

  // ---------------------------------------------------------------------------
  // A healthy port

  /** Where a binary replay on a port that never fails stops reading, at
      byte `at`: at the end of the file it leaves fewer than 2 bytes or a
      magic signature whose payload is cut short; when it crashes it is at a
      complete magic frame of fewer than 8 bytes. */
  ghost predicate Leftover(input: seq<byte>, at: nat, outcome: Outcome)
    requires at <= |input|
  {
    match outcome
    case Finished =>
      |input| - at < 2 || (IsMagic(input[at]) && |input| - at < 2 + PayloadLength(input[at], input[at + 1]))
    case Crashed(ShortFrame) =>
      && |input| - at >= 2 && IsMagic(input[at])
      && 2 + PayloadLength(input[at], input[at + 1]) <= |input| - at
      && 2 + PayloadLength(input[at], input[at + 1]) < 8
    case _ => false
  }

  lemma WrittenDelivered(data: seq<byte>, ms: nat)
    ensures Written([Wrote(data), Slept(ms)]) == data
  {
    var events := [Wrote(data), Slept(ms)];
    assert events[1..] == [Slept(ms)] && events[1..][1..] == [];
    assert Written(events[1..]) == [];
  }

  /** The run `r` from byte `pos` on writes the capture unchanged, byte for
      byte, up to where it stops, and leaves there what `Leftover` allows. */
  ghost predicate ForwardsFrom(input: seq<byte>, pos: nat, r: Run)
  {
    var w := Written(r.events);
    && pos + |w| <= |input|
    && (forall k :: 0 <= k < |w| ==> w[k] == input[pos + k])
    && Leftover(input, pos + |w|, r.outcome)
  }

  /** Events that write exactly the bytes from `pos` up to `end`, followed by
      a run that forwards the capture from `end`, forward it from `pos`. */
  lemma ForwardsAfter(input: seq<byte>, pos: nat, end: nat, events: seq<Event>, r: Run, whole: Run)
    requires pos <= end <= |input| && Written(events) == input[pos..end]
    requires ForwardsFrom(input, end, r) && whole == Then(events, r)
    ensures ForwardsFrom(input, pos, whole)
  {
    WrittenAppend(events, r.events);
    var w := Written(r.events);
    forall j | 0 <= j < end - pos + |w|
      ensures Written(Then(events, r).events)[j] == input[pos + j]
    {
      if j >= end - pos {
        assert Written(Then(events, r).events)[j] == w[j - (end - pos)];
      }
    }
  }

  /** On a healthy port `SendData` writes a frame of 8 bytes or more as it
      is. */
  lemma HealthyStepWrites(attempts: nat, data: seq<byte>, prev: uint32, delay: int)
    requires |data| >= 8
    ensures Written(SendDataStep(map[], attempts, data, prev, delay).events) == data
  {
    var s := SendDataStep(map[], attempts, data, prev, delay);
    assert FaultAt(map[], attempts) == None;
    assert s.events == [Wrote(data), Slept(s.events[1].ms)];
    WrittenDelivered(data, s.events[1].ms);
  }

  /** A pass-through group on a healthy port forwards its two bytes. */
  lemma HealthyPassThrough(input: seq<byte>, pos: nat, prev: uint32, delay: int, attempts: nat)
    requires pos + 2 <= |input| && !IsMagic(input[pos])
    requires ForwardsFrom(input, pos + 2, BinaryRun(map[], input, pos + 2, prev, delay, attempts + 1))
    ensures ForwardsFrom(input, pos, BinaryRun(map[], input, pos, prev, delay, attempts))
  {
    PassThroughForwarded(map[], input, pos, prev, delay, attempts);
    var events := [Wrote(input[pos..pos + 2])];
    assert Written(events) == input[pos..pos + 2] by {
      assert events[1..] == [];
    }
    ForwardsAfter(input, pos, pos + 2, events, BinaryRun(map[], input, pos + 2, prev, delay, attempts + 1),
      BinaryRun(map[], input, pos, prev, delay, attempts));
  }

  /** A healthy binary scan that stops at byte `pos` leaves there what
      `Leftover` describes, having written nothing more. */
  lemma HealthyScanStops(input: seq<byte>, pos: nat, prev: uint32, delay: int, attempts: nat)
    requires pos <= |input|
    requires |input| - pos < 2 || (IsMagic(input[pos]) && (|input| - pos < 2 + PayloadLength(input[pos], input[pos + 1]) || 2 + PayloadLength(input[pos], input[pos + 1]) < 8))
    ensures ForwardsFrom(input, pos, BinaryRun(map[], input, pos, prev, delay, attempts))
  {
    if |input| - pos < 2 {
      ScanEnds(map[], input, pos, prev, delay, attempts);
    } else if |input| - pos < 2 + PayloadLength(input[pos], input[pos + 1]) {
      TruncatedFrameEndsRun(map[], input, pos, prev, delay, attempts);
    } else {
      ShortFrameCrashes(map[], input, pos, prev, delay, attempts);
    }
    assert Written([]) == [];
  }

  /** One pass of a healthy binary scan: either the run ends in it, having
      forwarded the capture, or it continues at `next`, and a continuation
      that forwards the rest forwards the capture from `pos`. */
  lemma HealthyPass(input: seq<byte>, pos: nat, prev: uint32, delay: int, attempts: nat)
      returns (stop: bool, next: nat, nextPrev: uint32, count: nat)
    requires pos <= |input|
    ensures stop ==> ForwardsFrom(input, pos, BinaryRun(map[], input, pos, prev, delay, attempts))
    ensures !stop ==> pos < next <= |input|
    ensures !stop && ForwardsFrom(input, next, BinaryRun(map[], input, next, nextPrev, delay, count)) ==>
      ForwardsFrom(input, pos, BinaryRun(map[], input, pos, prev, delay, attempts))
  {
    stop, next, nextPrev, count := true, pos, prev, attempts;
    if |input| - pos >= 2 && !IsMagic(input[pos]) {
      stop, next, count := false, pos + 2, attempts + 1;
      if ForwardsFrom(input, pos + 2, BinaryRun(map[], input, pos + 2, prev, delay, attempts + 1)) {
        HealthyPassThrough(input, pos, prev, delay, attempts);
      }
    } else if |input| - pos >= 2 && 8 <= 2 + PayloadLength(input[pos], input[pos + 1]) <= |input| - pos {
      var events;
      stop := false;
      next, events, nextPrev, count := FrameStep(map[], input, pos, prev, delay, attempts);
      if ForwardsFrom(input, next, BinaryRun(map[], input, next, nextPrev, delay, count)) {
        ForwardsAfter(input, pos, next, events, BinaryRun(map[], input, next, nextPrev, delay, count),
          BinaryRun(map[], input, pos, prev, delay, attempts));
      }
    } else {
      HealthyScanStops(input, pos, prev, delay, attempts);
    }
  }

  /** The induction behind `HealthyBinaryForwardsCapture`, from any byte
      `pos` on. */
  lemma {:induction false} HealthyForwardsFrom(input: seq<byte>, pos: nat, prev: uint32, delay: int, attempts: nat)
    requires pos <= |input|
    ensures ForwardsFrom(input, pos, BinaryRun(map[], input, pos, prev, delay, attempts))
    decreases |input| - pos
  {
    var stop, next, nextPrev, count := HealthyPass(input, pos, prev, delay, attempts);
    if !stop {
      HealthyForwardsFrom(input, next, nextPrev, delay, count);
    }
  }

  /** On a port that never fails, a binary replay sends the capture
      unchanged: the bytes written, run together, are a prefix of the file,
      and what follows them is described by `Leftover`. */
  lemma HealthyBinaryForwardsCapture(input: seq<byte>, delay: int)
    ensures var r := BinaryRun(map[], input, 0, 0, delay, 0);
      var w := Written(r.events);
      w <= input && Leftover(input, |w|, r.outcome)
  {
    HealthyForwardsFrom(input, 0, 0, delay, 0);
    var w := Written(BinaryRun(map[], input, 0, 0, delay, 0).events);
    assert w == input[..|w|];
  }

  /** On a port that never fails, a binary replay ends only at the end of the
      file or with the crash of a frame too short for its timestamp. */
  lemma HealthyBinaryOutcomes(input: seq<byte>, delay: int)
    ensures var o := BinaryRun(map[], input, 0, 0, delay, 0).outcome;
      o == Finished || o == Crashed(ShortFrame)
  {
    HealthyForwardsFrom(input, 0, 0, delay, 0);
  }

  // ---------------------------------------------------------------------------
  // Where a text replay stops

  /** Lines `i` up to (not including) `j` were each sent as a frame: even
      length, all hex, at least 8 bytes once decoded. */
  ghost predicate LinesSent(lines: seq<string16>, i: nat, j: nat)
    requires i <= j <= |lines|
  {
    forall k :: i <= k < j ==>
      |lines[k]| % 2 == 0 && DecodePairs(lines[k]).Ok? && |DecodePairs(lines[k]).value| >= 8
  }

  /** The 0-based index of the line a text replay stopped at: the line it
      reports, or the number of lines when it read them all. */
  function StopLine(outcome: Outcome, count: nat): nat
  {
    if (outcome.OddLine? || outcome.BadHex?) && outcome.line > 0 then outcome.line - 1 else count
  }

  /** Line `k` is even and all hex but decodes to fewer than 8 bytes, too
      few for `SendData` to read a timestamp from. */
  ghost predicate ShortLine(lines: seq<string16>, k: nat)
    requires k < |lines|
  {
    |lines[k]| % 2 == 0 && DecodePairs(lines[k]).Ok? && |DecodePairs(lines[k]).value| < 8
  }

  /** How a text replay from line `i` may end with outcome `o`: at the first
      line that is not a frame, named by its 1-based number when its length
      is odd, by its number and the pair's even column when a pair is not
      hex, every line before it having been sent; at the end with every line
      sent; or crashed at a line too short for a timestamp, every line before
      it having been sent. */
  ghost predicate StopsAt(lines: seq<string16>, i: nat, o: Outcome)
    requires i <= |lines|
  {
    var stop := StopLine(o, |lines|);
    && (o.Crashed? ==>
          && o.crash == ShortFrame
          && exists k :: i <= k < |lines| && LinesSent(lines, i, k) && ShortLine(lines, k))
    && (!o.Crashed? ==> i <= stop <= |lines| && LinesSent(lines, i, stop))
    && (o.OddLine? ==> o.line == stop + 1 && stop < |lines| && |lines[stop]| % 2 == 1)
    && (o.BadHex? ==>
          && o.line == stop + 1 && stop < |lines| && |lines[stop]| % 2 == 0
          && DecodePairs(lines[stop]) == Err(o.col)
          && o.col % 2 == 0 && o.col + 1 < |lines[stop]|)
  }

  /** A sent line in front of a replay that ends as `StopsAt` says keeps
      it so. */
  lemma StopsAtExtends(lines: seq<string16>, i: nat, o: Outcome)
    requires i < |lines| && LinesSent(lines, i, i + 1) && StopsAt(lines, i + 1, o)
    ensures StopsAt(lines, i, o)
  {
    if o.Crashed? {
      var k :| i + 1 <= k < |lines| && LinesSent(lines, i + 1, k) && ShortLine(lines, k);
      assert LinesSent(lines, i, k);
    }
  }

  /** The text replay stops where `StopsAt` says: at the first line that is
      not a frame, which it names, every line before it having been sent. */
  lemma {:induction false} TextRunStops(faults: map<nat, Fault>, lines: seq<string16>, i: nat, prev: uint32, delay: int, attempts: nat)
    requires i <= |lines|
    ensures StopsAt(lines, i, TextRun(faults, lines, i, prev, delay, attempts).outcome)
    decreases |lines| - i
  {
    if i < |lines| && |lines[i]| % 2 == 0 && DecodePairs(lines[i]).Ok? && |DecodePairs(lines[i]).value| >= 8 {
      var events, next, count := LineSent(faults, lines, i, prev, delay, attempts);
      TextRunStops(faults, lines, i + 1, next, delay, count);
      StopsAtExtends(lines, i, TextRun(faults, lines, i + 1, next, delay, count).outcome);
    } else {
      TextRunHalts(faults, lines, i, prev, delay, attempts);
    }
  }

  /** A line that decodes to a frame of 8 bytes or more goes to `SendData`,
      and the replay goes on with the next line whatever the write did. */
  lemma LineSent(faults: map<nat, Fault>, lines: seq<string16>, i: nat, prev: uint32, delay: int, attempts: nat)
      returns (events: seq<Event>, next: uint32, count: nat)
    requires i < |lines| && |lines[i]| % 2 == 0 && DecodePairs(lines[i]).Ok?
    requires |DecodePairs(lines[i]).value| >= 8
    ensures TextRun(faults, lines, i, prev, delay, attempts) == Then(events, TextRun(faults, lines, i + 1, next, delay, count))
    ensures StepShaped(events, delay, prev, next)
  {
    var s := SendDataStep(faults, attempts, DecodePairs(lines[i]).value, prev, delay);
    SendDataShaped(faults, attempts, DecodePairs(lines[i]).value, prev, delay);
    events, next, count := s.events, s.prev, s.attempts;
  }

  /** The decoded frames of lines `i` up to `j`, back to back. */
  function Decoded(lines: seq<string16>, i: nat, j: nat): seq<byte>
    requires i <= j <= |lines|
    decreases j - i
  {
    if i == j then [] else
      var frame := if |lines[i]| % 2 == 0 && DecodePairs(lines[i]).Ok? then DecodePairs(lines[i]).value else [];
      frame + Decoded(lines, i + 1, j)
  }

  /** On a healthy port a line that decodes to 8 bytes or more is written
      as it decodes, and the replay goes on with the next line. */
  lemma HealthyLineSent(lines: seq<string16>, i: nat, prev: uint32, delay: int, attempts: nat)
      returns (events: seq<Event>, next: uint32, count: nat)
    requires i < |lines| && |lines[i]| % 2 == 0 && DecodePairs(lines[i]).Ok?
    requires |DecodePairs(lines[i]).value| >= 8
    ensures Written(events) == DecodePairs(lines[i]).value
    ensures TextRun(map[], lines, i, prev, delay, attempts) == Then(events, TextRun(map[], lines, i + 1, next, delay, count))
  {
    var data := DecodePairs(lines[i]).value;
    var s := SendDataStep(map[], attempts, data, prev, delay);
    HealthyStepWrites(attempts, data, prev, delay);
    events, next, count := s.events, s.prev, s.attempts;
  }

  /** On a port that never fails, a text replay that does not crash writes
      the decoded lines in order, one frame per line, from line `i` up to the
      line where it stops. */
  lemma {:induction false} HealthyTextSendsLines(lines: seq<string16>, i: nat, prev: uint32, delay: int, attempts: nat)
    requires i <= |lines|
    ensures var r := TextRun(map[], lines, i, prev, delay, attempts);
      var stop := StopLine(r.outcome, |lines|);
      !r.outcome.Crashed? ==> i <= stop <= |lines| && Written(r.events) == Decoded(lines, i, stop)
    decreases |lines| - i
  {
    if i < |lines| && |lines[i]| % 2 == 0 && DecodePairs(lines[i]).Ok? && |DecodePairs(lines[i]).value| >= 8 {
      var events, next, count := HealthyLineSent(lines, i, prev, delay, attempts);
      var rest := TextRun(map[], lines, i + 1, next, delay, count);
      HealthyTextSendsLines(lines, i + 1, next, delay, count);
      WrittenAppend(events, rest.events);
    } else {
      TextRunHalts(map[], lines, i, prev, delay, attempts);
      assert Written([]) == [];
    }
  }

  /** If the run `r` from line `i` crashed, it did so at the first line too
      short for a timestamp, having sent every line before it, and wrote
      exactly their decoded bytes. */
  ghost predicate CrashedAt(lines: seq<string16>, i: nat, r: Run)
    requires i <= |lines|
  {
    r.outcome.Crashed? ==>
      exists k :: i <= k < |lines| && LinesSent(lines, i, k) && ShortLine(lines, k) && Written(r.events) == Decoded(lines, i, k)
  }

  /** A line sent as `events` in front of a run that crashed as `CrashedAt`
      says keeps it so. */
  lemma CrashedAtExtends(lines: seq<string16>, i: nat, events: seq<Event>, rest: Run)
    requires i < |lines| && LinesSent(lines, i, i + 1)
    requires Written(events) == DecodePairs(lines[i]).value
    requires CrashedAt(lines, i + 1, rest)
    ensures CrashedAt(lines, i, Then(events, rest))
  {
    if rest.outcome.Crashed? {
      var k :| i + 1 <= k < |lines| && LinesSent(lines, i + 1, k) && ShortLine(lines, k)
        && Written(rest.events) == Decoded(lines, i + 1, k);
      WrittenAppend(events, rest.events);
      assert Decoded(lines, i, k) == DecodePairs(lines[i]).value + Decoded(lines, i + 1, k);
      assert LinesSent(lines, i, k);
    }
  }

  /** On a port that never fails, a text replay that crashes does so at the
      first line too short for a timestamp, having sent every line before it:
      the device received exactly their decoded bytes. */
  lemma {:induction false} HealthyTextCrashes(lines: seq<string16>, i: nat, prev: uint32, delay: int, attempts: nat)
    requires i <= |lines|
    ensures CrashedAt(lines, i, TextRun(map[], lines, i, prev, delay, attempts))
    decreases |lines| - i
  {
    if i < |lines| && |lines[i]| % 2 == 0 && DecodePairs(lines[i]).Ok? && |DecodePairs(lines[i]).value| >= 8 {
      var events, next, count := HealthyLineSent(lines, i, prev, delay, attempts);
      HealthyTextCrashes(lines, i + 1, next, delay, count);
      CrashedAtExtends(lines, i, events, TextRun(map[], lines, i + 1, next, delay, count));
    } else if i < |lines| && ShortLine(lines, i) {
      ShortLineCrashes(map[], lines, i, prev, delay, attempts);
      assert Written([]) == [];
      assert LinesSent(lines, i, i) && Decoded(lines, i, i) == [];
    } else {
      TextRunHalts(map[], lines, i, prev, delay, attempts);
    }
  }

  /** A text replay whose line `i` is not a frame of 8 bytes or more writes
      nothing and, unless it crashes, stops at that line. */
  lemma TextRunHalts(faults: map<nat, Fault>, lines: seq<string16>, i: nat, prev: uint32, delay: int, attempts: nat)
    requires i <= |lines|
    requires !(i < |lines| && |lines[i]| % 2 == 0 && DecodePairs(lines[i]).Ok? && |DecodePairs(lines[i]).value| >= 8)
    ensures var r := TextRun(faults, lines, i, prev, delay, attempts);
      && r.events == []
      && (!r.outcome.Crashed? ==> StopLine(r.outcome, |lines|) == i)
      && StopsAt(lines, i, r.outcome)
  {
    if i < |lines| && ShortLine(lines, i) {
      ShortLineCrashes(faults, lines, i, prev, delay, attempts);
      assert LinesSent(lines, i, i);
    }
  }

  /** A whole text replay on a port that never fails: every line before the
      one it stops or crashes at was sent, and the device received exactly
      their decoded bytes. */
  lemma HealthyText(lines: seq<string16>, delay: int)
    ensures var r := TextRun(map[], lines, 0, 0, delay, 0);
      var stop := StopLine(r.outcome, |lines|);
      !r.outcome.Crashed? ==>
        && stop <= |lines| && LinesSent(lines, 0, stop)
        && Written(r.events) == Decoded(lines, 0, stop)
    ensures var r := TextRun(map[], lines, 0, 0, delay, 0);
      r.outcome.Crashed? ==>
        exists k :: 0 <= k < |lines| && LinesSent(lines, 0, k) && ShortLine(lines, k) && Written(r.events) == Decoded(lines, 0, k)
  {
    TextRunStops(map[], lines, 0, 0, delay, 0);
    HealthyTextSendsLines(lines, 0, 0, delay, 0);
    HealthyTextCrashes(lines, 0, 0, delay, 0);
  }

  // ---------------------------------------------------------------------------
  // Failures inside SendData

  /** A complete frame whose write fails is reported and skipped: the binary
      scan carries on right after it with `prevTimestamp` unchanged. */
  lemma FrameWriteFailureContinues(faults: map<nat, Fault>, input: seq<byte>, pos: nat, prev: uint32, delay: int, attempts: nat)
    requires pos + 2 <= |input| && IsMagic(input[pos])
    requires 8 <= 2 + PayloadLength(input[pos], input[pos + 1])
    requires pos + 2 + PayloadLength(input[pos], input[pos + 1]) <= |input|
    requires FaultAt(faults, attempts).Some?
    ensures BinaryRun(faults, input, pos, prev, delay, attempts)
      == Then([Refused(FaultAt(faults, attempts).value)],
              BinaryRun(faults, input, pos + 2 + PayloadLength(input[pos], input[pos + 1]), prev, delay, attempts + 1))
  {
    MagicFrameSent(faults, input, pos, prev, delay, attempts);
  }

  /** Likewise in a text replay: a line whose write fails is skipped and the
      next line is read with `prevTimestamp` unchanged. */
  lemma LineWriteFailureContinues(faults: map<nat, Fault>, lines: seq<string16>, i: nat, prev: uint32, delay: int, attempts: nat)
    requires i < |lines| && |lines[i]| % 2 == 0 && DecodePairs(lines[i]).Ok?
    requires |DecodePairs(lines[i]).value| >= 8
    requires FaultAt(faults, attempts).Some?
    ensures TextRun(faults, lines, i, prev, delay, attempts)
      == Then([Refused(FaultAt(faults, attempts).value)], TextRun(faults, lines, i + 1, prev, delay, attempts + 1))
  {
  }

  // ---------------------------------------------------------------------------
  // Worked examples

  /** A 2-byte group `01 02` is passed through; then a magic signature `AC 10`
      announces 16 payload bytes of which one is there: the frame is dropped
      and the replay finishes normally. */
  lemma TruncatedTailExample(faults: map<nat, Fault>, delay: int)
    requires faults == map[]
    ensures BinaryRun(faults, [0x01, 0x02, 0xAC, 0x10, 0x00], 0, 0, delay, 0)
      == Run([Wrote([0x01, 0x02])], 1, Finished)
  {
    var input: seq<byte> := [0x01, 0x02, 0xAC, 0x10, 0x00];
    PassThroughForwarded(faults, input, 0, 0, delay, 0);
    TruncatedFrameEndsRun(faults, input, 2, 0, delay, 1);
  }

  /** One 8-byte frame with timestamp 5 replayed in realtime from a start at
      0: it is written, then the thread sleeps 50 ms. */
  lemma RealtimeFrameExample()
    ensures BinaryRun(map[], [0xAC, 0x06, 0, 0, 0, 0, 0, 5], 0, 0, -1, 0)
      == Run([Wrote([0xAC, 0x06, 0, 0, 0, 0, 0, 5]), Slept(50)], 1, Finished)
  {
    var input: seq<byte> := [0xAC, 0x06, 0, 0, 0, 0, 0, 5];
    MagicFrameSent(map[], input, 0, 0, -1, 0);
    assert input[0..8] == input;
    RealtimeDelayRule(5, 0);
  }

  /** How `StreamReader` hands a line of text to C#: each character as one
      UTF-16 code unit, or as a surrogate pair when it lies outside the Basic
      Multilingual Plane. */
  function Utf16(s: string): (u: string16)
    ensures |s| <= |u| <= 2 * |s|
    ensures (forall k :: 0 <= k < |s| ==> s[k] as int < 0x1_0000) ==> u == seq(|s|, k requires 0 <= k < |s| => s[k] as int)
    ensures |u| == |s| ==> forall k :: 0 <= k < |s| ==> s[k] as int < 0x1_0000
  {
    if s == [] then []
    else
      var c := s[0] as int;
      (if c < 0x1_0000 then [c] else [0xD800 + (c - 0x1_0000) / 0x400, 0xDC00 + (c - 0x1_0000) % 0x400])
      + Utf16(s[1..])
  }

  /** A line of odd length stops the text replay and reports its 1-based
      number. */
  lemma OddLineExample(faults: map<nat, Fault>, delay: int)
    ensures TextRun(faults, [Utf16("ABC")], 0, 0, delay, 0).outcome == OddLine(1)
  {
    assert Utf16("ABC") == ['A' as int, 'B' as int, 'C' as int];
  }

  /** A pair that is not hex stops the text replay and reports the line and
      the pair's column. */
  lemma BadHexExample(faults: map<nat, Fault>, delay: int)
    ensures TextRun(faults, [Utf16("A1G2")], 0, 0, delay, 0).outcome == BadHex(1, 2)
  {
    var line := Utf16("A1G2");
    assert line == ['A' as int, '1' as int, 'G' as int, '2' as int];
    assert Pair(line, 0) == Some(0xA1);
    assert Pair(line, 1) == None;
    assert line[2..] == ['G' as int, '2' as int];
  }

  /** Lengths and columns count code units: U+1F600 is the surrogate pair
      D83D DE00, so on its own it makes an even line whose first pair is not
      hex. */
  lemma SurrogatePairExample(faults: map<nat, Fault>, delay: int)
    ensures TextRun(faults, [Utf16("\U{1F600}")], 0, 0, delay, 0).outcome == BadHex(1, 0)
  {
    assert Utf16("\U{1F600}") == [0xD83D, 0xDE00];
  }

  /** After an 'A', the same character makes the line odd: three code units. */
  lemma SurrogateOddExample(faults: map<nat, Fault>, delay: int)
    ensures TextRun(faults, [Utf16("A\U{1F600}")], 0, 0, delay, 0).outcome == OddLine(1)
  {
    assert Utf16("A\U{1F600}") == ['A' as int, 0xD83D, 0xDE00];
  }

  /** An empty line is even and all hex, but its frame has no timestamp:
      `SendData` throws and the replay crashes there, before the odd line
      after it is looked at. */
  lemma EmptyLineExample(faults: map<nat, Fault>, delay: int)
    ensures TextRun(faults, [Utf16(""), Utf16("ABC")], 0, 0, delay, 0) == Run([], 0, Crashed(ShortFrame))
  {
    ShortLineCrashes(faults, [Utf16(""), Utf16("ABC")], 0, 0, delay, 0);
  }
}
