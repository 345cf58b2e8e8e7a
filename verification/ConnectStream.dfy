/**
 The Connect protocol's enveloped messages as the envd client frames, decodes and
 collects them: one flag byte, a big-endian 32-bit length, and the payload.
 */
module ConnectStream {
  import opened Wrappers

  type Bytes = string // one char per byte

  const HEADER := 5
  const MAX_PROCESS_OUTPUT_BYTES := 32 * 1024 * 1024

  // ---------- framing ----------

  function ByteOf(n: nat): char
    requires n < 256
  {
    n as char
  }

  // u32::to_be_bytes and u32::from_be_bytes.
  function BigEndian(n: nat): Bytes
    requires n < 0x1_0000_0000
  {
    var n1 := n / 0x100;
    var n2 := n1 / 0x100;
    [ByteOf(n2 / 0x100), ByteOf(n2 % 0x100), ByteOf(n1 % 0x100), ByteOf(n % 0x100)]
  }

  function FromBigEndian(bytes: Bytes): nat
    requires |bytes| == 4
  {
    (bytes[0] as int) * 0x100_0000 + (bytes[1] as int) * 0x1_0000 + (bytes[2] as int) * 0x100 + bytes[3] as int
  }

  lemma BigEndianInverse(n: nat)
    requires n < 0x1_0000_0000
    ensures FromBigEndian(BigEndian(n)) == n
  {}

  // start_stream's envelope; a payload that does not fit is a configuration error.
  function Envelope(payload: Bytes): Option<Bytes> {
    if |payload| >= 0x1_0000_0000 then None
    else Some([ByteOf(0)] + BigEndian(|payload|) + payload)
  }

  datatype Frame = Frame(flags: nat, payload: Bytes)

  predicate Compressed(frame: Frame) { frame.flags % 2 != 0 }

  predicate EndsStream(frame: Frame) { !Compressed(frame) && frame.flags / 2 % 2 != 0 }

  // The number of bytes of the first frame, once they are all there.
  function FrameSize(buffer: Bytes): (size: Option<nat>)
    ensures size.Some? ==> HEADER <= size.value <= |buffer|
  {
    if |buffer| < HEADER then None
    else
      var size := HEADER + FromBigEndian(buffer[1..HEADER]);
      if |buffer| < size then None else Some(size)
  }

  function FirstFrame(buffer: Bytes): Frame
    requires FrameSize(buffer).Some?
  {
    Frame(buffer[0] as int, buffer[HEADER..FrameSize(buffer).value])
  }

  // One-shot splitting: the complete frames, and what is left.
  function Frames(bytes: Bytes): seq<Frame>
    decreases |bytes|
  {
    if FrameSize(bytes).None? then []
    else [FirstFrame(bytes)] + Frames(bytes[FrameSize(bytes).value..])
  }

  function Remainder(bytes: Bytes): Bytes
    decreases |bytes|
  {
    if FrameSize(bytes).None? then bytes else Remainder(bytes[FrameSize(bytes).value..])
  }

  lemma FirstFrameIsStable(buffer: Bytes, more: Bytes)
    requires FrameSize(buffer).Some?
    ensures FrameSize(buffer + more) == FrameSize(buffer) && FirstFrame(buffer + more) == FirstFrame(buffer)
  {
    assert (buffer + more)[1..HEADER] == buffer[1..HEADER];
    var size := FrameSize(buffer).value;
    assert (buffer + more)[HEADER..size] == buffer[HEADER..size];
  }

  lemma {:induction false} FramesAppend(bytes: Bytes, more: Bytes)
    ensures Frames(bytes + more) == Frames(bytes) + Frames(Remainder(bytes) + more)
    ensures Remainder(bytes + more) == Remainder(Remainder(bytes) + more)
    decreases |bytes|
  {
    if FrameSize(bytes).Some? {
      var rest := bytes[FrameSize(bytes).value..];
      FirstFrameIsStable(bytes, more);
      FramesAppend(rest, more);
      assert (bytes + more)[FrameSize(bytes).value..] == rest + more;
    }
  }

  // ---------- decoding ----------

  datatype StreamError = CompressedFrame | EndError(code: nat) | BadMessage(code: nat) | TransportFailed | IncompleteFrame

  // What the payload decoders make of a message and of an end-of-stream message.
  datatype Codec<!E> = Codec(parseEvent: Bytes -> Result<E, StreamError>, endError: Bytes -> Option<StreamError>)

  type Item<+E> = Result<E, StreamError>

  // What one frame yields: an end-of-stream message only if it reports an error.
  function Yield<E>(codec: Codec<E>, frame: Frame): seq<Item<E>> {
    if Compressed(frame) then [Failure(CompressedFrame)]
    else if EndsStream(frame) then
      (match codec.endError(frame.payload)
       case None => []
       case Some(error) => [Failure(error)])
    else [codec.parseEvent(frame.payload)]
  }

  function YieldAll<E>(codec: Codec<E>, frames: seq<Frame>): seq<Item<E>> {
    if frames == [] then [] else Yield(codec, frames[0]) + YieldAll(codec, frames[1..])
  }

  lemma {:induction false} YieldAllAppend<E>(codec: Codec<E>, first: seq<Frame>, second: seq<Frame>)
    ensures YieldAll(codec, first + second) == YieldAll(codec, first) + YieldAll(codec, second)
    decreases |first|
  {
    if first == [] {
      assert first + second == second;
    } else {
      assert (first + second)[0] == first[0] && (first + second)[1..] == first[1..] + second;
      YieldAllAppend(codec, first[1..], second);
    }
  }

  // Everything the decoder still yields: chunks to come, how the transport ends,
  // the buffer, and whether the end-of-stream message was seen.
  function Items<E>(codec: Codec<E>, chunks: seq<Bytes>, broken: bool, buffer: Bytes, done: bool): seq<Item<E>>
    decreases |chunks|, |buffer|
  {
    if FrameSize(buffer).Some? then
      var frame := FirstFrame(buffer);
      Yield(codec, frame)
      + Items(codec, chunks, broken, buffer[FrameSize(buffer).value..], done || EndsStream(frame))
    else if done then []
    else if chunks != [] then Items(codec, chunks[1..], broken, buffer + chunks[0], false)
    else if broken then [Failure(TransportFailed)]
    else if buffer == [] then []
    else [Failure(IncompleteFrame)]
  }

  /** The decoder's state; `Next` is one poll of the stream. */
  class ConnectDecoder<!E> {
    const codec: Codec<E>
    var chunks: seq<Bytes>
    var broken: bool
    var buffer: Bytes
    var done: bool

    // What is still to be polled.
    function Left(): seq<Item<E>>
      reads this
    {
      Items(codec, chunks, broken, buffer, done)
    }

    constructor (codec: Codec<E>, chunks: seq<Bytes>, broken: bool)
      ensures this.codec == codec && Left() == Items(codec, chunks, broken, [], false)
    {
      this.codec, this.chunks, this.broken := codec, chunks, broken;
      buffer, done := [], false;
    }

    method Next() returns (item: Option<Item<E>>)
      modifies this
      ensures match item
        case None => old(Left()) == []
        case Some(next) => old(Left()) == [next] + Left()
    {
      while true
        invariant Left() == old(Left())
        decreases |chunks|, |buffer|
      {
        if FrameSize(buffer).Some? {
          var frame := FirstFrame(buffer);
          buffer := buffer[FrameSize(buffer).value..];
          if Compressed(frame) {
            return Some(Failure(CompressedFrame));
          }
          if EndsStream(frame) {
            done := true;
            var error := codec.endError(frame.payload);
            if error.Some? {
              return Some(Failure(error.value));
            }
            continue;
          }
          return Some(codec.parseEvent(frame.payload));
        }
        if done {
          return None;
        }
        if chunks != [] {
          buffer, chunks := buffer + chunks[0], chunks[1..];
        } else if broken {
          done := true;
          return Some(Failure(TransportFailed));
        } else if buffer == [] {
          return None;
        } else {
          done := true;
          return Some(Failure(IncompleteFrame));
        }
      }
    }
  }

  // ---------- chunk independence and round trip ----------

  function Concat(chunks: seq<Bytes>): Bytes {
    if chunks == [] then [] else chunks[0] + Concat(chunks[1..])
  }

  // How a stream without an end-of-stream message ends.
  function Ending<E>(broken: bool, remainder: Bytes): seq<Item<E>> {
    if broken then [Failure(TransportFailed)]
    else if remainder == [] then []
    else [Failure(IncompleteFrame)]
  }

  predicate NoEnd(frames: seq<Frame>) {
    forall frame | frame in frames :: !EndsStream(frame)
  }

  // After the end-of-stream message only what was already buffered is decoded.
  lemma {:induction false} DoneDrainsBuffer<E>(codec: Codec<E>, chunks: seq<Bytes>, broken: bool, buffer: Bytes)
    ensures Items(codec, chunks, broken, buffer, true) == YieldAll(codec, Frames(buffer))
    decreases |buffer|
  {
    if FrameSize(buffer).Some? {
      DoneDrainsBuffer(codec, chunks, broken, buffer[FrameSize(buffer).value..]);
    }
  }

  /** However a byte stream is cut into chunks, its frames decode to the same items,
      followed by exactly one error if the transport failed or the last frame is
      incomplete. */
  lemma {:induction false} DecodingIsOneShot<E>(codec: Codec<E>, chunks: seq<Bytes>, broken: bool, buffer: Bytes)
    requires NoEnd(Frames(buffer + Concat(chunks)))
    ensures Items(codec, chunks, broken, buffer, false)
         == YieldAll(codec, Frames(buffer + Concat(chunks))) + Ending(broken, Remainder(buffer + Concat(chunks)))
    decreases |chunks|, |buffer|
  {
    var whole := buffer + Concat(chunks);
    if FrameSize(buffer).Some? {
      var rest := buffer[FrameSize(buffer).value..];
      FirstFrameIsStable(buffer, Concat(chunks));
      assert whole[FrameSize(buffer).value..] == rest + Concat(chunks);
      assert Frames(whole) == [FirstFrame(buffer)] + Frames(rest + Concat(chunks));
      assert forall frame | frame in Frames(rest + Concat(chunks)) :: frame in Frames(whole);
      assert FirstFrame(buffer) in Frames(whole);
      DecodingIsOneShot(codec, chunks, broken, rest);
    } else if chunks != [] {
      assert whole == (buffer + chunks[0]) + Concat(chunks[1..]);
      DecodingIsOneShot(codec, chunks[1..], broken, buffer + chunks[0]);
    } else {
      assert whole == buffer;
    }
  }

  // The frames up to and including the first end-of-stream message.
  function ThroughEnd(frames: seq<Frame>): nat
    requires !NoEnd(frames)
    ensures 0 < ThroughEnd(frames) <= |frames|
  {
    if EndsStream(frames[0]) then 1 else 1 + ThroughEnd(frames[1..])
  }

  // The end-of-stream message is next: what is buffered after it is all that follows.
  lemma StopsHere<E>(codec: Codec<E>, chunks: seq<Bytes>, broken: bool, buffer: Bytes)
    requires FrameSize(buffer).Some? && EndsStream(FirstFrame(buffer))
    ensures
      var rest := buffer[FrameSize(buffer).value..];
      var frames := [FirstFrame(buffer)] + Frames(rest + Concat(chunks));
      && |Frames(rest)| < |frames|
      && Items(codec, chunks, broken, buffer, false) == YieldAll(codec, frames[..1 + |Frames(rest)|])
  {
    var rest := buffer[FrameSize(buffer).value..];
    var frames := [FirstFrame(buffer)] + Frames(rest + Concat(chunks));
    DoneDrainsBuffer(codec, chunks, broken, rest);
    FramesAppend(rest, Concat(chunks));
    assert frames[..1 + |Frames(rest)|] == [FirstFrame(buffer)] + Frames(rest);
  }

  /** With an end-of-stream message, decoding goes at least through that message and
      then stops, incomplete tail or not; frames sent after it are decoded only as
      far as they happened to be buffered with it. */
  lemma {:induction false} DecodingStopsAtEnd<E>(codec: Codec<E>, chunks: seq<Bytes>, broken: bool, buffer: Bytes)
    returns (count: nat)
    requires !NoEnd(Frames(buffer + Concat(chunks)))
    ensures
      var frames := Frames(buffer + Concat(chunks));
      && ThroughEnd(frames) <= count <= |frames|
      && Items(codec, chunks, broken, buffer, false) == YieldAll(codec, frames[..count])
    decreases |chunks|, |buffer|
  {
    var whole := buffer + Concat(chunks);
    var frames := Frames(whole);
    assert chunks == [] ==> whole == buffer;
    if FrameSize(buffer).Some? {
      var frame := FirstFrame(buffer);
      var rest := buffer[FrameSize(buffer).value..];
      FirstFrameIsStable(buffer, Concat(chunks));
      assert whole[FrameSize(buffer).value..] == rest + Concat(chunks);
      assert frames == [frame] + Frames(rest + Concat(chunks));
      if EndsStream(frame) {
        count := 1 + |Frames(rest)|;
        StopsHere(codec, chunks, broken, buffer);
      } else {
        var further := DecodingStopsAtEnd(codec, chunks, broken, rest);
        count := 1 + further;
        assert frames[..count] == [frame] + Frames(rest + Concat(chunks))[..further];
      }
    } else if chunks != [] {
      assert whole == (buffer + chunks[0]) + Concat(chunks[1..]);
      count := DecodingStopsAtEnd(codec, chunks[1..], broken, buffer + chunks[0]);
    } else {
      assert false;
    }
  }

  // All payloads can be enveloped.
  predicate AllFit(payloads: seq<Bytes>) {
    payloads == [] || (Envelope(payloads[0]).Some? && AllFit(payloads[1..]))
  }

  function EnvelopeAll(payloads: seq<Bytes>): Bytes
    requires AllFit(payloads)
  {
    if payloads == [] then []
    else Envelope(payloads[0]).value + EnvelopeAll(payloads[1..])
  }

  lemma EnvelopeIsAFrame(payload: Bytes, more: Bytes)
    requires Envelope(payload).Some?
    ensures
      var bytes := Envelope(payload).value + more;
      && FrameSize(bytes) == Some(|Envelope(payload).value|)
      && FirstFrame(bytes) == Frame(0, payload)
  {
    var bytes := Envelope(payload).value + more;
    BigEndianInverse(|payload|);
    assert bytes[1..HEADER] == BigEndian(|payload|);
    assert bytes[HEADER..HEADER + |payload|] == payload;
  }

  function Messages(payloads: seq<Bytes>): seq<Frame> {
    seq(|payloads|, i requires 0 <= i < |payloads| => Frame(0, payloads[i]))
  }

  lemma {:induction false} FramesOfEnvelopes(payloads: seq<Bytes>)
    requires AllFit(payloads)
    ensures Frames(EnvelopeAll(payloads)) == Messages(payloads) && Remainder(EnvelopeAll(payloads)) == []
    decreases |payloads|
  {
    if payloads != [] {
      var more := EnvelopeAll(payloads[1..]);
      EnvelopeIsAFrame(payloads[0], more);
      FramesOfEnvelopes(payloads[1..]);
      var bytes := EnvelopeAll(payloads);
      assert bytes[FrameSize(bytes).value..] == more;
    }
  }

  lemma {:induction false} YieldMessages<E>(codec: Codec<E>, payloads: seq<Bytes>)
    ensures |YieldAll(codec, Messages(payloads))| == |payloads|
    ensures forall i | 0 <= i < |payloads| ::
      YieldAll(codec, Messages(payloads))[i] == codec.parseEvent(payloads[i])
    decreases |payloads|
  {
    if payloads != [] {
      YieldMessages(codec, payloads[1..]);
      assert Messages(payloads)[1..] == Messages(payloads[1..]);
    }
  }

  // Enveloped payloads and an incomplete tail split into just those.
  lemma EnvelopesSplit(payloads: seq<Bytes>, tail: Bytes)
    requires AllFit(payloads)
    requires FrameSize(tail).None?
    ensures Frames(EnvelopeAll(payloads) + tail) == Messages(payloads)
    ensures Remainder(EnvelopeAll(payloads) + tail) == tail
  {
    FramesOfEnvelopes(payloads);
    FramesAppend(EnvelopeAll(payloads), tail);
    assert [] + tail == tail;
    assert Frames(tail) == [];
  }

  // What the items of an enveloped list of payloads are.
  ghost predicate DecodesTo<E>(codec: Codec<E>, items: seq<Item<E>>, payloads: seq<Bytes>, complete: bool) {
    && |items| == |payloads| + (if complete then 0 else 1)
    && (forall i | 0 <= i < |payloads| :: items[i] == codec.parseEvent(payloads[i]))
    && (!complete ==> items[|payloads|] == Failure(IncompleteFrame))
  }

  lemma ItemsOfMessages<E>(codec: Codec<E>, payloads: seq<Bytes>, tail: Bytes)
    ensures DecodesTo(codec, YieldAll(codec, Messages(payloads)) + Ending(false, tail), payloads, tail == [])
  {
    YieldMessages(codec, payloads);
  }

  /** Round trip: any list of payloads, enveloped, concatenated and cut into chunks
      anywhere, decodes to that list; a cut-off tail adds exactly one error. */
  lemma RoundTrip<E>(codec: Codec<E>, payloads: seq<Bytes>, tail: Bytes, chunks: seq<Bytes>)
    requires AllFit(payloads)
    requires FrameSize(tail).None?
    requires Concat(chunks) == EnvelopeAll(payloads) + tail
    ensures DecodesTo(codec, Items(codec, chunks, false, [], false), payloads, tail == [])
  {
    EnvelopesSplit(payloads, tail);
    ChunksOfMessages(codec, payloads, tail, chunks);
  }

  lemma ChunksOfMessages<E>(codec: Codec<E>, payloads: seq<Bytes>, tail: Bytes, chunks: seq<Bytes>)
    requires Frames(Concat(chunks)) == Messages(payloads) && Remainder(Concat(chunks)) == tail
    ensures DecodesTo(codec, Items(codec, chunks, false, [], false), payloads, tail == [])
  {
    assert [] + Concat(chunks) == Concat(chunks);
    DecodingIsOneShot(codec, chunks, false, []);
    ItemsOfMessages(codec, payloads, tail);
  }

  // ---------- collecting a process ----------

  datatype ProcessEvent =
    | Started(pid: nat)
    | Output(stderr: bool, data: Bytes)
    | Exited(exitCode: int, error: Option<Bytes>)
    | KeepAlive

  datatype RunError = StreamFailed(error: StreamError) | InputFailed | OutputTooLarge | NoProcess | NoExit

  datatype ProcessOutput = ProcessOutput(pid: nat, stdout: Bytes, stderr: Bytes, exitCode: int)

  function AppendBounded(target: Bytes, bytes: Bytes): Option<Bytes> {
    if |target| + |bytes| > MAX_PROCESS_OUTPUT_BYTES then None else Some(target + bytes)
  }

  /** run_process on the decoded stream; `inputFails` says of each item whether, if it
      reports a start, sending or closing the standard input fails then. */
  method RunProcess(items: seq<Item<ProcessEvent>>, inputFails: nat -> bool)
    returns (result: Result<ProcessOutput, RunError>)
    ensures result == Collect(items, 0, inputFails, None, [], [])
  {
    var pid: Option<nat> := None;
    var stdout: Bytes, stderr: Bytes := [], [];
    for i := 0 to |items|
      invariant Collect(items, 0, inputFails, None, [], [])
             == Collect(items[i..], i, inputFails, pid, stdout, stderr)
    {
      assert items[i..][1..] == items[i + 1..];
      if items[i].Failure? {
        return Failure(StreamFailed(items[i].error));
      }
      match items[i].value
      case Started(value) =>
        pid := Some(value);
        if inputFails(i) {
          return Failure(InputFailed);
        }
      case Output(toStderr, data) =>
        var appended := AppendBounded(if toStderr then stderr else stdout, data);
        if appended.None? {
          return Failure(OutputTooLarge);
        }
        if toStderr {
          stderr := appended.value;
        } else {
          stdout := appended.value;
        }
      case Exited(exitCode, error) =>
        var appended := AppendBounded(stderr, if error.Some? then error.value else []);
        if error.Some? && error.value != [] && appended.None? {
          return Failure(OutputTooLarge);
        }
        if error.Some? && error.value != [] {
          stderr := appended.value;
        }
        return if pid.None? then Failure(NoProcess)
               else Success(ProcessOutput(pid.value, stdout, stderr, exitCode));
      case KeepAlive =>
    }
    return Failure(if pid.None? then NoProcess else NoExit);
  }

  // The same, as a recursion over the items that remain, of which `at` is the first.
  function Collect(
    items: seq<Item<ProcessEvent>>, at: nat, inputFails: nat -> bool, pid: Option<nat>, stdout: Bytes, stderr: Bytes)
    : Result<ProcessOutput, RunError>
    decreases |items|
  {
    if items == [] then Failure(if pid.None? then NoProcess else NoExit)
    else if items[0].Failure? then Failure(StreamFailed(items[0].error))
    else
      match items[0].value
      case Started(value) =>
        if inputFails(at) then Failure(InputFailed)
        else Collect(items[1..], at + 1, inputFails, Some(value), stdout, stderr)
      case Output(toStderr, data) =>
        (match AppendBounded(if toStderr then stderr else stdout, data)
         case None => Failure(OutputTooLarge)
         case Some(appended) =>
           if toStderr then Collect(items[1..], at + 1, inputFails, pid, stdout, appended)
           else Collect(items[1..], at + 1, inputFails, pid, appended, stderr))
      case Exited(exitCode, error) =>
        if error.Some? && error.value != [] then
          match AppendBounded(stderr, error.value)
          case None => Failure(OutputTooLarge)
          case Some(appended) =>
            if pid.None? then Failure(NoProcess) else Success(ProcessOutput(pid.value, stdout, appended, exitCode))
        else if pid.None? then Failure(NoProcess)
        else Success(ProcessOutput(pid.value, stdout, stderr, exitCode))
      case KeepAlive => Collect(items[1..], at + 1, inputFails, pid, stdout, stderr)
  }

  // What a list of events wrote to one of the two streams.
  function Written(events: seq<ProcessEvent>, toStderr: bool): Bytes {
    if events == [] then []
    else
      (if events[0].Output? && events[0].stderr == toStderr then events[0].data else [])
      + Written(events[1..], toStderr)
  }

  // The process ID reported last.
  function LastPid(events: seq<ProcessEvent>, before: Option<nat>): Option<nat> {
    if events == [] then before
    else LastPid(events[1..], if events[0].Started? then Some(events[0].pid) else before)
  }

  function Successes(events: seq<ProcessEvent>): seq<Item<ProcessEvent>> {
    seq(|events|, i requires 0 <= i < |events| => Success(events[i]))
  }

  // The result due for some events and the exit after them: the last process ID,
  // the exit code and the concatenation of what each stream got, unless no process
  // was reported or an output is too large.
  function Expected(
    events: seq<ProcessEvent>, exitCode: int, error: Option<Bytes>, pid: Option<nat>, stdout: Bytes, stderr: Bytes)
    : Result<ProcessOutput, RunError>
  {
    var allOut := stdout + Written(events, false);
    var allErr := stderr + Written(events, true) + if error.Some? then error.value else [];
    if |allOut| > MAX_PROCESS_OUTPUT_BYTES || |allErr| > MAX_PROCESS_OUTPUT_BYTES then Failure(OutputTooLarge)
    else if LastPid(events, pid).None? then Failure(NoProcess)
    else Success(ProcessOutput(LastPid(events, pid).value, allOut, allErr, exitCode))
  }

  lemma ExpectedStep(
    events: seq<ProcessEvent>, exitCode: int, error: Option<Bytes>, pid: Option<nat>, stdout: Bytes, stderr: Bytes)
    requires events != []
    ensures
      var first := events[0];
      var out := if first.Output? && !first.stderr then stdout + first.data else stdout;
      var err := if first.Output? && first.stderr then stderr + first.data else stderr;
      Expected(events, exitCode, error, pid, stdout, stderr) ==
        if |out| > MAX_PROCESS_OUTPUT_BYTES || |err| > MAX_PROCESS_OUTPUT_BYTES then Failure(OutputTooLarge)
        else Expected(events[1..], exitCode, error, if first.Started? then Some(first.pid) else pid, out, err)
  {
    var first := events[0];
    var out := if first.Output? && !first.stderr then stdout + first.data else stdout;
    var err := if first.Output? && first.stderr then stderr + first.data else stderr;
    assert stdout + Written(events, false) == out + Written(events[1..], false);
    assert stderr + Written(events, true) == err + Written(events[1..], true);
  }

  /** run_process gives the result due at the exit, whatever comes after it. */
  lemma {:induction false} RunCollects(
    events: seq<ProcessEvent>, exitCode: int, error: Option<Bytes>, after: seq<Item<ProcessEvent>>,
    at: nat, inputFails: nat -> bool, pid: Option<nat>, stdout: Bytes, stderr: Bytes)
    requires forall event | event in events :: !event.Exited?
    requires forall k | 0 <= k < |events| :: events[k].Started? ==> !inputFails(at + k)
    requires |stdout| <= MAX_PROCESS_OUTPUT_BYTES && |stderr| <= MAX_PROCESS_OUTPUT_BYTES
    ensures Collect(Successes(events) + [Success(Exited(exitCode, error))] + after, at, inputFails, pid, stdout, stderr)
         == Expected(events, exitCode, error, pid, stdout, stderr)
    decreases |events|
  {
    var items := Successes(events) + [Success(Exited(exitCode, error))] + after;
    if events == [] {
      assert items[0] == Success(Exited(exitCode, error));
      assert stdout + [] == stdout && stderr + [] == stderr;
    } else {
      var first := events[0];
      assert items[0] == Success(first);
      assert items[1..] == Successes(events[1..]) + [Success(Exited(exitCode, error))] + after;
      var out := if first.Output? && !first.stderr then stdout + first.data else stdout;
      var err := if first.Output? && first.stderr then stderr + first.data else stderr;
      ExpectedStep(events, exitCode, error, pid, stdout, stderr);
      if |out| <= MAX_PROCESS_OUTPUT_BYTES && |err| <= MAX_PROCESS_OUTPUT_BYTES {
        forall k | 0 <= k < |events[1..]| && events[1..][k].Started?
          ensures !inputFails(at + 1 + k)
        {
          assert events[k + 1] == events[1..][k];
        }
        RunCollects(events[1..], exitCode, error, after, at + 1, inputFails,
                    if first.Started? then Some(first.pid) else pid, out, err);
      }
    }
  }

  /** Whatever follows some enveloped payloads on the wire, whatever the chunks and
      however the transport ends: decoding begins with those payloads. */
  lemma {:induction false} ItemsBegin<E>(
    codec: Codec<E>, payloads: seq<Bytes>, more: Bytes, chunks: seq<Bytes>, broken: bool, buffer: Bytes)
    requires AllFit(payloads) && buffer + Concat(chunks) == EnvelopeAll(payloads) + more
    ensures
      var items := Items(codec, chunks, broken, buffer, false);
      && |payloads| <= |items|
      && forall i | 0 <= i < |payloads| :: items[i] == codec.parseEvent(payloads[i])
    decreases |chunks|, |buffer|
  {
    if payloads != [] {
      var envelope := Envelope(payloads[0]).value;
      var rest := EnvelopeAll(payloads[1..]) + more;
      assert EnvelopeAll(payloads) + more == envelope + rest;
      if FrameSize(buffer).Some? {
        FirstPayload(payloads[0], rest, chunks, buffer);
        ItemsBegin(codec, payloads[1..], more, chunks, broken, buffer[FrameSize(buffer).value..]);
      } else {
        EnvelopeIsAFrame(payloads[0], rest);
        assert chunks == [] ==> buffer + Concat(chunks) == buffer;
        assert buffer + Concat(chunks) == (buffer + chunks[0]) + Concat(chunks[1..]);
        ItemsBegin(codec, payloads, more, chunks[1..], broken, buffer + chunks[0]);
      }
    }
  }

  // A frame that is all there is that of the envelope it begins with.
  lemma FirstPayload(payload: Bytes, rest: Bytes, chunks: seq<Bytes>, buffer: Bytes)
    requires Envelope(payload).Some? && FrameSize(buffer).Some?
    requires buffer + Concat(chunks) == Envelope(payload).value + rest
    ensures FirstFrame(buffer) == Frame(0, payload)
    ensures buffer[FrameSize(buffer).value..] + Concat(chunks) == rest
  {
    var envelope := Envelope(payload).value;
    EnvelopeIsAFrame(payload, rest);
    FirstFrameIsStable(buffer, Concat(chunks));
    assert (buffer + Concat(chunks))[|envelope|..] == buffer[|envelope|..] + Concat(chunks);
    assert (envelope + rest)[|envelope|..] == rest;
  }

  /** From the wire to the result: `payloads` are the messages through the exit. What
      follows it (an end-of-stream message, further frames, half a frame), how the
      stream is cut, and whether the transport then fails do not matter: the
      process's output is what its events wrote up to the exit. */
  lemma ProcessIsCollected(
    codec: Codec<ProcessEvent>, payloads: seq<Bytes>, more: Bytes, chunks: seq<Bytes>, broken: bool,
    events: seq<ProcessEvent>, exitCode: int, error: Option<Bytes>, inputFails: nat -> bool)
    requires AllFit(payloads) && Concat(chunks) == EnvelopeAll(payloads) + more
    requires |payloads| == |events| + 1 && forall event | event in events :: !event.Exited?
    requires forall i | 0 <= i < |events| :: codec.parseEvent(payloads[i]) == Success(events[i])
    requires codec.parseEvent(payloads[|events|]) == Success(Exited(exitCode, error))
    requires forall k | 0 <= k < |events| :: events[k].Started? ==> !inputFails(k)
    ensures
      var allOut := Written(events, false);
      var allErr := Written(events, true) + if error.Some? then error.value else [];
      Collect(Items(codec, chunks, broken, [], false), 0, inputFails, None, [], []) ==
        if |allOut| > MAX_PROCESS_OUTPUT_BYTES || |allErr| > MAX_PROCESS_OUTPUT_BYTES then Failure(OutputTooLarge)
        else if LastPid(events, None).None? then Failure(NoProcess)
        else Success(ProcessOutput(LastPid(events, None).value, allOut, allErr, exitCode))
  {
    var items := Items(codec, chunks, broken, [], false);
    var n := |events|;
    assert [] + Concat(chunks) == Concat(chunks);
    ItemsBegin(codec, payloads, more, chunks, broken, []);
    assert items == Successes(events) + [Success(Exited(exitCode, error))] + items[n + 1..];
    RunCollects(events, exitCode, error, items[n + 1..], 0, inputFails, None, [], []);
    assert [] + Written(events, false) == Written(events, false);
    assert [] + Written(events, true) == Written(events, true);
  }

  // Events that do not end the run lead to what is left of the stream.
  lemma {:induction false} CollectThrough(
    events: seq<ProcessEvent>, tail: seq<Item<ProcessEvent>>, at: nat, inputFails: nat -> bool,
    pid: Option<nat>, stdout: Bytes, stderr: Bytes)
    requires forall event | event in events :: !event.Exited?
    requires forall k | 0 <= k < |events| :: events[k].Started? ==> !inputFails(at + k)
    requires |stdout + Written(events, false)| <= MAX_PROCESS_OUTPUT_BYTES
    requires |stderr + Written(events, true)| <= MAX_PROCESS_OUTPUT_BYTES
    ensures Collect(Successes(events) + tail, at, inputFails, pid, stdout, stderr)
         == Collect(tail, at + |events|, inputFails, LastPid(events, pid),
                    stdout + Written(events, false), stderr + Written(events, true))
    decreases |events|
  {
    if events == [] {
      assert Successes(events) + tail == tail;
      assert stdout + [] == stdout && stderr + [] == stderr;
    } else {
      var first := events[0];
      var items := Successes(events) + tail;
      assert items[0] == Success(first) && items[1..] == Successes(events[1..]) + tail;
      var out := if first.Output? && !first.stderr then stdout + first.data else stdout;
      var err := if first.Output? && first.stderr then stderr + first.data else stderr;
      assert stdout + Written(events, false) == out + Written(events[1..], false);
      assert stderr + Written(events, true) == err + Written(events[1..], true);
      forall k | 0 <= k < |events[1..]| && events[1..][k].Started?
        ensures !inputFails(at + 1 + k)
      {
        assert events[k + 1] == events[1..][k];
      }
      CollectThrough(events[1..], tail, at + 1, inputFails, if first.Started? then Some(first.pid) else pid, out, err);
    }
  }

  /** Without an exit the run fails: with the stream's first error, with the failure
      to send the input to a process that is reported to have started, or at the
      stream's end, as a run without a process or without an exit. */
  lemma RunFails(
    events: seq<ProcessEvent>, tail: seq<Item<ProcessEvent>>, inputFails: nat -> bool)
    requires forall event | event in events :: !event.Exited?
    requires forall k | 0 <= k < |events| :: events[k].Started? ==> !inputFails(k)
    requires |Written(events, false)| <= MAX_PROCESS_OUTPUT_BYTES
    requires |Written(events, true)| <= MAX_PROCESS_OUTPUT_BYTES
    ensures
      var result := Collect(Successes(events) + tail, 0, inputFails, None, [], []);
      && (tail == [] ==>
            result == Failure(if exists event :: event in events && event.Started? then NoExit else NoProcess))
      && (tail != [] && tail[0].Failure? ==> result == Failure(StreamFailed(tail[0].error)))
      && (tail != [] && tail[0].Success? && tail[0].value.Started? && inputFails(|events|) ==>
            result == Failure(InputFailed))
  {
    assert [] + Written(events, false) == Written(events, false);
    assert [] + Written(events, true) == Written(events, true);
    CollectThrough(events, tail, 0, inputFails, None, [], []);
    LastPidIsReported(events, None);
  }

  lemma {:induction false} LastPidIsReported(events: seq<ProcessEvent>, before: Option<nat>)
    ensures LastPid(events, before).Some? <==>
      before.Some? || exists event :: event in events && event.Started?
  {
    if events != [] {
      LastPidIsReported(events[1..], if events[0].Started? then Some(events[0].pid) else before);
      assert events[0] in events;
      assert forall event :: event in events <==> event == events[0] || event in events[1..];
    }
  }

  // ---------- the bytes on the wire ----------

  // A frame as any server may send it.
  function Sent(flags: nat, payload: Bytes): Bytes
    requires flags < 256 && |payload| < 0x1_0000_0000
  {
    [ByteOf(flags)] + BigEndian(|payload|) + payload
  }

  /** The four bytes of a length, most significant first. */
  lemma LengthBytes(a: nat, b: nat, c: nat, d: nat)
    requires a < 256 && b < 256 && c < 256 && d < 256
    ensures BigEndian(a * 0x100_0000 + b * 0x1_0000 + c * 0x100 + d) == [ByteOf(a), ByteOf(b), ByteOf(c), ByteOf(d)]
  {
    LowByte(a, b);
    LowByte(a * 0x100 + b, c);
    LowByte(a * 0x1_0000 + b * 0x100 + c, d);
  }

  lemma LowByte(rest: nat, byte: nat)
    requires byte < 256
    ensures (rest * 0x100 + byte) / 0x100 == rest && (rest * 0x100 + byte) % 0x100 == byte
  {}

  /** The flag byte of a frame on the wire decides what becomes of it and of what
      follows: its lowest bit marks compression, which is an error; without that, the
      next bit ends the stream, and nothing sent later is decoded; and all other bits
      mean nothing. */
  lemma FlagsDecide<E>(codec: Codec<E>, flags: nat, payload: Bytes, chunks: seq<Bytes>, broken: bool)
    requires flags < 256 && |payload| < 0x1_0000_0000
    ensures
      Items(codec, [Sent(flags, payload)] + chunks, broken, [], false)
      == match flags % 4
         case 0 => [codec.parseEvent(payload)] + Items(codec, chunks, broken, [], false)
         case 2 => if codec.endError(payload).Some? then [Failure(codec.endError(payload).value)] else []
         case _ => [Failure(CompressedFrame)] + Items(codec, chunks, broken, [], false)
  {
    var bytes := Sent(flags, payload);
    var all := [bytes] + chunks;
    SentIsAFrame(flags, payload);
    assert all[1..] == chunks && [] + all[0] == bytes;
    assert Items(codec, all, broken, [], false) == Items(codec, chunks, broken, bytes, false);
    var frame := FirstFrame(bytes);
    assert bytes[FrameSize(bytes).value..] == [];
    assert Items(codec, chunks, broken, bytes, false)
        == Yield(codec, frame) + Items(codec, chunks, broken, [], EndsStream(frame));
    FlagBits(flags);
    if EndsStream(frame) {
      DoneDrainsBuffer(codec, chunks, broken, []);
    }
  }

  lemma FlagBits(flags: nat)
    ensures flags % 2 == 1 <==> flags % 4 == 1 || flags % 4 == 3
    ensures flags % 2 == 0 ==> (flags / 2 % 2 == 1 <==> flags % 4 == 2)
  {
    var (quads, rest) := (flags / 4, flags % 4);
    assert flags == 4 * quads + rest;
    if rest < 2 {
      assert flags / 2 == 2 * quads;
    } else {
      assert flags / 2 == 2 * quads + 1;
    }
  }

  lemma SentIsAFrame(flags: nat, payload: Bytes)
    requires flags < 256 && |payload| < 0x1_0000_0000
    ensures FrameSize(Sent(flags, payload)) == Some(HEADER + |payload|)
    ensures FirstFrame(Sent(flags, payload)) == Frame(flags, payload)
  {
    var bytes := Sent(flags, payload);
    BigEndianInverse(|payload|);
    assert bytes[1..HEADER] == BigEndian(|payload|);
    assert bytes[HEADER..HEADER + |payload|] == payload;
  }
}
