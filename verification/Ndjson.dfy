/**
 The newline-delimited JSON codec between the supervisor and its clients: frames are
 read from whatever a buffered reader has available, and written as one line each.
 */
module Ndjson {
  import opened Wrappers

  type Bytes = string // one char per byte

  const LF := '\n'
  const CR := '\r'

  // What one read returns; a frame that is no valid request is an error too.
  datatype ReadResult = Frame(bytes: Bytes) | End | EmptyFrame | FrameTooLarge | Malformed

  // The frames that parse.
  type Parser = Bytes -> bool

  // ---------- one-shot specification ----------

  predicate NoLf(bytes: Bytes) {
    forall k | 0 <= k < |bytes| :: bytes[k] != LF
  }

  // The position of the first newline, or the length.
  function LineEnd(bytes: Bytes): (n: nat)
    ensures n <= |bytes|
  {
    if bytes == [] || bytes[0] == LF then 0 else 1 + LineEnd(bytes[1..])
  }

  lemma {:induction false} LineEndIsFirst(bytes: Bytes)
    ensures forall k | 0 <= k < LineEnd(bytes) :: bytes[k] != LF
    ensures LineEnd(bytes) < |bytes| ==> bytes[LineEnd(bytes)] == LF
  {
    if bytes != [] && bytes[0] != LF {
      var rest := bytes[1..];
      LineEndIsFirst(rest);
      forall k | 0 <= k < LineEnd(bytes)
        ensures bytes[k] != LF
      {
        if k > 0 {
          assert rest[k - 1] == bytes[k];
        }
      }
    }
  }

  function FirstLine(bytes: Bytes): Bytes { bytes[..LineEnd(bytes)] }

  function AfterLine(bytes: Bytes): Bytes {
    if LineEnd(bytes) < |bytes| then bytes[LineEnd(bytes) + 1..] else []
  }

  function StripCr(line: Bytes): Bytes {
    if line != [] && line[|line| - 1] == CR then line[..|line| - 1] else line
  }

  // What a raw line, without its newline, is read as.
  function Judge(line: Bytes, max: nat): ReadResult {
    if |line| > max then FrameTooLarge
    else if StripCr(line) == [] then EmptyFrame
    else Frame(StripCr(line))
  }

  function FirstResult(bytes: Bytes, max: nat): ReadResult {
    if bytes == [] then End else Judge(FirstLine(bytes), max)
  }

  // The lines of a stream; the last one may lack its newline.
  function Lines(bytes: Bytes): seq<Bytes>
    decreases |bytes|
  {
    if bytes == [] then [] else [FirstLine(bytes)] + Lines(AfterLine(bytes))
  }

  // read_json: the frame is parsed.
  function Parse(result: ReadResult, valid: Parser): ReadResult {
    if result.Frame? && !valid(result.bytes) then Malformed else result
  }

  // Repeated reading: the frames, and how reading ends.
  function Session(bytes: Bytes, max: nat, valid: Parser): (seq<Bytes>, ReadResult)
    decreases |bytes|
  {
    match Parse(FirstResult(bytes, max), valid)
    case Frame(frame) =>
      var rest := Session(AfterLine(bytes), max, valid);
      ([frame] + rest.0, rest.1)
    case other => ([], other)
  }

  function Terminate(lines: seq<Bytes>): Bytes {
    if lines == [] then [] else lines[0] + [LF] + Terminate(lines[1..])
  }

  // All of the stream, with its last newline.
  function Terminated(bytes: Bytes): Bytes {
    if bytes == [] || bytes[|bytes| - 1] == LF then bytes else bytes + [LF]
  }

  lemma TerminatedFirst(bytes: Bytes)
    requires bytes != []
    ensures NoLf(FirstLine(bytes))
    ensures Terminated(bytes) == FirstLine(bytes) + [LF] + Terminated(AfterLine(bytes))
  {
    LineEndIsFirst(bytes);
    var n := LineEnd(bytes);
    if n < |bytes| {
      var (line, rest) := (bytes[..n], bytes[n + 1..]);
      assert bytes == line + [LF] + rest;
      if rest != [] {
        assert rest[|rest| - 1] == bytes[|bytes| - 1];
        assert line + [LF] + rest + [LF] == line + [LF] + (rest + [LF]);
      }
    } else {
      assert bytes[..n] == bytes;
      assert bytes[n - 1] != LF;
      assert bytes + [LF] + [] == bytes + [LF];
    }
  }

  /** The lines are the split at newlines: none contains one, and putting the
      newlines back gives the stream, but for a missing last newline. */
  lemma {:induction false} LinesAreTheSplit(bytes: Bytes)
    ensures forall line | line in Lines(bytes) :: NoLf(line)
    ensures Terminate(Lines(bytes)) == Terminated(bytes)
    decreases |bytes|
  {
    if bytes != [] {
      LinesAreTheSplit(AfterLine(bytes));
      TerminatedFirst(bytes);
      assert Lines(bytes)[1..] == Lines(AfterLine(bytes));
    }
  }

  // A session over some lines serves them in order, stripped, up to the first that
  // is blank, over the limit or no valid request; without one it ends with the
  // stream.
  predicate Serves(session: (seq<Bytes>, ReadResult), lines: seq<Bytes>, max: nat, valid: Parser) {
    var frames := session.0;
    && |frames| <= |lines|
    && (forall i | 0 <= i < |frames| :: Parse(Judge(lines[i], max), valid) == Frame(frames[i]))
    && (if |frames| == |lines| then session.1 == End
        else session.1 == Parse(Judge(lines[|frames|], max), valid) && !session.1.Frame?)
  }

  /** Reading frame by frame is splitting the stream into lines. */
  lemma {:induction false} SessionServesLines(bytes: Bytes, max: nat, valid: Parser)
    ensures Serves(Session(bytes, max, valid), Lines(bytes), max, valid)
    decreases |bytes|
  {
    if bytes != [] {
      var line := FirstLine(bytes);
      var rest := Session(AfterLine(bytes), max, valid);
      SessionServesLines(AfterLine(bytes), max, valid);
      var judged := Parse(Judge(line, max), valid);
      if judged.Frame? {
        ServesOneMore(line, judged.bytes, rest, Lines(AfterLine(bytes)), max, valid);
      }
    }
  }

  lemma ServesOneMore(
    line: Bytes, frame: Bytes, rest: (seq<Bytes>, ReadResult), lines: seq<Bytes>, max: nat, valid: Parser)
    requires Parse(Judge(line, max), valid) == Frame(frame) && Serves(rest, lines, max, valid)
    ensures Serves(([frame] + rest.0, rest.1), [line] + lines, max, valid)
  {}

  // ---------- reading ----------

  /** A buffered reader over a byte stream that arrives in chunks. */
  class BufferedReader {
    var chunks: seq<Bytes>

    // A reader has a chunk available unless the stream is at its end.
    ghost predicate Valid()
      reads this
    {
      forall i | 0 <= i < |chunks| :: chunks[i] != []
    }

    constructor (chunks: seq<Bytes>)
      requires forall i | 0 <= i < |chunks| :: chunks[i] != []
      ensures Valid() && this.chunks == chunks
    {
      this.chunks := chunks;
    }

    // Everything not yet consumed.
    function Pending(): Bytes
      reads this
    {
      Concat(chunks)
    }

    function FillBuf(): (available: Bytes)
      requires Valid()
      reads this
      ensures available <= Pending() && (available == [] ==> Pending() == [])
    {
      if chunks == [] then [] else chunks[0]
    }

    method Consume(amount: nat)
      requires Valid() && amount <= |FillBuf()|
      modifies this
      ensures Valid() && Pending() == old(Pending()[amount..])
    {
      if chunks != [] {
        ConcatDrops(chunks, amount);
        if amount == |chunks[0]| {
          chunks := chunks[1..];
        } else {
          chunks := [chunks[0][amount..]] + chunks[1..];
        }
      }
    }
  }

  function Concat(chunks: seq<Bytes>): (r: Bytes)
    ensures chunks != [] ==> |r| >= |chunks[0]| && r[..|chunks[0]|] == chunks[0]
  {
    if chunks == [] then [] else chunks[0] + Concat(chunks[1..])
  }

  lemma ConcatDrops(chunks: seq<Bytes>, amount: nat)
    requires chunks != [] && amount <= |chunks[0]|
    ensures Concat(chunks)[amount..] == chunks[0][amount..] + Concat(chunks[1..])
    ensures Concat([chunks[0][amount..]] + chunks[1..]) == chunks[0][amount..] + Concat(chunks[1..])
  {
    assert ([chunks[0][amount..]] + chunks[1..])[1..] == chunks[1..];
  }

  // A first line is what comes before the newline, wherever the bytes were cut.
  lemma {:induction false} LineEndAcross(head: Bytes, more: Bytes)
    requires NoLf(head)
    ensures LineEnd(head + more) == |head| + LineEnd(more)
    decreases |head|
  {
    if head == [] {
      assert head + more == more;
    } else {
      assert (head + more)[1..] == head[1..] + more;
      LineEndAcross(head[1..], more);
    }
  }

  // A line that is all there ...
  lemma LineHere(line: Bytes, rest: Bytes)
    requires NoLf(line)
    ensures
      var bytes := line + ([LF] + rest);
      LineEnd(bytes) == |line| && FirstLine(bytes) == line && AfterLine(bytes) == rest
  {
    LineEndAcross(line, [LF] + rest);
  }

  // ... and one that may go on.
  lemma LineSoFar(line: Bytes, more: Bytes)
    requires NoLf(line)
    ensures |line| <= LineEnd(line + more)
    ensures more == [] ==> FirstLine(line + more) == line && AfterLine(line + more) == []
  {
    LineEndAcross(line, more);
  }

  // What one look at the available bytes tells, with part of the line collected.
  lemma Look(bytes: Bytes, frame: Bytes, available: Bytes, pending: Bytes)
    requires bytes == frame + pending && NoLf(frame)
    requires available <= pending && (available == [] ==> pending == [])
    ensures
      var index := LineEnd(available);
      var longer := frame + available[..index];
      && bytes == longer + pending[index..] && NoLf(longer) && |longer| <= |FirstLine(bytes)|
      && (available == [] ==> FirstLine(bytes) == frame && AfterLine(bytes) == [])
      && (index < |available| ==> FirstLine(bytes) == longer && AfterLine(bytes) == pending[index + 1..])
  {
    var index := LineEnd(available);
    var longer := frame + available[..index];
    LineEndIsFirst(available);
    assert bytes == longer + pending[index..];
    LineSoFar(longer, pending[index..]);
    if available == [] {
      assert longer == frame;
    } else if index < |available| {
      assert pending[index..] == [LF] + pending[index + 1..];
      LineHere(longer, pending[index + 1..]);
    }
  }

  /** read_frame: the first line of the pending bytes, however they are chunked.
      Unless the line is over the limit, exactly that line is consumed; otherwise
      no more than it. */
  method ReadFrame(reader: BufferedReader, max: nat) returns (result: ReadResult)
    requires reader.Valid()
    modifies reader
    ensures reader.Valid()
    ensures result == FirstResult(old(reader.Pending()), max)
    ensures result != FrameTooLarge ==> reader.Pending() == AfterLine(old(reader.Pending()))
    ensures result == FrameTooLarge ==>
      var (bytes, left) := (old(reader.Pending()), reader.Pending());
      |bytes| - |FirstLine(bytes)| <= |left| <= |bytes| && left == bytes[|bytes| - |left|..]
  {
    ghost var bytes := reader.Pending();
    var frame: Bytes := [];
    while true
      invariant reader.Valid()
      invariant bytes == frame + reader.Pending()
      invariant NoLf(frame) && |frame| <= max && |frame| <= |FirstLine(bytes)|
      decreases |reader.Pending()|
    {
      var available := reader.FillBuf();
      Look(bytes, frame, available, reader.Pending());
      if available == [] {
        return if frame == [] then End else Judge(frame, max);
      }
      var index := LineEnd(available);
      if |frame| + index > max {
        return FrameTooLarge;
      }
      frame := frame + available[..index];
      if index < |available| {
        reader.Consume(index + 1);
        return Judge(frame, max);
      }
      reader.Consume(index);
    }
  }

  // Frames served before a session.
  function Served(before: seq<Bytes>, session: (seq<Bytes>, ReadResult)): (seq<Bytes>, ReadResult) {
    (before + session.0, session.1)
  }

  lemma ServedNone(session: (seq<Bytes>, ReadResult))
    ensures Served([], session) == session
  {
    assert [] + session.0 == session.0;
  }

  lemma ServedMore(before: seq<Bytes>, frame: Bytes, rest: (seq<Bytes>, ReadResult))
    ensures Served(before, ([frame] + rest.0, rest.1)) == Served(before + [frame], rest)
  {
    assert before + ([frame] + rest.0) == before + [frame] + rest.0;
  }

  lemma SessionStep(bytes: Bytes, max: nat, valid: Parser, before: seq<Bytes>)
    ensures
      var first := Parse(FirstResult(bytes, max), valid);
      Served(before, Session(bytes, max, valid)) ==
        if first.Frame? then Served(before + [first.bytes], Session(AfterLine(bytes), max, valid)) else (before, first)
  {
    var first := Parse(FirstResult(bytes, max), valid);
    if first.Frame? {
      ServedMore(before, first.bytes, Session(AfterLine(bytes), max, valid));
    } else {
      assert before + [] == before;
    }
  }

  /** handle_connection's reading side: serves frames until the stream ends or a
      read fails. */
  method HandleConnection(reader: BufferedReader, max: nat, valid: Parser)
    returns (served: seq<Bytes>, ending: ReadResult)
    requires reader.Valid()
    modifies reader
    ensures (served, ending) == Session(old(reader.Pending()), max, valid)
  {
    served := [];
    ServedNone(Session(reader.Pending(), max, valid));
    while true
      invariant reader.Valid()
      invariant
        Session(old(reader.Pending()), max, valid) == Served(served, Session(reader.Pending(), max, valid))
      decreases |reader.Pending()|
    {
      SessionStep(reader.Pending(), max, valid, served);
      var frame := ReadFrame(reader, max);
      var request := Parse(frame, valid);
      if !request.Frame? {
        return served, request;
      }
      served := served + [request.bytes];
    }
  }

  // ---------- writing ----------

  /** The bytes written to a stream so far. */
  class Writer {
    var written: Bytes

    constructor ()
      ensures written == []
    {
      written := [];
    }

    /** write_json of an encoded value. */
    method WriteFrame(frame: Bytes, max: nat) returns (ok: bool)
      modifies this
      ensures ok <==> |frame| <= max
      ensures written == if ok then old(written) + Terminate([frame]) else old(written)
    {
      if |frame| > max {
        return false;
      }
      written := written + frame;
      written := written + [LF];
      assert Terminate([frame]) == frame + [LF];
      return true;
    }
  }

  // What reads back as itself.
  predicate Clean(frame: Bytes) {
    frame != [] && NoLf(frame) && frame[|frame| - 1] != CR
  }

  /** A written frame is read back identically if and only if it is clean. */
  lemma ReadsBackExactly(frame: Bytes, rest: Bytes, max: nat)
    requires |frame| <= max
    ensures FirstResult(frame + [LF] + rest, max) == Frame(frame) <==> Clean(frame)
    ensures Clean(frame) ==> AfterLine(frame + [LF] + rest) == rest
  {
    var bytes := frame + [LF] + rest;
    if NoLf(frame) {
      assert bytes == frame + ([LF] + rest);
      LineEndAcross(frame, [LF] + rest);
      assert FirstLine(bytes) == frame;
    } else {
      var k :| 0 <= k < |frame| && frame[k] == LF;
      assert bytes[k] == LF;
      LineEndIsFirst(bytes);
      assert |FirstLine(bytes)| < |frame|;
    }
  }

  lemma {:induction false} CleanFramesReadBack(frames: seq<Bytes>, max: nat, valid: Parser)
    requires forall frame | frame in frames :: Clean(frame) && |frame| <= max && valid(frame)
    ensures Session(Terminate(frames), max, valid) == (frames, End)
    decreases |frames|
  {
    if frames != [] {
      var rest := Terminate(frames[1..]);
      assert Session(rest, max, valid) == (frames[1..], End) by {
        CleanFramesReadBack(frames[1..], max, valid);
      }
      ReadsBackExactly(frames[0], rest, max);
      SessionStep(frames[0] + [LF] + rest, max, valid, []);
      ServedNone(Session(frames[0] + [LF] + rest, max, valid));
      assert frames == [frames[0]] + frames[1..];
    }
  }

  // ---------- compact JSON ----------

  datatype Value =
    | Null
    | Bool(value: bool)
    | Number(number: int)
    | Decimal(negative: bool, whole: nat, zeros: nat, fraction: nat, exponent: Option<int>)
    | Text(text: string)
    | Array(items: seq<Value>)
    | Object(fields: seq<Field>)

  datatype Field = Field(name: string, value: Value)

  // A two-character escape where section 7 of RFC 8259 has one, else \u00XX.
  function Escape(c: char): Bytes {
    if c == '"' then ['\\', '"']
    else if c == '\\' then ['\\', '\\']
    else if c == '\n' then ['\\', 'n']
    else if c == '\r' then ['\\', 'r']
    else if c == '\t' then ['\\', 't']
    else if c == 8 as char then ['\\', 'b']
    else if c == 12 as char then ['\\', 'f']
    else if c < ' ' then ['\\', 'u', '0', '0', Hex(c as int / 16), Hex(c as int % 16)]
    else [c]
  }

  function Hex(digit: nat): char
    requires digit < 16
  {
    if digit < 10 then '0' + digit as char else 'a' + (digit - 10) as char
  }

  function Escaped(text: string): Bytes {
    if text == [] then [] else Escape(text[0]) + Escaped(text[1..])
  }

  function Quoted(text: string): Bytes {
    ['"'] + Escaped(text) + ['"']
  }

  function Digits(n: nat): Bytes {
    (if n < 10 then [] else Digits(n / 10)) + ['0' + (n % 10) as char]
  }

  function Integer(n: int): Bytes {
    if n < 0 then ['-'] + Digits(-n) else Digits(n)
  }

  function Zeros(n: nat): Bytes {
    seq(n, _ => '0')
  }

  // to_vec: no white space between tokens.
  function Compact(value: Value): Bytes
    decreases value, 0
  {
    match value
    case Null => ['n', 'u', 'l', 'l']
    case Bool(true) => ['t', 'r', 'u', 'e']
    case Bool(false) => ['f', 'a', 'l', 's', 'e']
    case Number(n) => Integer(n)
    case Decimal(negative, whole, zeros, fraction, exponent) =>
      (if negative then ['-'] else []) + Digits(whole) + ['.'] + Zeros(zeros) + Digits(fraction)
      + (if exponent.Some? then ['e'] + Integer(exponent.value) else [])
    case Text(text) => Quoted(text)
    case Array(items) => ['['] + CompactItems(items) + [']']
    case Object(fields) => ['{'] + CompactFields(fields) + ['}']
  }

  function CompactItems(items: seq<Value>): Bytes
    decreases items, 1
  {
    if items == [] then []
    else Compact(items[0]) + (if |items| == 1 then [] else [','] + CompactItems(items[1..]))
  }

  function CompactFields(fields: seq<Field>): Bytes
    decreases fields, 1
  {
    if fields == [] then []
    else
      Quoted(fields[0].name) + [':'] + Compact(fields[0].value)
      + (if |fields| == 1 then [] else [','] + CompactFields(fields[1..]))
  }

  predicate NoControl(bytes: Bytes) {
    forall c | c in bytes :: c >= ' '
  }

  lemma {:induction false} EscapedHasNoControl(text: string)
    ensures NoControl(Escaped(text))
  {
    if text != [] {
      EscapedHasNoControl(text[1..]);
    }
  }

  lemma {:induction false} DigitsHaveNoControl(n: nat)
    ensures NoControl(Digits(n))
  {
    if n >= 10 {
      DigitsHaveNoControl(n / 10);
    }
  }

  lemma IntegerHasNoControl(n: int)
    ensures NoControl(Integer(n))
  {
    DigitsHaveNoControl(if n < 0 then -n else n);
  }

  lemma Together(first: Bytes, second: Bytes)
    requires NoControl(first) && NoControl(second)
    ensures NoControl(first + second)
  {}

  lemma DecimalHasNoControl(negative: bool, whole: nat, zeros: nat, fraction: nat, exponent: Option<int>)
    ensures NoControl(Compact(Decimal(negative, whole, zeros, fraction, exponent)))
  {
    var sign := if negative then ['-'] else [];
    var power := if exponent.Some? then ['e'] + Integer(exponent.value) else [];
    DigitsHaveNoControl(whole);
    DigitsHaveNoControl(fraction);
    if exponent.Some? {
      IntegerHasNoControl(exponent.value);
      Together(['e'], Integer(exponent.value));
    }
    Together(sign, Digits(whole));
    Together(sign + Digits(whole), ['.']);
    Together(sign + Digits(whole) + ['.'], Zeros(zeros));
    Together(sign + Digits(whole) + ['.'] + Zeros(zeros), Digits(fraction));
    Together(sign + Digits(whole) + ['.'] + Zeros(zeros) + Digits(fraction), power);
  }

  lemma {:induction false} CompactHasNoControl(value: Value)
    ensures NoControl(Compact(value))
    decreases value, 0
  {
    match value {
      case Number(n) => IntegerHasNoControl(n);
      case Decimal(negative, whole, zeros, fraction, exponent) =>
        DecimalHasNoControl(negative, whole, zeros, fraction, exponent);
      case Text(text) => EscapedHasNoControl(text);
      case Array(items) => ItemsHaveNoControl(items);
      case Object(fields) => FieldsHaveNoControl(fields);
      case _ =>
    }
  }

  lemma {:induction false} ItemsHaveNoControl(items: seq<Value>)
    ensures NoControl(CompactItems(items))
    decreases items, 1
  {
    if items != [] {
      CompactHasNoControl(items[0]);
      ItemsHaveNoControl(items[1..]);
    }
  }

  lemma {:induction false} FieldsHaveNoControl(fields: seq<Field>)
    ensures NoControl(CompactFields(fields))
    decreases fields, 1
  {
    if fields != [] {
      var name := Quoted(fields[0].name);
      var value := Compact(fields[0].value);
      var more := if |fields| == 1 then [] else [','] + CompactFields(fields[1..]);
      EscapedHasNoControl(fields[0].name);
      CompactHasNoControl(fields[0].value);
      FieldsHaveNoControl(fields[1..]);
      Together(name, [':']);
      Together(name + [':'], value);
      Together(name + [':'] + value, more);
    }
  }

  function CompactAll(values: seq<Value>): seq<Bytes> {
    seq(|values|, i requires 0 <= i < |values| => Compact(values[i]))
  }

  /** Round trip: any list of JSON objects whose compact form is within the limit,
      written one per line, reads back as the same frames and then ends, however
      the stream is cut. */
  lemma ObjectsRoundTrip(values: seq<Value>, max: nat, valid: Parser, chunks: seq<Bytes>)
    requires forall value | value in values :: value.Object? && |Compact(value)| <= max && valid(Compact(value))
    requires Concat(chunks) == Terminate(CompactAll(values))
    ensures Session(Concat(chunks), max, valid) == (CompactAll(values), End)
  {
    var frames := CompactAll(values);
    forall frame | frame in frames
      ensures Clean(frame) && |frame| <= max && valid(frame)
    {
      var i :| 0 <= i < |frames| && frames[i] == frame;
      assert values[i] in values;
      CompactHasNoControl(values[i]);
      assert forall k | 0 <= k < |frame| :: frame[k] in frame;
    }
    CleanFramesReadBack(frames, max, valid);
  }

  lemma StripExactly(line: Bytes, frame: Bytes)
    ensures StripCr(line) == frame <==>
      line == frame + [CR] || (line == frame && (frame == [] || frame[|frame| - 1] != CR))
  {
    assert (frame + [CR])[|frame|] == CR;
    if line != [] && line[|line| - 1] == CR {
      assert line == line[..|line| - 1] + [CR];
      assert (frame + [CR])[..|frame|] == frame;
    }
  }

  /** What a line is read as: the limit applies to the line as sent, one CR at its end
      is not part of the frame, and a frame is not empty. */
  lemma JudgedExactly(line: Bytes, max: nat, frame: Bytes)
    ensures Judge(line, max) == FrameTooLarge <==> |line| > max
    ensures Judge(line, max) == EmptyFrame <==> |line| <= max && (line == [] || line == [CR])
    ensures Judge(line, max) == Frame(frame) <==>
      && |line| <= max && frame != []
      && (line == frame + [CR] || (line == frame && frame[|frame| - 1] != CR))
  {
    StripExactly(line, []);
    assert [] + [CR] == [CR];
    StripExactly(line, frame);
  }
}
