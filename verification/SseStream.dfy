/**
 The server-sent event decoder of the ChatGPT client: a buffer that is filled by
 network chunks and drained block by block.
 */
module SseStream {
  import opened Wrappers

  type Bytes = string // one char per byte

  const LF := '\n'
  const CR := '\r'

  // What a block parses to: an event, nothing (comments, "[DONE]"), or an error.
  datatype Parsed<+E> = Event(event: E) | NoEvent | Invalid

  // ---------- finding blocks ----------

  predicate LfLf(buffer: Bytes, i: int) {
    0 <= i && i + 2 <= |buffer| && buffer[i] == LF && buffer[i + 1] == LF
  }

  predicate CrLfCrLf(buffer: Bytes, i: int) {
    && 0 <= i && i + 4 <= |buffer|
    && buffer[i] == CR && buffer[i + 1] == LF && buffer[i + 2] == CR && buffer[i + 3] == LF
  }

  predicate OccursAt(haystack: Bytes, needle: Bytes, k: int) {
    && 0 <= k && k + |needle| <= |haystack|
    && forall d | 0 <= d < |needle| :: haystack[k + d] == needle[d]
  }

  // The first position from `from` on where the needle occurs.
  function FindBytes(haystack: Bytes, needle: Bytes, from: nat): (r: Option<nat>)
    requires needle != []
    ensures r.Some? ==> r.value + |needle| <= |haystack|
    decreases |haystack| - from
  {
    if from + |needle| > |haystack| then None
    else if OccursAt(haystack, needle, from) then Some(from)
    else FindBytes(haystack, needle, from + 1)
  }

  lemma {:induction false} FoundIsFirst(haystack: Bytes, needle: Bytes, from: nat)
    requires needle != []
    ensures var r := FindBytes(haystack, needle, from);
      && (r.Some? ==> from <= r.value && OccursAt(haystack, needle, r.value))
      && (forall k | from <= k && OccursAt(haystack, needle, k) :: r.Some? && r.value <= k)
    decreases |haystack| - from
  {
    if from + |needle| <= |haystack| && !OccursAt(haystack, needle, from) {
      FoundIsFirst(haystack, needle, from + 1);
    }
  }

  datatype Boundary = Boundary(at: nat, delimiter: nat)

  function FindEventBoundary(buffer: Bytes): (r: Option<Boundary>)
    ensures r.Some? ==> r.value.delimiter > 0 && r.value.at + r.value.delimiter <= |buffer|
  {
    var lf := FindBytes(buffer, [LF, LF], 0);
    var crlf := FindBytes(buffer, [CR, LF, CR, LF], 0);
    if lf.Some? && crlf.Some? then
      Some(if lf.value <= crlf.value then Boundary(lf.value, 2) else Boundary(crlf.value, 4))
    else if lf.Some? then Some(Boundary(lf.value, 2))
    else if crlf.Some? then Some(Boundary(crlf.value, 4))
    else None
  }

  // A blank line starts here: either delimiter.
  predicate Blank(buffer: Bytes, i: int) {
    LfLf(buffer, i) || CrLfCrLf(buffer, i)
  }

  /** The boundary is the earliest blank line of either kind. */
  lemma BoundaryIsFirst(buffer: Bytes)
    ensures match FindEventBoundary(buffer)
      case Some(b) =>
        && Blank(buffer, b.at) && (forall k | 0 <= k < b.at :: !Blank(buffer, k))
        && b.delimiter == (if LfLf(buffer, b.at) then 2 else 4)
        && b.at + b.delimiter <= |buffer|
      case None => forall k :: !Blank(buffer, k)
  {
    FoundIsFirst(buffer, [LF, LF], 0);
    FoundIsFirst(buffer, [CR, LF, CR, LF], 0);
    forall k
      ensures LfLf(buffer, k) <==> OccursAt(buffer, [LF, LF], k)
      ensures CrLfCrLf(buffer, k) <==> OccursAt(buffer, [CR, LF, CR, LF], k)
    {
      var (lf, crlf) := ([LF, LF], [CR, LF, CR, LF]);
      if OccursAt(buffer, lf, k) {
        assert buffer[k + 0] == lf[0] && buffer[k + 1] == lf[1];
      }
      if OccursAt(buffer, crlf, k) {
        assert buffer[k + 0] == crlf[0] && buffer[k + 1] == crlf[1];
        assert buffer[k + 2] == crlf[2] && buffer[k + 3] == crlf[3];
      }
    }
  }

  /** A boundary found in a prefix is never overtaken by a delimiter that starts
      earlier but was still incomplete. */
  lemma BoundaryIsStable(buffer: Bytes, more: Bytes)
    requires FindEventBoundary(buffer).Some?
    ensures FindEventBoundary(buffer + more) == FindEventBoundary(buffer)
  {
    var whole := buffer + more;
    BoundaryIsFirst(buffer);
    BoundaryIsFirst(whole);
    var b := FindEventBoundary(buffer).value;
    assert forall i | 0 <= i < |buffer| :: whole[i] == buffer[i];
    assert Blank(whole, b.at);
    forall k | 0 <= k < b.at
      ensures !Blank(whole, k)
    {
      // A CR LF CR LF that reaches past the prefix would start right before the
      // LF LF found there, and overlap it.
      assert !Blank(buffer, k);
      assert k + 4 > |buffer| ==> k == b.at - 1 && LfLf(buffer, b.at);
    }
    var first := FindEventBoundary(whole).value;
    assert first.at == b.at;
  }

  // ---------- splitting a whole stream ----------

  // Anything that finds the end of the first block; FindEventBoundary is the one
  // the client uses.
  type Finder = Bytes -> Option<Boundary>

  // It finds ends inside the buffer, and sticks to them when more bytes follow.
  ghost predicate Finds(find: Finder) {
    && (forall buffer: Bytes {:trigger find(buffer)} :: find(buffer).Some? ==>
          find(buffer).value.delimiter > 0 && find(buffer).value.at + find(buffer).value.delimiter <= |buffer|)
    && (forall buffer: Bytes, more: Bytes {:trigger find(buffer + more)} ::
          find(buffer).Some? ==> find(buffer + more) == find(buffer))
  }

  // The end is found as soon as its delimiter is there.
  ghost predicate FindsAtOnce(find: Finder, buffer: Bytes) {
    find(buffer).Some? ==>
      var b := find(buffer).value;
      b.at + b.delimiter <= |buffer| && find(buffer[..b.at + b.delimiter]) == find(buffer)
  }

  lemma EventBoundaryFinds()
    ensures Finds(FindEventBoundary)
    ensures forall buffer :: FindsAtOnce(FindEventBoundary, buffer)
  {
    forall buffer: Bytes, more: Bytes | FindEventBoundary(buffer).Some?
      ensures FindEventBoundary(buffer + more) == FindEventBoundary(buffer)
    {
      BoundaryIsStable(buffer, more);
    }
    forall buffer
      ensures FindsAtOnce(FindEventBoundary, buffer)
    {
      BoundaryIsFoundAtOnce(buffer);
    }
  }

  lemma BoundaryIsFoundAtOnce(buffer: Bytes)
    ensures FindsAtOnce(FindEventBoundary, buffer)
  {
    if FindEventBoundary(buffer).Some? {
      var b := FindEventBoundary(buffer).value;
      var through := buffer[..b.at + b.delimiter];
      BoundaryIsFirst(buffer);
      BoundaryIsFirst(through);
      assert Blank(through, b.at);
      assert forall k | 0 <= k < b.at :: Blank(through, k) ==> Blank(buffer, k);
    }
  }

  // The blocks that end at a boundary, in order ...
  function Blocks(find: Finder, buffer: Bytes): seq<Bytes>
    requires Finds(find)
    decreases |buffer|
  {
    match find(buffer)
    case None => []
    case Some(b) => [buffer[..b.at]] + Blocks(find, buffer[b.at + b.delimiter..])
  }

  // ... and what is left after the last of them.
  function Rest(find: Finder, buffer: Bytes): Bytes
    requires Finds(find)
    decreases |buffer|
  {
    match find(buffer)
    case None => buffer
    case Some(b) => Rest(find, buffer[b.at + b.delimiter..])
  }

  // The unterminated last block of a stream, if there is one.
  function Tail(rest: Bytes): seq<Bytes> {
    if rest == [] then [] else [rest]
  }

  // One-shot splitting of a complete stream.
  function Units(find: Finder, stream: Bytes): seq<Bytes>
    requires Finds(find)
  {
    Blocks(find, stream) + Tail(Rest(find, stream))
  }

  /** Splitting a prefix and then the rest splits the whole. */
  lemma {:induction false} BlocksAppend(find: Finder, buffer: Bytes, more: Bytes)
    requires Finds(find)
    ensures Blocks(find, buffer + more) == Blocks(find, buffer) + Blocks(find, Rest(find, buffer) + more)
    ensures Rest(find, buffer + more) == Rest(find, Rest(find, buffer) + more)
    decreases |buffer|
  {
    if find(buffer).Some? {
      var b := find(buffer).value;
      var whole := buffer + more;
      var rest := buffer[b.at + b.delimiter..];
      assert find(whole) == find(buffer);
      BlocksAppend(find, rest, more);
      assert whole[b.at + b.delimiter..] == rest + more;
      assert whole[..b.at] == buffer[..b.at];
      BlocksOfFirst(find, buffer);
      BlocksOfFirst(find, whole);
    } else {
      assert Blocks(find, buffer) == [];
    }
  }

  lemma BlocksOfFirst(find: Finder, buffer: Bytes)
    requires Finds(find) && find(buffer).Some?
    ensures
      var b := find(buffer).value;
      var rest := buffer[b.at + b.delimiter..];
      Blocks(find, buffer) == [buffer[..b.at]] + Blocks(find, rest) && Rest(find, buffer) == Rest(find, rest)
  {}

  // ---------- draining ----------

  predicate AllParse<E>(parse: Bytes -> Parsed<E>, blocks: seq<Bytes>) {
    blocks == [] || (!parse(blocks[0]).Invalid? && AllParse(parse, blocks[1..]))
  }

  // The events of the blocks before the first invalid one.
  function Good<E>(parse: Bytes -> Parsed<E>, blocks: seq<Bytes>): seq<E> {
    if blocks == [] then []
    else
      match parse(blocks[0])
      case Invalid => []
      case NoEvent => Good(parse, blocks[1..])
      case Event(event) => [event] + Good(parse, blocks[1..])
  }

  // The events of some blocks; none if one of them is invalid.
  function ParseAll<E>(parse: Bytes -> Parsed<E>, blocks: seq<Bytes>): Option<seq<E>> {
    if AllParse(parse, blocks) then Some(Good(parse, blocks)) else None
  }

  lemma {:induction false} GoodAppend<E>(parse: Bytes -> Parsed<E>, first: seq<Bytes>, second: seq<Bytes>)
    ensures AllParse(parse, first + second) <==> AllParse(parse, first) && AllParse(parse, second)
    ensures Good(parse, first + second) ==
      if AllParse(parse, first) then Good(parse, first) + Good(parse, second) else Good(parse, first)
    decreases |first|
  {
    if first == [] {
      assert first + second == second;
    } else {
      assert (first + second)[0] == first[0];
      assert (first + second)[1..] == first[1..] + second;
      GoodAppend(parse, first[1..], second);
    }
  }

  lemma GoodOne<E>(parse: Bytes -> Parsed<E>, block: Bytes)
    ensures AllParse(parse, [block]) <==> !parse(block).Invalid?
    ensures Good(parse, [block]) == if parse(block).Event? then [parse(block).event] else []
  {
    assert [block][1..] == [];
  }

  // Takes every complete block out of the buffer.
  method DrainBlocks<E>(find: Finder, parse: Bytes -> Parsed<E>, input: Bytes)
    returns (events: Option<seq<E>>, buffer: Bytes)
    requires Finds(find)
    ensures events == ParseAll(parse, Blocks(find, input))
    ensures events.Some? ==> buffer == Rest(find, input)
  {
    buffer := input;
    var drained: seq<E> := [];
    var boundary := find(buffer);
    while boundary.Some?
      invariant boundary == find(buffer)
      invariant Rest(find, input) == Rest(find, buffer)
      invariant AllParse(parse, Blocks(find, input)) <==> AllParse(parse, Blocks(find, buffer))
      invariant Good(parse, Blocks(find, input)) == drained + Good(parse, Blocks(find, buffer))
      decreases |buffer|
    {
      var block := buffer[..boundary.value.at];
      buffer := buffer[boundary.value.at + boundary.value.delimiter..];
      GoodAppend(parse, [block], Blocks(find, buffer));
      GoodOne(parse, block);
      var parsed := parse(block);
      if parsed.Invalid? {
        return None, buffer;
      }
      if parsed.Event? {
        drained := drained + [parsed.event];
      }
      boundary := find(buffer);
    }
    assert drained + [] == drained;
    return Some(drained), buffer;
  }

  /** drain_sse_events: takes every complete block out of the buffer and, at the end
      of the stream, the unfinished one too. */
  method DrainEvents<E>(find: Finder, parse: Bytes -> Parsed<E>, input: Bytes, endOfStream: bool)
    returns (events: Option<seq<E>>, buffer: Bytes)
    requires Finds(find)
    ensures events == ParseAll(parse, if endOfStream then Units(find, input) else Blocks(find, input))
    ensures events.Some? ==> buffer == if endOfStream then [] else Rest(find, input)
  {
    events, buffer := DrainBlocks(find, parse, input);
    if endOfStream {
      if Rest(find, input) == [] {
        assert Units(find, input) == Blocks(find, input);
      } else {
        GoodAppend(parse, Blocks(find, input), [Rest(find, input)]);
        GoodOne(parse, Rest(find, input));
        assert Good(parse, Blocks(find, input)) + [] == Good(parse, Blocks(find, input));
        if events.Some? {
          var parsed := parse(buffer);
          if parsed.Invalid? {
            events := None;
          } else if parsed.Event? {
            events := Some(events.value + [parsed.event]);
          }
          buffer := [];
        }
      }
    }
  }

  // ---------- the client's loop ----------

  datatype Outcome<+E> = Finish(events: seq<E>) | TooLarge | BadBlock

  // Everything up to the first terminal event.
  function Until<E>(terminal: E -> bool, events: seq<E>): seq<E> {
    if events == [] || terminal(events[0]) then events[..if events == [] then 0 else 1]
    else [events[0]] + Until(terminal, events[1..])
  }

  predicate Ends<E>(terminal: E -> bool, events: seq<E>) {
    exists i :: 0 <= i < |events| && terminal(events[i])
  }

  lemma {:induction false} UntilAppend<E>(terminal: E -> bool, first: seq<E>, second: seq<E>)
    ensures Until(terminal, first + second) ==
      if Ends(terminal, first) then Until(terminal, first) else first + Until(terminal, second)
    ensures !Ends(terminal, first) ==> Until(terminal, first) == first
    decreases |first|
  {
    if first == [] {
      assert first + second == second;
    } else {
      assert (first + second)[0] == first[0];
      assert (first + second)[1..] == first[1..] + second;
      assert first == [first[0]] + first[1..];
      if !terminal(first[0]) {
        UntilAppend(terminal, first[1..], second);
        assert Ends(terminal, first[1..]) <==> Ends(terminal, first) by {
          forall i | 0 <= i < |first| && terminal(first[i])
            ensures Ends(terminal, first[1..])
          {
            assert first[1..][i - 1] == first[i];
          }
          forall i | 0 <= i < |first[1..]| && terminal(first[1..][i])
            ensures Ends(terminal, first)
          {
            assert first[i + 1] == first[1..][i];
          }
        }
      }
    }
  }

  // The chunk loop of `complete`, from a buffer and the events so far.
  function Stream<E>(
    find: Finder, parse: Bytes -> Parsed<E>, terminal: E -> bool, maximum: nat,
    chunks: seq<Bytes>, buffer: Bytes, events: seq<E>, received: nat): Outcome<E>
    requires Finds(find)
    decreases |chunks|
  {
    if chunks == [] then
      match ParseAll(parse, Units(find, buffer))
      case None => BadBlock
      case Some(last) => Finish(events + Until(terminal, last))
    else if received + |chunks[0]| > maximum then TooLarge
    else
      match ParseAll(parse, Blocks(find, buffer + chunks[0]))
      case None => BadBlock
      case Some(drained) =>
        if Ends(terminal, drained) then Finish(events + Until(terminal, drained))
        else
          Stream(find, parse, terminal, maximum, chunks[1..], Rest(find, buffer + chunks[0]),
                 events + drained, received + |chunks[0]|)
  }

  /** The client's loop: drains after every chunk and stops at a terminal event. */
  method Complete<E>(find: Finder, parse: Bytes -> Parsed<E>, terminal: E -> bool, maximum: nat, chunks: seq<Bytes>)
    returns (outcome: Outcome<E>)
    requires Finds(find)
    ensures outcome == Stream(find, parse, terminal, maximum, chunks, [], [], 0)
  {
    var buffer: Bytes := [];
    var events: seq<E> := [];
    var received: nat := 0;
    for i := 0 to |chunks|
      invariant Stream(find, parse, terminal, maximum, chunks, [], [], 0)
             == Stream(find, parse, terminal, maximum, chunks[i..], buffer, events, received)
    {
      assert chunks[i..][1..] == chunks[i + 1..];
      received := received + |chunks[i]|;
      if received > maximum {
        return TooLarge;
      }
      var drained, rest := DrainEvents(find, parse, buffer + chunks[i], false);
      if drained.None? {
        return BadBlock;
      }
      var ended;
      events, ended := Keep(terminal, events, drained.value);
      if ended {
        return Finish(events);
      }
      buffer := rest;
    }
    var drained, _ := DrainEvents(find, parse, buffer, true);
    if drained.None? {
      return BadBlock;
    }
    var all, _ := Keep(terminal, events, drained.value);
    return Finish(all);
  }

  // Pushes events until one is terminal.
  method Keep<E>(terminal: E -> bool, before: seq<E>, drained: seq<E>) returns (events: seq<E>, ended: bool)
    ensures events == before + Until(terminal, drained)
    ensures ended <==> Ends(terminal, drained)
    ensures !ended ==> events == before + drained
  {
    events := before;
    for i := 0 to |drained|
      invariant events == before + drained[..i]
      invariant !Ends(terminal, drained[..i])
    {
      var next := drained[i];
      assert drained == drained[..i] + ([next] + drained[i + 1..]);
      UntilAppend(terminal, drained[..i], [next] + drained[i + 1..]);
      events := events + [next];
      if terminal(next) {
        assert Until(terminal, [next] + drained[i + 1..]) == [next];
        return events, true;
      }
      assert drained[..i + 1] == drained[..i] + [next];
    }
    assert drained[..|drained|] == drained;
    UntilAppend(terminal, drained, []);
    return events, false;
  }

  // ---------- chunk independence ----------

  function Concat(chunks: seq<Bytes>): Bytes {
    if chunks == [] then [] else chunks[0] + Concat(chunks[1..])
  }

  // What splitting in one go gives, unless a bad block and a terminal event before
  // it are both among the complete blocks; the unfinished last block only matters
  // if no event is terminal.
  function Due<E>(
    parse: Bytes -> Parsed<E>, terminal: E -> bool, blocks: seq<Bytes>, tail: seq<Bytes>, events: seq<E>): Outcome<E>
  {
    if !AllParse(parse, blocks) then BadBlock
    else if Ends(terminal, Good(parse, blocks)) then Finish(events + Until(terminal, Good(parse, blocks)))
    else if !AllParse(parse, tail) then BadBlock
    else Finish(events + Until(terminal, Good(parse, blocks + tail)))
  }

  // No bad block comes after a terminal event.
  predicate Clear<E>(parse: Bytes -> Parsed<E>, terminal: E -> bool, blocks: seq<Bytes>) {
    AllParse(parse, blocks) || !Ends(terminal, Good(parse, blocks))
  }

  // Events drained without a terminal one go before those up to the first one.
  lemma UntilAfter<E>(terminal: E -> bool, events: seq<E>, drained: seq<E>, next: seq<E>)
    requires !Ends(terminal, drained)
    ensures events + Until(terminal, drained + next) == events + drained + Until(terminal, next)
    ensures Ends(terminal, drained + next) <==> Ends(terminal, next)
  {
    UntilAppend(terminal, drained, next);
    EndsAppend(terminal, drained, next);
    assert events + (drained + Until(terminal, next)) == events + drained + Until(terminal, next);
  }

  // Some blocks drained without a terminal event, and more to follow.
  lemma DueDrained<E>(
    parse: Bytes -> Parsed<E>, terminal: E -> bool, blocks: seq<Bytes>, next: seq<Bytes>, tail: seq<Bytes>,
    events: seq<E>)
    requires AllParse(parse, blocks) && !Ends(terminal, Good(parse, blocks))
    ensures Due(parse, terminal, blocks + next, tail, events)
         == Due(parse, terminal, next, tail, events + Good(parse, blocks))
    ensures Clear(parse, terminal, blocks + next) <==> Clear(parse, terminal, next)
  {
    var drained := Good(parse, blocks);
    GoodAppend(parse, blocks, next);
    UntilAfter(terminal, events, drained, Good(parse, next));
    assert blocks + next + tail == blocks + (next + tail);
    GoodAppend(parse, blocks, next + tail);
    UntilAfter(terminal, events, drained, Good(parse, next + tail));
  }

  // Blocks drained up to a terminal event, or a bad block.
  lemma DueAtOnce<E>(
    parse: Bytes -> Parsed<E>, terminal: E -> bool, blocks: seq<Bytes>, next: seq<Bytes>, tail: seq<Bytes>,
    events: seq<E>)
    requires Clear(parse, terminal, blocks + next)
    requires !AllParse(parse, blocks) || Ends(terminal, Good(parse, blocks))
    ensures Due(parse, terminal, blocks + next, tail, events) ==
      if AllParse(parse, blocks) then Finish(events + Until(terminal, Good(parse, blocks))) else BadBlock
  {
    GoodAppend(parse, blocks, next);
    EndsAppend(terminal, Good(parse, blocks), Good(parse, next));
    UntilAppend(terminal, Good(parse, blocks), Good(parse, next));
  }

  /** However a stream within the limit is cut into chunks, the outcome is the one
      that is due, unless a bad block follows a terminal event among its complete
      blocks. */
  lemma {:induction false} ChunkingIsIrrelevant<E>(
    find: Finder, parse: Bytes -> Parsed<E>, terminal: E -> bool, maximum: nat,
    chunks: seq<Bytes>, buffer: Bytes, events: seq<E>, received: nat)
    requires Finds(find) && received + |Concat(chunks)| <= maximum
    requires find(buffer).None? // what draining leaves behind
    requires Clear(parse, terminal, Blocks(find, buffer + Concat(chunks)))
    ensures
      var stream := buffer + Concat(chunks);
      Stream(find, parse, terminal, maximum, chunks, buffer, events, received)
      == Due(parse, terminal, Blocks(find, stream), Tail(Rest(find, stream)), events)
    decreases |chunks|
  {
    var stream := buffer + Concat(chunks);
    if chunks == [] {
      assert stream == buffer && Blocks(find, buffer) == [];
      assert [] + Tail(buffer) == Tail(buffer);
      GoodOfTail(parse, terminal, buffer, events);
    } else {
      var head := buffer + chunks[0];
      var blocks := Blocks(find, head);
      var rest := Rest(find, head);
      var next := Blocks(find, rest + Concat(chunks[1..]));
      assert stream == head + Concat(chunks[1..]);
      BlocksAppend(find, head, Concat(chunks[1..]));
      var tail := Tail(Rest(find, stream));
      if AllParse(parse, blocks) && !Ends(terminal, Good(parse, blocks)) {
        DueDrained(parse, terminal, blocks, next, tail, events);
        RestHasNoBlock(find, head);
        ChunkingIsIrrelevant(find, parse, terminal, maximum, chunks[1..], rest,
                             events + Good(parse, blocks), received + |chunks[0]|);
      } else {
        DueAtOnce(parse, terminal, blocks, next, tail, events);
      }
    }
  }

  lemma GoodOfTail<E>(parse: Bytes -> Parsed<E>, terminal: E -> bool, buffer: Bytes, events: seq<E>)
    ensures Due(parse, terminal, [], Tail(buffer), events) ==
      match ParseAll(parse, Tail(buffer))
      case None => BadBlock
      case Some(last) => Finish(events + Until(terminal, last))
  {
    assert [] + Tail(buffer) == Tail(buffer);
  }

  lemma {:induction false} RestHasNoBlock(find: Finder, buffer: Bytes)
    requires Finds(find)
    ensures find(Rest(find, buffer)).None?
    decreases |buffer|
  {
    if find(buffer).Some? {
      var b := find(buffer).value;
      RestHasNoBlock(find, buffer[b.at + b.delimiter..]);
    }
  }

  // Where to cut so that a terminal event arrives before a bad block does.
  lemma {:induction false} CutAfterTerminal<E>(
    find: Finder, parse: Bytes -> Parsed<E>, terminal: E -> bool, stream: Bytes) returns (cut: nat)
    requires Finds(find) && forall buffer :: FindsAtOnce(find, buffer)
    requires Ends(terminal, Good(parse, Blocks(find, stream)))
    ensures cut <= |stream|
    ensures AllParse(parse, Blocks(find, stream[..cut]))
    ensures Ends(terminal, Good(parse, Blocks(find, stream[..cut])))
    decreases |stream|
  {
    assert find(stream).Some?;
    var b := find(stream).value;
    var end := b.at + b.delimiter;
    var (block, rest) := (stream[..b.at], stream[end..]);
    var more := Blocks(find, rest);
    assert FindsAtOnce(find, stream);
    assert [block][1..] == [];
    GoodAppend(parse, [block], more);
    GoodOne(parse, block);
    EndsAppend(terminal, Good(parse, [block]), Good(parse, more));
    if Ends(terminal, Good(parse, [block])) {
      cut := end;
      var first := stream[..end];
      assert first[..b.at] == block && first[end..] == [];
      NothingInNothing(find);
      assert Blocks(find, first) == [block] + [];
    } else {
      var further := CutAfterTerminal(find, parse, terminal, rest);
      cut := end + further;
      var first := stream[..cut];
      assert first == stream[..end] + rest[..further];
      assert find(first) == find(stream);
      assert first[..b.at] == block && first[end..] == rest[..further];
      assert Blocks(find, first) == [block] + Blocks(find, rest[..further]);
      GoodAppend(parse, [block], Blocks(find, rest[..further]));
      EndsAppend(terminal, Good(parse, [block]), Good(parse, Blocks(find, rest[..further])));
    }
  }

  lemma NothingInNothing(find: Finder)
    requires Finds(find)
    ensures find([]).None? && Blocks(find, []) == []
  {}

  lemma EndsAppend<E>(terminal: E -> bool, first: seq<E>, second: seq<E>)
    ensures Ends(terminal, first + second) <==> Ends(terminal, first) || Ends(terminal, second)
  {
    var whole := first + second;
    forall i | 0 <= i < |first| && terminal(first[i])
      ensures Ends(terminal, whole)
    {
      assert whole[i] == first[i];
    }
    forall i | 0 <= i < |second| && terminal(second[i])
      ensures Ends(terminal, whole)
    {
      assert whole[|first| + i] == second[i];
    }
  }

  // ---------- the client's own boundaries ----------

  function EventBlocks(stream: Bytes): seq<Bytes> {
    EventBoundaryFinds();
    Blocks(FindEventBoundary, stream)
  }

  function EventTail(stream: Bytes): seq<Bytes> {
    EventBoundaryFinds();
    Tail(Rest(FindEventBoundary, stream))
  }

  // What the client makes of a list of chunks.
  function Completed<E>(parse: Bytes -> Parsed<E>, terminal: E -> bool, maximum: nat, chunks: seq<Bytes>): Outcome<E> {
    EventBoundaryFinds();
    Stream(FindEventBoundary, parse, terminal, maximum, chunks, [], [], 0)
  }

  /** A stream without a bad block after a terminal event gives the outcome of
      splitting it in one go, however the network cuts it. */
  lemma CompleteIsOneShot<E>(parse: Bytes -> Parsed<E>, terminal: E -> bool, maximum: nat, chunks: seq<Bytes>)
    requires |Concat(chunks)| <= maximum && Clear(parse, terminal, EventBlocks(Concat(chunks)))
    ensures Completed(parse, terminal, maximum, chunks)
         == Due(parse, terminal, EventBlocks(Concat(chunks)), EventTail(Concat(chunks)), [])
  {
    EventBoundaryFinds();
    NothingInNothing(FindEventBoundary);
    assert [] + Concat(chunks) == Concat(chunks);
    ChunkingIsIrrelevant(FindEventBoundary, parse, terminal, maximum, chunks, [], [], 0);
  }

  /** A bad block after a terminal event: arriving together they are an error, and
      cut after the terminal event they are not. */
  lemma BadBlockAfterTheEnd<E>(parse: Bytes -> Parsed<E>, terminal: E -> bool, maximum: nat, stream: Bytes)
    returns (cut: nat)
    requires |stream| <= maximum && !Clear(parse, terminal, EventBlocks(stream))
    ensures cut <= |stream|
    ensures Completed(parse, terminal, maximum, [stream]) == BadBlock
    ensures Completed(parse, terminal, maximum, [stream[..cut], stream[cut..]]).Finish?
  {
    EventBoundaryFinds();
    cut := CutAfterTerminal(FindEventBoundary, parse, terminal, stream);
    assert [] + stream == stream && [] + stream[..cut] == stream[..cut];
  }

  // All ways of cutting the stream have the same outcome.
  ghost predicate CutsAgree<E(!new)>(parse: Bytes -> Parsed<E>, terminal: E -> bool, maximum: nat, stream: Bytes) {
    forall a: seq<Bytes>, b: seq<Bytes> | Concat(a) == stream && Concat(b) == stream ::
      Completed(parse, terminal, maximum, a) == Completed(parse, terminal, maximum, b)
  }

  /** The exact condition under which the cut does not matter: no complete block
      after a terminal event is bad. */
  lemma CutsAgreeExactly<E(!new)>(parse: Bytes -> Parsed<E>, terminal: E -> bool, maximum: nat, stream: Bytes)
    requires |stream| <= maximum
    ensures CutsAgree(parse, terminal, maximum, stream) <==>
      AllParse(parse, EventBlocks(stream)) || !Ends(terminal, Good(parse, EventBlocks(stream)))
  {
    if Clear(parse, terminal, EventBlocks(stream)) {
      forall chunks: seq<Bytes> | Concat(chunks) == stream
        ensures Completed(parse, terminal, maximum, chunks)
             == Due(parse, terminal, EventBlocks(stream), EventTail(stream), [])
      {
        CompleteIsOneShot(parse, terminal, maximum, chunks);
      }
    } else {
      var cut := BadBlockAfterTheEnd(parse, terminal, maximum, stream);
      var (whole, halves) := ([stream], [stream[..cut], stream[cut..]]);
      ConcatOne(stream);
      ConcatTwo(stream[..cut], stream[cut..]);
      assert Concat(whole) == stream && Concat(halves) == stream;
      assert Completed(parse, terminal, maximum, whole) != Completed(parse, terminal, maximum, halves);
    }
  }

  lemma ConcatOne(chunk: Bytes)
    ensures Concat([chunk]) == chunk
  {
    assert [chunk][1..] == [];
  }

  lemma ConcatTwo(first: Bytes, second: Bytes)
    ensures Concat([first, second]) == first + second
  {
    assert [first, second][1..] == [second];
    ConcatOne(second);
  }

  // ---------- the split and what is kept of it ----------

  function Delimiter(crlf: bool): Bytes {
    if crlf then [CR, LF, CR, LF] else [LF, LF]
  }

  // Blocks with a delimiter of some kind after each.
  function Rejoined(blocks: seq<Bytes>, crlf: seq<bool>): Bytes
    requires |blocks| == |crlf|
  {
    if blocks == [] then [] else blocks[0] + Delimiter(crlf[0]) + Rejoined(blocks[1..], crlf[1..])
  }

  predicate NoBlank(bytes: Bytes) {
    forall k | 0 <= k < |bytes| :: !Blank(bytes, k)
  }

  lemma FirstBlockIsCutOut(buffer: Bytes)
    requires FindEventBoundary(buffer).Some?
    ensures var b := FindEventBoundary(buffer).value;
      && NoBlank(buffer[..b.at])
      && buffer == buffer[..b.at] + Delimiter(b.delimiter == 4) + buffer[b.at + b.delimiter..]
  {
    BoundaryIsFirst(buffer);
    var b := FindEventBoundary(buffer).value;
    var block := buffer[..b.at];
    forall k | 0 <= k < |block|
      ensures !Blank(block, k)
    {
      assert !Blank(buffer, k);
    }
    assert buffer[b.at..b.at + b.delimiter] == Delimiter(b.delimiter == 4);
  }

  lemma RejoinedOneMore(block: Bytes, crlf: bool, blocks: seq<Bytes>, rest: seq<bool>)
    requires |blocks| == |rest|
    ensures Rejoined([block] + blocks, [crlf] + rest) == block + Delimiter(crlf) + Rejoined(blocks, rest)
  {
    assert ([block] + blocks)[1..] == blocks && ([crlf] + rest)[1..] == rest;
  }

  // Some blocks and what is left, as a split of the buffer at these delimiters.
  ghost predicate SplitsAt(buffer: Bytes, blocks: seq<Bytes>, rest: Bytes, crlf: seq<bool>) {
    && |crlf| == |blocks|
    && Rejoined(blocks, crlf) + rest == buffer
    && NoBlank(rest) && forall block | block in blocks :: NoBlank(block)
  }

  lemma SplitsOneMore(buffer: Bytes, block: Bytes, more: Bytes, kind: bool, blocks: seq<Bytes>, rest: Bytes, crlf: seq<bool>)
    requires SplitsAt(more, blocks, rest, crlf)
    requires NoBlank(block) && buffer == block + Delimiter(kind) + more
    ensures SplitsAt(buffer, [block] + blocks, rest, [kind] + crlf)
  {
    RejoinedOneMore(block, kind, blocks, crlf);
  }

  /** The blocks are the split of the stream at blank lines: no block and nothing of
      what is left holds one, and putting delimiters back gives the stream. */
  lemma {:induction false} BlocksAreTheSplit(buffer: Bytes) returns (crlf: seq<bool>)
    ensures Finds(FindEventBoundary)
    ensures SplitsAt(buffer, Blocks(FindEventBoundary, buffer), Rest(FindEventBoundary, buffer), crlf)
    decreases |buffer|
  {
    EventBoundaryFinds();
    if FindEventBoundary(buffer).None? {
      BoundaryIsFirst(buffer);
      crlf := [];
      assert Blocks(FindEventBoundary, buffer) == [] && [] + buffer == buffer;
    } else {
      var b := FindEventBoundary(buffer).value;
      var more := buffer[b.at + b.delimiter..];
      FirstBlockIsCutOut(buffer);
      var later := BlocksAreTheSplit(more);
      crlf := [b.delimiter == 4] + later;
      BlocksOfFirst(FindEventBoundary, buffer);
      SplitsOneMore(buffer, buffer[..b.at], more, b.delimiter == 4, Blocks(FindEventBoundary, more),
                    Rest(FindEventBoundary, more), later);
    }
  }

  /** What is kept of some events is a prefix; a terminal event can only be its last,
      and is, if there was one. */
  lemma {:induction false} UntilIsAPrefix<E>(terminal: E -> bool, events: seq<E>)
    ensures var kept := Until(terminal, events);
      && kept <= events
      && (forall i | 0 <= i < |kept| - 1 :: !terminal(kept[i]))
      && (if Ends(terminal, events) then kept != [] && terminal(kept[|kept| - 1]) else kept == events)
    decreases |events|
  {
    if events != [] && !terminal(events[0]) {
      UntilIsAPrefix(terminal, events[1..]);
      UntilAppend(terminal, [events[0]], events[1..]);
      assert [events[0]] + events[1..] == events;
      if Ends(terminal, events) {
        var i :| 0 <= i < |events| && terminal(events[i]);
        assert events[1..][i - 1] == events[i];
      }
    } else if events != [] {
      assert terminal(events[0]);
    }
  }

  /** A stream over the limit is refused, however it is cut, unless it ends in time or
      a block of it is bad. */
  lemma {:induction false} OversizeIsRefused<E>(
    find: Finder, parse: Bytes -> Parsed<E>, terminal: E -> bool, maximum: nat,
    chunks: seq<Bytes>, buffer: Bytes, events: seq<E>, received: nat)
    requires Finds(find) && received <= maximum
    requires received + |Concat(chunks)| > maximum
    requires
      var blocks := Blocks(find, buffer + Concat(chunks));
      AllParse(parse, blocks) && !Ends(terminal, Good(parse, blocks))
    ensures Stream(find, parse, terminal, maximum, chunks, buffer, events, received) == TooLarge
    decreases |chunks|
  {
    if received + |chunks[0]| <= maximum {
      var now := buffer + chunks[0];
      var rest := Rest(find, now);
      RemainderIsSound(find, parse, terminal, now, Concat(chunks[1..]), buffer + Concat(chunks));
      var drained := Good(parse, Blocks(find, now));
      OversizeIsRefused(find, parse, terminal, maximum, chunks[1..], rest, events + drained, received + |chunks[0]|);
      assert ParseAll(parse, Blocks(find, now)) == Some(drained);
    }
  }

  // If no block of the whole is bad or ends it, neither is one of its parts.
  lemma RemainderIsSound<E>(
    find: Finder, parse: Bytes -> Parsed<E>, terminal: E -> bool, now: Bytes, more: Bytes, whole: Bytes)
    requires Finds(find) && whole == now + more
    requires AllParse(parse, Blocks(find, whole)) && !Ends(terminal, Good(parse, Blocks(find, whole)))
    ensures AllParse(parse, Blocks(find, now)) && !Ends(terminal, Good(parse, Blocks(find, now)))
    ensures
      var later := Blocks(find, Rest(find, now) + more);
      AllParse(parse, later) && !Ends(terminal, Good(parse, later))
  {
    var (here, later) := (Blocks(find, now), Blocks(find, Rest(find, now) + more));
    BlocksAppend(find, now, more);
    GoodAppend(parse, here, later);
    EndsAppend(terminal, Good(parse, here), Good(parse, later));
  }
}
