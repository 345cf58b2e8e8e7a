/**
 The supervisor's windowed reads, and the edit tool's loop that loads a whole file
 through them while other writers may change it.
 */
module WindowedRead {
  import opened Wrappers
  import opened ExecutionErrors
  import opened FileTree
  import opened FileMutations

  const U64_MAX := 0xFFFF_FFFF_FFFF_FFFF

  function Min(a: nat, b: nat): nat { if a <= b then a else b }

  function SaturatingAdd(a: nat, b: nat): nat { Min(a + b, U64_MAX) }

  function SaturatingSub(a: nat, b: nat): nat { if a < b then 0 else a - b }

  // A file whose size is a 64-bit count, as every file's is.
  predicate Sized(content: Bytes) { |content| <= U64_MAX }

  // ---------- one window ----------

  datatype ReadReply = ReadReply(size: nat, revision: Revision, data: Bytes, offset: nat, eof: bool)

  // The bytes from `from` up to `to`, as far as they exist.
  function Clip(content: Bytes, from: nat, to: nat): Bytes
    requires from <= to
  {
    content[Min(from, |content|)..Min(to, |content|)]
  }

  // What a read of a file with this content returns.
  function Window(content: Bytes, offset: nat, maxBytes: nat, limit: nat): Result<ReadReply, ErrorCode> {
    if maxBytes == 0 then Failure(InvalidRequest)
    else if maxBytes > limit then Failure(ResourceExhausted)
    else if offset > |content| then Failure(InvalidRequest)
    else
      var end := Min(offset + maxBytes, |content|);
      Success(ReadReply(|content|, Sha256(content), content[offset..end], offset, end == |content|))
  }

  function Concat(chunks: seq<Bytes>): Bytes {
    if chunks == [] then [] else Concat(chunks[..|chunks| - 1]) + chunks[|chunks| - 1]
  }

  // The part of a chunk that lies in the window.
  function Part(chunk: Bytes, chunkStart: nat, from: nat, to: nat): Bytes {
    var chunkEnd := chunkStart + |chunk|;
    var start := SaturatingSub(from, chunkStart);
    var end := Min(SaturatingSub(Min(to, chunkEnd), chunkStart), |chunk|);
    if chunkEnd > from && chunkStart < to && start < end then chunk[start..end] else []
  }

  // The window over a longer prefix has grown by that part.
  lemma ClipGrows(content: Bytes, chunk: Bytes, from: nat, to: nat)
    requires from <= to
    ensures Clip(content + chunk, from, to) == Clip(content, from, to) + Part(chunk, |content|, from, to)
  {}

  // The window holds the bytes from the offset on, as many as asked for or as there
  // are, and says so.
  lemma WindowIsExact(content: Bytes, offset: nat, maxBytes: nat, limit: nat)
    requires 0 < maxBytes <= limit
    ensures Window(content, offset, maxBytes, limit).Success? <==> offset <= |content|
    ensures offset <= |content| ==>
      var reply := Window(content, offset, maxBytes, limit).value;
      && |reply.data| == Min(maxBytes, |content| - offset)
      && (forall i | 0 <= i < |reply.data| :: reply.data[i] == content[offset + i])
      && (reply.eof <==> offset + |reply.data| == |content|)
      && (reply.eof <==> offset + maxBytes >= |content|)
      && (!reply.eof ==> reply.data != [])
      && reply.revision == Sha256(content) && reply.size == |content|
  {}

  /** `read`: hashes the whole file chunk by chunk and keeps the window, whatever the
      sizes of the chunks and although its end saturates. */
  method Read(chunks: seq<Bytes>, offset: nat, maxBytes: nat, limit: nat) returns (result: Result<ReadReply, ErrorCode>)
    requires Sized(Concat(chunks)) && offset <= U64_MAX && maxBytes <= U64_MAX
    ensures result == Window(Concat(chunks), offset, maxBytes, limit)
    ensures result.Success? <==> 0 < maxBytes <= limit && offset <= |Concat(chunks)|
    ensures result.Success? ==>
      var (content, reply) := (Concat(chunks), result.value);
      && |reply.data| == Min(maxBytes, |content| - offset)
      && (forall i | 0 <= i < |reply.data| :: reply.data[i] == content[offset + i])
      && (reply.eof <==> offset + maxBytes >= |content|)
      && reply.size == |content| && reply.revision == Sha256(content)
  {
    if maxBytes == 0 {
      return Failure(InvalidRequest);
    }
    if maxBytes > limit {
      return Failure(ResourceExhausted);
    }
    var hashed: Bytes := [];
    var selected: Bytes := [];
    var position := 0;
    var selectionEnd := SaturatingAdd(offset, maxBytes);
    for i := 0 to |chunks|
      invariant hashed == Concat(chunks[..i]) && position == |hashed|
      invariant selected == Clip(hashed, offset, selectionEnd)
    {
      var chunk := chunks[i];
      assert chunks[..i + 1][..i] == chunks[..i];
      ClipGrows(hashed, chunk, offset, selectionEnd);
      hashed := hashed + chunk;
      selected := selected + Part(chunk, position, offset, selectionEnd);
      position := position + |chunk|;
    }
    assert chunks[..|chunks|] == chunks;
    if offset > position {
      return Failure(InvalidRequest);
    }
    ClipIsWindow(hashed, offset, maxBytes, limit);
    WindowIsExact(hashed, offset, maxBytes, limit);
    return Success(ReadReply(position, Sha256(hashed), selected, offset,
                             SaturatingAdd(offset, |selected|) >= position));
  }

  // Neither of the two saturating additions matters for a file that fits.
  lemma ClipIsWindow(content: Bytes, offset: nat, maxBytes: nat, limit: nat)
    requires Sized(content) && offset <= |content| && 0 < maxBytes <= limit
    ensures
      var selected := Clip(content, offset, SaturatingAdd(offset, maxBytes));
      Window(content, offset, maxBytes, limit)
      == Success(ReadReply(|content|, Sha256(content), selected, offset,
                           SaturatingAdd(offset, |selected|) >= |content|))
  {}

  // ---------- loading a whole file ----------

  datatype LoadError =
    | Unsupported
    | Internal
    | Conflict
    | TooLarge
    | ReadFailed(code: ErrorCode)

  datatype LoadConfig = LoadConfig(maxFileBytes: nat, chunkBytes: nat, hostLimit: nat)

  const NUL := 0 as char

  // The file, as it is at each call to the host: other writers are free to change
  // it in between.
  type History = nat -> Bytes

  /** The edit tool's read: a whole regular file of an observed revision, window by
      window; `at(0)` is what the initial `stat` sees. Whatever happens to the file
      meanwhile, a result is the observed content. */
  method Load(at: History, observed: Revision, config: LoadConfig, utf8: Bytes -> bool)
    returns (result: Result<Bytes, LoadError>)
    ensures result.Success? ==>
      && Sha256(result.value) == observed
      && |result.value| <= config.maxFileBytes && NUL !in result.value && utf8(result.value)
    ensures (forall k :: Sha256(at(k)) == observed) ==> result == Loaded(at(0), config, utf8)
  {
    var content := at(0);
    var size := |content|;
    if Sha256(content) != observed {
      return Failure(Conflict);
    }
    if size > config.maxFileBytes {
      return Failure(TooLarge);
    }
    var chunk := Min(config.chunkBytes, config.hostLimit);
    if chunk == 0 {
      return Failure(Unsupported);
    }
    var bytes: Bytes := [];
    var calls := 1;
    while true
      invariant |bytes| <= size && bytes == content[..|bytes|]
      invariant NUL !in bytes
      decreases size - |bytes|
    {
      var offset := |bytes|;
      var remaining := SaturatingSub(size, offset);
      var maxBytes := Min(chunk, if remaining == 0 then 1 else remaining);
      var reply := Window(at(calls), offset, maxBytes, config.hostLimit);
      calls := calls + 1;
      if reply.Failure? {
        return Failure(ReadFailed(reply.error));
      }
      var page := reply.value;
      if page.revision != observed || page.size != size {
        return Failure(Conflict);
      }
      if page.offset != offset || |page.data| > maxBytes || (page.data == [] && !page.eof) {
        return Failure(Internal);
      }
      var end := offset + |page.data|;
      if end > size || page.eof != (end == size) {
        return Failure(Internal);
      }
      if NUL in page.data {
        assert exists i | 0 <= i < |content| :: content[i] == NUL by {
          var i :| 0 <= i < |page.data| && page.data[i] == NUL;
          assert content[offset + i] == NUL;
        }
        return Failure(Unsupported);
      }
      bytes := bytes + page.data;
      if page.eof {
        break;
      }
    }
    assert bytes == content;
    return if utf8(bytes) then Success(bytes) else Failure(Unsupported);
  }

  // Loading a file nobody changes.
  function Loaded(content: Bytes, config: LoadConfig, utf8: Bytes -> bool): Result<Bytes, LoadError> {
    if |content| > config.maxFileBytes then Failure(TooLarge)
    else if config.chunkBytes == 0 || config.hostLimit == 0 then Failure(Unsupported)
    else if NUL in content || !utf8(content) then Failure(Unsupported)
    else Success(content)
  }
}
