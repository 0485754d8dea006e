/** The JavaScript side of chunked transfer, sdks/js/src/chunking.ts, against the Python one. */
module ChunkingJs {
  import opened Wrappers
  import opened Bytes
  import opened Sorting
  import opened Chunks
  import opened Chunking
  import opened Reassembly

  /** What the || defaults of the options and the UXSPChunk constructor turn a description into. */
  function Defaulted(m: Meta): Meta {
    Meta(if m.kind == [] then Ascii("binary") else m.kind,
         if m.filename == Some([]) then None else m.filename,
         if m.contentType == [] then Ascii("application/octet-stream") else m.contentType,
         if m.encoding == Some([]) then None else m.encoding)
  }

  method CreateChunkedTransfer(env: Env, id: Text, data: ByteString, size: int, meta: Meta)
    returns (r: Result<seq<Chunk>, ChunkError>)
    ensures r.Err? <==> size <= 0
    ensures r.Ok? ==> r.value == ChunksOf(env, id, data, Defaulted(meta), size)
  {
    if size <= 0 {
      return Err(ValidationError);
    }
    var totalLen := |data|;
    var ceiling := (totalLen + size - 1) / size;
    var totalChunks := if ceiling > 1 then ceiling else 1;
    SliceCountIsCeil(data, size);
    EmptyCeil(size);
    var chunks: seq<Chunk> := [];
    ghost var created := ChunksOf(env, id, data, Defaulted(meta), size);
    for i := 0 to totalChunks
      invariant chunks == created[..i]
    {
      SliceAt(data, size, i);
      var start := i * size;
      var end := Min(start + size, totalLen);
      var slice := data[start..end];
      chunks := chunks + [Chunk(id, i, totalChunks, env.sha(data), env.sha(slice), Defaulted(meta), slice)];
    }
    return Ok(chunks);
  }

  lemma EmptyCeil(size: nat)
    requires size > 0
    ensures Ceil(0, size) == 0
  {}

  // ------------------------------------------------------------------ reassembly

  predicate Fits(c: Chunk, first: Chunk, i: nat) {
    c.transferId == first.transferId && c.index == i && c.fileHash == first.fileHash
  }

  /** The checks before the buffer is filled. */
  predicate Complete(chunks: seq<Chunk>) {
    && chunks != [] && |chunks| == chunks[0].total
    && var sorted := SortBy(chunks, ByIndex);
       forall i | 0 <= i < |sorted| :: Fits(sorted[i], chunks[0], i)
  }

  predicate Accepts(env: Env, chunks: seq<Chunk>) {
    Complete(chunks) && Lower(env.sha(Assembled(chunks))) == Lower(chunks[0].fileHash)
  }

  function TotalBytes(chunks: seq<Chunk>): nat {
    if chunks == [] then 0 else TotalBytes(chunks[..|chunks| - 1]) + |chunks[|chunks| - 1].body|
  }

  lemma {:induction false} TotalBytesUpTo(chunks: seq<Chunk>, k: nat)
    requires k <= |chunks|
    ensures TotalBytes(chunks[..k]) <= TotalBytes(chunks)
  {
    if k < |chunks| {
      TotalBytesUpTo(chunks[..|chunks| - 1], k);
      assert chunks[..|chunks| - 1][..k] == chunks[..k];
    } else {
      assert chunks[..k] == chunks;
    }
  }

  /** Uint8Array.prototype.set */
  method SetAt(buffer: array<Byte>, body: ByteString, offset: nat)
    requires offset + |body| <= buffer.Length
    modifies buffer
    ensures buffer[..offset + |body|] == old(buffer[..offset]) + body
  {
    forall k | 0 <= k < |body| {
      buffer[offset + k] := body[k];
    }
  }

  method Fill(sorted: seq<Chunk>, totalBytes: nat) returns (buffer: array<Byte>)
    requires totalBytes == TotalBytes(sorted)
    ensures fresh(buffer) && buffer[..] == Join(BodiesOf(sorted))
  {
    buffer := new Byte[totalBytes](_ => 0);
    var offset := 0;
    for i := 0 to |sorted|
      invariant offset == TotalBytes(sorted[..i]) <= buffer.Length
      invariant buffer[..offset] == Join(BodiesOf(sorted[..i]))
    {
      var body := sorted[i].body;
      assert sorted[..i + 1][..i] == sorted[..i];
      assert BodiesOf(sorted[..i + 1]) == BodiesOf(sorted[..i]) + [body];
      JoinAppend(BodiesOf(sorted[..i]), body);
      TotalBytesUpTo(sorted, i + 1);
      SetAt(buffer, body, offset);
      offset := offset + |body|;
    }
    assert sorted[..|sorted|] == sorted;
    assert buffer[..] == buffer[..offset];
  }

  method ReassembleChunkedTransfer(env: Env, chunks: seq<Chunk>) returns (r: Result<array<Byte>, ChunkError>)
    ensures r.Ok? <==> Accepts(env, chunks)
    ensures r.Ok? ==> fresh(r.value) && r.value[..] == Assembled(chunks)
    ensures r.Ok? ==> chunks != [] && |chunks| == chunks[0].total && Lower(env.sha(r.value[..])) == Lower(chunks[0].fileHash)
    ensures r.Err? ==> r.error == ValidationError
  {
    hide SortBy, Lower;
    if |chunks| == 0 {
      return Err(ValidationError);
    }
    var first := chunks[0];
    if |chunks| != first.total {
      return Err(ValidationError);
    }
    var sorted := SortBy(chunks, ByIndex);
    var totalBytes := 0;
    for i := 0 to first.total
      invariant forall k | 0 <= k < i :: Fits(sorted[k], first, k)
      invariant totalBytes == TotalBytes(sorted[..i])
    {
      var chunk := sorted[i];
      assert sorted[..i + 1][..i] == sorted[..i];
      if chunk.transferId != first.transferId {
        return Err(ValidationError);
      }
      if chunk.index != i {
        return Err(ValidationError);
      }
      if chunk.fileHash != first.fileHash {
        return Err(ValidationError);
      }
      totalBytes := totalBytes + |chunk.body|;
    }
    assert sorted[..|sorted|] == sorted;
    var reassembled := Fill(sorted, totalBytes);
    if Lower(env.sha(reassembled[..])) != Lower(first.fileHash) {
      return Err(ValidationError);
    }
    return Ok(reassembled);
  }

  // ------------------------------------------------------------------ the two sides compared

  /** What only the Python side checks across chunks. */
  predicate SameDescription(chunks: seq<Chunk>) {
    forall i | 0 <= i < |chunks| :: chunks[i].total == chunks[0].total && chunks[i].meta == chunks[0].meta
  }

  lemma InOrderIsDistinct(chunks: seq<Chunk>)
    requires IndicesInOrder(SortBy(chunks, ByIndex))
    ensures DistinctIndices(chunks)
  {
    hide SortBy;
    var s := SortBy(chunks, ByIndex);
    assert DistinctIndices(s);
    SameIndices(chunks, s);
    IndexSetCounts(chunks);
    IndexSetCounts(s);
  }

  /** On chunks that decoded, Python accepts exactly what JavaScript accepts under one description. */
  lemma PythonIsStricter(env: Env, chunks: seq<Chunk>)
    requires forall c | c in chunks :: Sound(env, c)
    ensures Reassembly.Complete(chunks) <==> Complete(chunks) && SameDescription(chunks)
  {
    hide SortBy, Sound;
    var s := SortBy(chunks, ByIndex);
    forall c ensures c in s <==> c in chunks {
      SameElements(s, chunks, c);
    }
    if Reassembly.Complete(chunks) {
      CompleteIsDense(env, chunks);
      forall i | 0 <= i < |s| ensures Fits(s[i], chunks[0], i) {
        assert s[i] in chunks;
      }
    }
    if Complete(chunks) && SameDescription(chunks) {
      assert forall i | 0 <= i < |s| :: Fits(s[i], chunks[0], i);
      InOrderIsDistinct(chunks);
      forall i | 0 <= i < |chunks| ensures Agrees(chunks[i], chunks[0]) {
        assert chunks[i] in s;
      }
    }
  }

  /** Any order of the chunks one side created reassembles on the other. */
  lemma PythonToJs(env: Env, id: Text, data: ByteString, meta: Meta, size: nat, chunks: seq<Chunk>)
    requires env.Correct() && size > 0 && meta.Valid() && id != []
    requires multiset(chunks) == multiset(ChunksOf(env, id, data, meta, size))
    ensures Accepts(env, chunks) && Assembled(chunks) == data
  {
    hide Slices, Sound, SortBy, Lower, Reassembly.Complete, Complete, SameDescription, Assembled;
    var created := ChunksOf(env, id, data, meta, size);
    AnyOrderAssembles(env, id, data, meta, size, chunks);
    forall c | c in chunks ensures Sound(env, c) {
      SameElements(chunks, created, c);
      var i :| 0 <= i < |created| && created[i] == c;
      CreatedChunk(env, id, data, meta, size, i);
    }
    PythonIsStricter(env, chunks);
  }

  /** What JavaScript accepts is one transfer: one id and digest, and every index from 0 to total - 1. */
  lemma AcceptedMeans(env: Env, chunks: seq<Chunk>)
    requires Accepts(env, chunks)
    ensures chunks != [] && |chunks| == chunks[0].total && Lower(env.sha(Assembled(chunks))) == Lower(chunks[0].fileHash)
    ensures forall c | c in chunks :: c.transferId == chunks[0].transferId && c.fileHash == chunks[0].fileHash && 0 <= c.index < chunks[0].total
    ensures forall i :: i in IndexSet(chunks) <==> 0 <= i < chunks[0].total
  {
    hide SortBy, Lower, Assembled;
    var s := SortBy(chunks, ByIndex);
    forall c | c in chunks
      ensures c.transferId == chunks[0].transferId && c.fileHash == chunks[0].fileHash && 0 <= c.index < chunks[0].total
    {
      SameElements(s, chunks, c);
      var i :| 0 <= i < |s| && s[i] == c;
      assert Fits(s[i], chunks[0], i);
    }
    forall i | 0 <= i < chunks[0].total ensures i in IndexSet(chunks) {
      assert Fits(s[i], chunks[0], i);
      SameElements(s, chunks, s[i]);
    }
  }

  /** The defaults: what is given stays, what is empty is filled in or dropped. */
  lemma DefaultedMeans(m: Meta)
    ensures var d := Defaulted(m);
      && d.kind == (if m.kind != [] then m.kind else Ascii("binary"))
      && d.contentType == (if m.contentType != [] then m.contentType else Ascii("application/octet-stream"))
      && (d.filename.None? <==> m.filename.None? || m.filename.value == []) && (d.filename.Some? ==> d.filename == m.filename)
      && (d.encoding.None? <==> m.encoding.None? || m.encoding.value == []) && (d.encoding.Some? ==> d.encoding == m.encoding)
      && (d.kind in KINDS ==> d.Valid())
  {}
}
