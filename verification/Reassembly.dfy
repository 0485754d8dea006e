/** Reassembly of a chunked transfer by uxsp/core/chunking.py, against the transfer that was created. */
module Reassembly {
  import opened Wrappers
  import opened Bytes
  import opened Sorting
  import opened Chunks
  import opened Chunking

  predicate ByIndex(a: Chunk, b: Chunk) {
    a.index <= b.index
  }

  lemma ByIndexOrders()
    ensures Orders(ByIndex)
  {}

  function BodiesOf(chunks: seq<Chunk>): (b: seq<ByteString>)
    ensures |b| == |chunks| && forall i | 0 <= i < |b| :: b[i] == chunks[i].body
  {
    seq(|chunks|, i requires 0 <= i < |chunks| => chunks[i].body)
  }

  /** The bodies joined by chunk index. */
  function Assembled(chunks: seq<Chunk>): ByteString {
    Join(BodiesOf(SortBy(chunks, ByIndex)))
  }

  predicate Agrees(c: Chunk, first: Chunk) {
    c.transferId == first.transferId && c.total == first.total && c.fileHash == first.fileHash && c.meta == first.meta
  }

  predicate DistinctIndices(chunks: seq<Chunk>) {
    forall i, j | 0 <= i < j < |chunks| :: chunks[i].index != chunks[j].index
  }

  /** One whole transfer: one description, no index twice, as many chunks as announced. */
  predicate Complete(chunks: seq<Chunk>) {
    && chunks != [] && (forall i | 0 <= i < |chunks| :: Agrees(chunks[i], chunks[0]))
    && DistinctIndices(chunks) && |chunks| == chunks[0].total
  }

  datatype Manifest = Manifest(transferId: Text, total: int, meta: Meta, fileHash: Text)

  function ManifestOf(first: Chunk): Manifest {
    Manifest(first.transferId, first.total, first.meta, first.fileHash)
  }

  function Decoded(env: Env, packed: seq<ByteString>): (r: Result<seq<Chunk>, ChunkError>)
    ensures r.Ok? ==> |r.value| == |packed| && forall i | 0 <= i < |packed| :: FromBytes(env, packed[i]) == Ok(r.value[i])
  {
    if packed == [] then Ok([])
    else match Decoded(env, packed[..|packed| - 1])
      case Err(e) => Err(e)
      case Ok(front) =>
        match FromBytes(env, packed[|packed| - 1])
        case Err(e) => Err(e)
        case Ok(c) => Ok(front + [c])
  }

  function Assemble(env: Env, packed: seq<ByteString>): Result<(Manifest, ByteString), ChunkError> {
    if packed == [] then Err(ValidationError)
    else match Decoded(env, packed)
      case Err(e) => Err(e)
      case Ok(chunks) =>
        if !Complete(chunks) || env.sha(Assembled(chunks)) != chunks[0].fileHash then Err(ValidationError)
        else Ok((ManifestOf(chunks[0]), Assembled(chunks)))
  }

  // ------------------------------------------------------------------ the method

  function IndexSet(chunks: seq<Chunk>): set<int> {
    set c | c in chunks :: c.index
  }

  lemma IndexSetStep(front: seq<Chunk>, last: Chunk)
    ensures IndexSet(front + [last]) == IndexSet(front) + {last.index}
    ensures DistinctIndices(front + [last]) <==> DistinctIndices(front) && last.index !in IndexSet(front)
  {
    var all := front + [last];
    if DistinctIndices(all) {
      assert forall i, j | 0 <= i < j < |front| :: all[i] == front[i] && all[j] == front[j];
      assert forall i | 0 <= i < |front| :: all[i].index != all[|front|].index;
    }
    assert forall i | 0 <= i < |front| :: front[i].index in IndexSet(front);
  }

  lemma {:induction false} IndexSetCounts(chunks: seq<Chunk>)
    ensures |IndexSet(chunks)| <= |chunks|
    ensures |IndexSet(chunks)| == |chunks| <==> DistinctIndices(chunks)
  {
    hide IndexSet, DistinctIndices;
    if chunks == [] {
      EmptyIndexSet();
    } else {
      var front, last := chunks[..|chunks| - 1], chunks[|chunks| - 1];
      IndexSetCounts(front);
      assert chunks == front + [last];
      IndexSetStep(front, last);
    }
  }

  lemma EmptyIndexSet()
    ensures IndexSet([]) == {} && DistinctIndices([])
  {}

  method DecodeAll(env: Env, packed: seq<ByteString>) returns (r: Result<seq<Chunk>, ChunkError>)
    ensures r == Decoded(env, packed)
  {
    hide FromBytes;
    var decoded: seq<Chunk> := [];
    for i := 0 to |packed|
      invariant Decoded(env, packed[..i]) == Ok(decoded)
    {
      assert packed[..i + 1][..i] == packed[..i];
      var c := FromBytes(env, packed[i]);
      if c.Err? {
        DecodingFails(env, packed, i);
        return Err(c.error);
      }
      decoded := decoded + [c.value];
    }
    assert packed[..|packed|] == packed;
    return Ok(decoded);
  }

  lemma {:induction false} DecodingFails(env: Env, packed: seq<ByteString>, i: nat)
    requires i < |packed| && Decoded(env, packed[..i]).Ok? && FromBytes(env, packed[i]).Err?
    ensures Decoded(env, packed) == Err(FromBytes(env, packed[i]).error)
    decreases |packed|
  {
    hide FromBytes;
    var front := packed[..|packed| - 1];
    if i < |front| {
      assert front[..i] == packed[..i];
      DecodingFails(env, front, i);
    }
  }

  method Reassemble(env: Env, packed: seq<ByteString>) returns (r: Result<(Manifest, ByteString), ChunkError>)
    ensures r == Assemble(env, packed)
  {
    hide FromBytes, SortBy, Decoded, DistinctIndices;
    if packed == [] {
      return Err(ValidationError);
    }
    var all := DecodeAll(env, packed);
    if all.Err? {
      return Err(all.error);
    }
    var decoded := all.value;
    var first := decoded[0];
    for i := 1 to |decoded|
      invariant forall k | 0 <= k < i :: Agrees(decoded[k], first)
    {
      var c := decoded[i];
      if c.transferId != first.transferId || c.total != first.total || c.fileHash != first.fileHash || c.meta != first.meta {
        return Err(ValidationError);
      }
    }
    var indexSet := IndexSet(decoded);
    IndexSetCounts(decoded);
    if |indexSet| != |decoded| {
      return Err(ValidationError);
    }
    if |decoded| != first.total {
      return Err(ValidationError);
    }
    var assembled := JoinAll(SortBy(decoded, ByIndex));
    if env.sha(assembled) != first.fileHash {
      return Err(ValidationError);
    }
    return Ok((ManifestOf(first), assembled));
  }

  /** b"".join(c.body for c in sorted) */
  method JoinAll(sorted: seq<Chunk>) returns (joined: ByteString)
    ensures joined == Join(BodiesOf(sorted))
  {
    joined := [];
    for i := 0 to |sorted|
      invariant joined == Join(BodiesOf(sorted[..i]))
    {
      assert BodiesOf(sorted[..i + 1]) == BodiesOf(sorted[..i]) + [sorted[i].body];
      JoinAppend(BodiesOf(sorted[..i]), sorted[i].body);
      joined := joined + sorted[i].body;
    }
    assert sorted[..|sorted|] == sorted;
  }

  // ------------------------------------------------------------------ pigeonhole

  ghost predicate IndicesInOrder(sorted: seq<Chunk>) {
    forall i | 0 <= i < |sorted| :: sorted[i].index == i
  }

  lemma {:induction false} IndexAtLeast(sorted: seq<Chunk>, i: nat)
    requires SortedBy(sorted, ByIndex) && DistinctIndices(sorted) && i < |sorted|
    requires forall k | 0 <= k < |sorted| :: 0 <= sorted[k].index
    ensures sorted[i].index >= i
  {
    if i > 0 {
      IndexAtLeast(sorted, i - 1);
      assert ByIndex(sorted[i - 1], sorted[i]);
    }
  }

  lemma {:induction false} IndexAtMost(sorted: seq<Chunk>, i: nat)
    requires SortedBy(sorted, ByIndex) && DistinctIndices(sorted) && i < |sorted|
    requires forall k | 0 <= k < |sorted| :: sorted[k].index < |sorted|
    ensures sorted[i].index <= i
    decreases |sorted| - i
  {
    if i < |sorted| - 1 {
      IndexAtMost(sorted, i + 1);
      assert ByIndex(sorted[i], sorted[i + 1]);
    }
  }

  lemma DistinctAreUntied(chunks: seq<Chunk>)
    requires DistinctIndices(chunks)
    ensures Untied(chunks, ByIndex)
  {}

  lemma {:induction false} SortKeepsDistinct(chunks: seq<Chunk>)
    requires DistinctIndices(chunks)
    ensures DistinctIndices(SortBy(chunks, ByIndex))
  {
    var s := SortBy(chunks, ByIndex);
    SameIndices(chunks, s);
    IndexSetCounts(chunks);
    IndexSetCounts(s);
  }

  lemma SameIndices(chunks: seq<Chunk>, other: seq<Chunk>)
    requires multiset(chunks) == multiset(other)
    ensures IndexSet(chunks) == IndexSet(other)
  {
    forall c ensures c in chunks <==> c in other {
      SameElements(chunks, other, c);
    }
  }

  /** The checks of a reassembly leave exactly the indices 0 to total - 1, once each. */
  lemma CompleteIsDense(env: Env, chunks: seq<Chunk>)
    requires Complete(chunks) && forall c | c in chunks :: Sound(env, c)
    ensures IndicesInOrder(SortBy(chunks, ByIndex))
  {
    hide SortBy;
    var s := SortBy(chunks, ByIndex);
    ByIndexOrders();
    SortSorted(chunks, ByIndex);
    SortKeepsDistinct(chunks);
    forall k | 0 <= k < |s| ensures 0 <= s[k].index < |s| {
      SameElements(s, chunks, s[k]);
      var j :| 0 <= j < |chunks| && chunks[j] == s[k];
      assert Agrees(chunks[j], chunks[0]) && Sound(env, chunks[j]);
    }
    forall i | 0 <= i < |s| ensures s[i].index == i {
      IndexAtLeast(s, i);
      IndexAtMost(s, i);
    }
  }

  // ------------------------------------------------------------------ round trip

  lemma CreatedChunk(env: Env, id: Text, data: ByteString, meta: Meta, size: nat, i: nat)
    requires env.Correct() && size > 0 && i < |Slices(data, size)|
    ensures Hashed(env, ChunksOf(env, id, data, meta, size)[i])
    ensures Sound(env, ChunksOf(env, id, data, meta, size)[i]) <==> meta.Valid() && id != []
  {
    hide Slices, Lower;
  }

  /** A created transfer is complete in any order, and assembles to its data. */
  lemma AnyOrderAssembles(env: Env, id: Text, data: ByteString, meta: Meta, size: nat, chunks: seq<Chunk>)
    requires size > 0 && multiset(chunks) == multiset(ChunksOf(env, id, data, meta, size))
    ensures Complete(chunks) && Assembled(chunks) == data && chunks[0].fileHash == env.sha(data)
    ensures ManifestOf(chunks[0]) == Manifest(id, |Slices(data, size)|, meta, env.sha(data))
  {
    hide SortBy, Slices;
    var created := ChunksOf(env, id, data, meta, size);
    SameLength(chunks, created);
    forall i | 0 <= i < |chunks| ensures chunks[i] in created {
      SameElements(chunks, created, chunks[i]);
    }
    SameIndices(chunks, created);
    IndexSetCounts(chunks);
    IndexSetCounts(created);
    ByIndexOrders();
    SortSorted(chunks, ByIndex);
    DistinctAreUntied(created);
    SortedUnique(created, SortBy(chunks, ByIndex), ByIndex);
    assert BodiesOf(created) == Slices(data, size);
    JoinSlices(data, size);
  }

  lemma {:induction false} DecodedReordering(env: Env, chunks: seq<Chunk>, packed: seq<ByteString>, received: seq<ByteString>)
    returns (decoded: seq<Chunk>)
    requires |packed| == |chunks| && forall i | 0 <= i < |packed| :: FromBytes(env, packed[i]) == Ok(chunks[i])
    requires multiset(received) == multiset(packed)
    ensures |decoded| == |received| && forall i | 0 <= i < |received| :: FromBytes(env, received[i]) == Ok(decoded[i])
    ensures multiset(decoded) == multiset(chunks)
    decreases |received|
  {
    hide FromBytes;
    SameLength(received, packed);
    if received == [] {
      decoded := [];
    } else {
      var k := Elsewhere(received, packed);
      assert received[..0] + received[1..] == received[1..];
      var rest := DecodedReordering(env, chunks[..k] + chunks[k + 1..], packed[..k] + packed[k + 1..], received[1..]);
      decoded := [chunks[k]] + rest;
      RemoveOne(chunks, k);
    }
  }

  lemma {:induction false} DecodedIs(env: Env, packed: seq<ByteString>, chunks: seq<Chunk>)
    requires |packed| == |chunks| && forall i | 0 <= i < |packed| :: FromBytes(env, packed[i]) == Ok(chunks[i])
    ensures Decoded(env, packed) == Ok(chunks)
  {
    hide FromBytes;
    if packed != [] {
      DecodedIs(env, packed[..|packed| - 1], chunks[..|chunks| - 1]);
      assert chunks[..|chunks| - 1] + [chunks[|chunks| - 1]] == chunks;
    }
  }

  /**
   Whatever order the packed chunks of a transfer arrive in, they give back its data if the description
   is one the receiver accepts, and are refused otherwise.
   */
  lemma RoundTrip(env: Env, id: Text, data: ByteString, meta: Meta, size: nat, packed: seq<ByteString>, received: seq<ByteString>)
    requires env.Correct() && size > 0 && Packs(env, ChunksOf(env, id, data, meta, size), packed)
    requires multiset(received) == multiset(packed)
    ensures Assemble(env, received) ==
      if meta.Valid() && id != [] then Ok((Manifest(id, |Slices(data, size)|, meta, env.sha(data)), data))
      else Err(ValidationError)
  {
    hide FromBytes, ToBytes, Complete, Assembled, Slices, Decoded, Sound;
    var created := ChunksOf(env, id, data, meta, size);
    SameLength(received, packed);
    forall i | 0 <= i < |packed|
      ensures FromBytes(env, packed[i]) == if meta.Valid() && id != [] then Ok(created[i]) else Err(ValidationError)
    {
      CreatedChunk(env, id, data, meta, size, i);
      FromBytesInvertsToBytes(env, created[i]);
    }
    if meta.Valid() && id != [] {
      var chunks := DecodedReordering(env, created, packed, received);
      DecodedIs(env, received, chunks);
      AnyOrderAssembles(env, id, data, meta, size, chunks);
    } else {
      SameElements(received, packed, received[0]);
      assert received[..0] == [];
      EmptyDecodes(env);
      assert FromBytes(env, received[0]) == Err(ValidationError);
      DecodingFails(env, received, 0);
    }
  }

  lemma EmptyDecodes(env: Env)
    ensures Decoded(env, []) == Ok([])
  {}

  /** What reassembles is one transfer under one description, and has the digest all its chunks announce. */
  lemma AssembledMeans(env: Env, packed: seq<ByteString>)
    requires Assemble(env, packed).Ok?
    ensures var (m, data) := Assemble(env, packed).value;
      && env.sha(data) == m.fileHash && m.total == |packed|
      && forall i | 0 <= i < |packed| ::
           var c := FromBytes(env, packed[i]);
           c.Ok? && c.value.transferId == m.transferId && c.value.total == m.total && c.value.meta == m.meta && c.value.fileHash == m.fileHash
  {
    hide FromBytes, Assembled, DistinctIndices;
    var chunks := Decoded(env, packed).value;
    forall i | 0 <= i < |packed| ensures FromBytes(env, packed[i]) == Ok(chunks[i]) && Agrees(chunks[i], chunks[0]) {}
  }
}
