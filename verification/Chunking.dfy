/**
 Splitting and reassembly: uxsp/core/chunking.py and the transfer functions of sdks/js/src/chunking.ts.
 */
module Chunking {
  import opened Wrappers
  import opened Bytes
  import opened Sorting
  import opened Chunks

  // ------------------------------------------------------------------ slices

  function Slices(data: ByteString, size: nat): (s: seq<ByteString>)
    requires size > 0
    ensures |s| > 0
    decreases |data|
  {
    if |data| <= size then [data] else [data[..size]] + Slices(data[size..], size)
  }

  function Join(bodies: seq<ByteString>): ByteString {
    if bodies == [] then [] else bodies[0] + Join(bodies[1..])
  }

  lemma {:induction false} JoinSlices(data: ByteString, size: nat)
    requires size > 0
    ensures Join(Slices(data, size)) == data
    decreases |data|
  {
    if |data| <= size {
      assert Slices(data, size)[1..] == [];
    } else {
      JoinSlices(data[size..], size);
      assert Slices(data, size)[1..] == Slices(data[size..], size);
    }
  }

  function Min(a: nat, b: nat): nat {
    if a <= b then a else b
  }

  lemma {:induction false} SliceCount(data: ByteString, size: nat)
    requires size > 0
    ensures var n := |Slices(data, size)|;
      n == 1 || (n - 1) * size < |data|
    ensures |data| <= |Slices(data, size)| * size
    decreases |data|
  {
    if |data| > size {
      SliceCount(data[size..], size);
      var n := |Slices(data[size..], size)|;
      assert (n + 1) * size == n * size + size && n * size == (n - 1) * size + size;
    }
  }

  /** ceil(len / size) as both SDKs compute it. */
  function Ceil(len: nat, size: nat): nat
    requires size > 0
  {
    (len + size - 1) / size
  }

  lemma QuotientUnique(len: nat, size: nat, n: nat)
    requires size > 0 && n > 0 && (n - 1) * size < len <= n * size
    ensures Ceil(len, size) == n
  {
    var m := len + size - 1;
    var q, r := m / size, m % size;
    assert m == q * size + r;
    assert (n - 1) * size + size == n * size;
    assert n * size <= m < n * size + size;
    MulMonotone(q, n - 1, size);
    MulMonotone(n + 1, q, size);
    assert (n + 1) * size == n * size + size;
  }

  lemma MulMonotone(a: int, b: int, k: nat)
    ensures a <= b ==> a * k <= b * k
  {}

  lemma SliceOfRest(data: ByteString, size: nat, lo: nat, hi: nat)
    requires size <= |data| && lo <= hi <= |data| - size
    ensures data[size..][lo..hi] == data[lo + size..hi + size]
  {}

  lemma SliceCountIsCeil(data: ByteString, size: nat)
    requires size > 0
    ensures |Slices(data, size)| == (if data == [] then 1 else Ceil(|data|, size))
  {
    SliceCount(data, size);
    if data != [] {
      var n := |Slices(data, size)|;
      assert n == 1 ==> (n - 1) * size == 0;
      QuotientUnique(|data|, size, n);
    }
  }

  /** Where each slice lies. */
  lemma {:induction false} SliceAt(data: ByteString, size: nat, i: nat)
    requires size > 0 && i < |Slices(data, size)|
    ensures i * size <= |data| && Slices(data, size)[i] == data[i * size..Min(i * size + size, |data|)]
    decreases i
  {
    if i > 0 {
      var rest, k := data[size..], (i - 1) * size;
      SliceAt(rest, size, i - 1);
      assert k + size == i * size;
      SliceOfRest(data, size, k, Min(k + size, |rest|));
    }
  }

  lemma {:induction false} JoinAppend(a: seq<ByteString>, b: ByteString)
    ensures Join(a + [b]) == Join(a) + b
  {
    if a == [] {
      assert [b][1..] == [];
    } else {
      assert (a + [b])[1..] == a[1..] + [b];
      JoinAppend(a[1..], b);
    }
  }

  // ------------------------------------------------------------------ creating a transfer

  /** The chunks of one transfer. */
  function ChunkOf(env: Env, id: Text, data: ByteString, meta: Meta, total: nat, i: nat, body: ByteString): Chunk {
    Chunk(id, i, total, env.sha(data), env.sha(body), meta, body)
  }

  function ChunksOf(env: Env, id: Text, data: ByteString, meta: Meta, size: nat): (s: seq<Chunk>)
    requires size > 0
    ensures |s| == |Slices(data, size)|
    ensures forall i | 0 <= i < |s| :: s[i] == ChunkOf(env, id, data, meta, |s|, i, Slices(data, size)[i])
  {
    var bodies := Slices(data, size);
    seq(|bodies|, i requires 0 <= i < |bodies| => ChunkOf(env, id, data, meta, |bodies|, i, bodies[i]))
  }

  /** packed are the wire forms of chunks, in order. */
  ghost predicate Packs(env: Env, chunks: seq<Chunk>, packed: seq<ByteString>) {
    |packed| == |chunks| && forall i | 0 <= i < |packed| :: ToBytes(env, chunks[i]) == Ok(packed[i])
  }

  method CreateChunkedTransfer(env: Env, id: Text, data: ByteString, size: int, meta: Meta)
    returns (r: Result<seq<ByteString>, ChunkError>)
    ensures r.Ok? ==> size > 0 && Packs(env, ChunksOf(env, id, data, meta, size), r.value)
    ensures r.Err? <==> size <= 0 || exists c :: c in ChunksOf(env, id, data, meta, size) && ToBytes(env, c).Err?
  {
    hide ToBytes;
    if size <= 0 {
      return Err(ValidationError);
    }
    var bodies := CutUp(data, size);
    var packed: seq<ByteString> := [];
    ghost var chunks := ChunksOf(env, id, data, meta, size);
    for i := 0 to |bodies|
      invariant |packed| == i && forall k | 0 <= k < i :: ToBytes(env, chunks[k]) == Ok(packed[k])
    {
      var b := ToBytes(env, ChunkOf(env, id, data, meta, |bodies|, i, bodies[i]));
      if b.Err? {
        assert chunks[i] in chunks;
        return Err(b.error);
      }
      packed := packed + [b.value];
    }
    return Ok(packed);
  }

  /** [raw[i : i + chunk_size] for i in range(0, len(raw), chunk_size)], and one empty body for no data. */
  method CutUp(data: ByteString, size: nat) returns (bodies: seq<ByteString>)
    requires size > 0
    ensures bodies == Slices(data, size)
  {
    if data == [] {
      return [[]];
    }
    bodies := [];
    var i := 0;
    while i < |data|
      invariant 0 <= i
      invariant i < |data| ==> bodies + Slices(data[i..], size) == Slices(data, size)
      invariant i >= |data| ==> bodies == Slices(data, size)
      decreases |data| - i
    {
      var body := data[i..Min(i + size, |data|)];
      if i + size < |data| {
        assert Slices(data[i..], size) == [body] + Slices(data[i + size..], size) by {
          assert data[i..][..size] == body && data[i..][size..] == data[i + size..];
        }
        assert bodies + Slices(data[i..], size) == (bodies + [body]) + Slices(data[i + size..], size);
      } else {
        assert body == data[i..] && Slices(data[i..], size) == [body];
      }
      bodies := bodies + [body];
      i := i + size;
    }
  }

  /** The generator: hash in a first pass over the file, then emit while reading it again. */
  method CreateChunkedStream(env: Env, id: Text, file: ByteString, size: int, meta: Meta)
    returns (yielded: seq<ByteString>, error: Option<ChunkError>)
    ensures error.None? ==> size > 0 && Packs(env, ChunksOf(env, id, file, meta, size), yielded)
    ensures error.Some? <==> size <= 0 || exists c :: c in ChunksOf(env, id, file, meta, size) && ToBytes(env, c).Err?
  {
    hide ToBytes;
    yielded := [];
    if size <= 0 {
      return yielded, Some(ValidationError);
    }
    var total := if file == [] then 1 else (|file| + size - 1) / size;
    SliceCountIsCeil(file, size);
    var fileHash := HashFile(env, file, size);
    ghost var chunks := ChunksOf(env, id, file, meta, size);
    if file == [] {
      var b := ToBytes(env, Chunk(id, 0, total, fileHash, env.sha([]), meta, []));
      if b.Err? {
        assert chunks[0] in chunks;
        return yielded, Some(b.error);
      }
      return [b.value], None;
    }
    var position := 0;
    for i := 0 to total
      invariant position == Min(i * size, |file|)
      invariant |yielded| == i && forall k | 0 <= k < i :: ToBytes(env, chunks[k]) == Ok(yielded[k])
    {
      SliceAt(file, size, i);
      SliceNotEmpty(file, size, i);
      assert (i + 1) * size == i * size + size;
      var body := file[position..Min(position + size, |file|)];
      if body == [] {
        assert false;
        break;
      }
      position := position + |body|;
      var b := ToBytes(env, Chunk(id, i, total, fileHash, env.sha(body), meta, body));
      if b.Err? {
        assert chunks[i] in chunks;
        return yielded, Some(b.error);
      }
      yielded := yielded + [b.value];
    }
    return yielded, None;
  }

  /** The incremental digest of the first pass is the digest of the whole file. */
  method HashFile(env: Env, file: ByteString, size: nat) returns (digest: Text)
    requires size > 0
    ensures digest == env.sha(file)
  {
    var fed: ByteString := [];
    while |fed| < |file|
      invariant |fed| <= |file| && fed == file[..|fed|]
      decreases |file| - |fed|
    {
      fed := fed + file[|fed|..Min(|fed| + size, |file|)];
    }
    assert fed == file;
    return env.sha(fed);
  }

  lemma SliceNotEmpty(data: ByteString, size: nat, i: nat)
    requires size > 0 && data != [] && i < |Slices(data, size)|
    ensures i * size < |data|
  {
    SliceCount(data, size);
    var n := |Slices(data, size)|;
    MulMonotone(i, n - 1, size);
  }
}
