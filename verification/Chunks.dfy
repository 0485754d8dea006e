/** One chunk of a large transfer and its wire format, from uxsp/core/chunking.py. */
module Chunks {
  import opened Wrappers
  import opened Bytes

  datatype ChunkError = FormatError | ValidationError

  const MAGIC := Ascii("UXSP-CHUNK-1")
  const HEADER_LEN_BYTES: nat := 4
  const MAX_HEADER_LEN: nat := 64 * 1024
  const KINDS: seq<Text> := [Ascii("file"), Ascii("binary"), Ascii("text")]

  datatype Chunk = Chunk(transferId: Text, index: int, total: int, fileHash: Text, chunkHash: Text, meta: Meta, body: ByteString)

  datatype Meta = Meta(kind: Text, filename: Option<Text>, contentType: Text, encoding: Option<Text>) {
    predicate Valid() {
      kind in KINDS && contentType != [] && encoding != Some([])
    }
  }

  /** A value in the JSON header; Other is anything but null, a string or an integer. */
  datatype Json = Null | Str(s: Text) | Num(n: int) | Other

  /** The header dictionary; an absent key reads as Null. */
  datatype Header = Header(transferId: Json, index: Json, total: Json, fileHash: Json, chunkHash: Json, kind: Json,
                           filename: Json, contentType: Json, encoding: Json, bodyLen: Json)

  /** SHA-256 in hex, the JSON codec, and what bytes.fromhex accepts. */
  datatype Env = Env(sha: ByteString -> Text, dump: Header -> ByteString, load: ByteString -> Option<Header>,
                     fromHexAccepts: Text -> bool)
  {
    ghost predicate Correct() {
      && (forall h :: load(dump(h)) == Some(h))
      && (forall b :: |sha(b)| == 64 && fromHexAccepts(sha(b)) && Lower(sha(b)) == sha(b))
    }
  }

  /** str.lower on ASCII. */
  function Lower(t: Text): (r: Text)
    ensures |r| == |t|
  {
    seq(|t|, i requires 0 <= i < |t| => if 65 <= t[i] <= 90 then t[i] + 32 else t[i])
  }

  function Optional(t: Option<Text>): Json {
    if t.Some? then Str(t.value) else Null
  }

  function HeaderOf(c: Chunk): Header {
    Header(Str(c.transferId), Num(c.index), Num(c.total), Str(c.fileHash), Str(c.chunkHash), Str(c.meta.kind),
           Optional(c.meta.filename), Str(c.meta.contentType), Optional(c.meta.encoding), Num(|c.body|))
  }

  /** UXSPChunk.to_bytes */
  function ToBytes(env: Env, c: Chunk): Result<ByteString, ChunkError> {
    var header := env.dump(HeaderOf(c));
    if |header| > MAX_HEADER_LEN then Err(ValidationError)
    else Ok(MAGIC + BigEndian(|header|, HEADER_LEN_BYTES) + header + c.body)
  }

  function HashField(env: Env, j: Json): Option<Text> {
    if j.Str? && |j.s| == 64 && env.fromHexAccepts(j.s) then Some(Lower(j.s)) else None
  }

  function TextField(j: Json): Option<Text> {
    if j.Str? then Some(j.s) else None
  }

  /** The header checks of from_bytes, in order; every failure is a ChunkValidationError. */
  function Validated(env: Env, h: Header, body: ByteString): Result<Chunk, ChunkError> {
    if h.bodyLen != Num(|body|) then Err(ValidationError)
    else if !h.kind.Str? || h.kind.s !in KINDS then Err(ValidationError)
    else if !h.filename.Null? && !h.filename.Str? then Err(ValidationError)
    else if !h.contentType.Str? || h.contentType.s == [] then Err(ValidationError)
    else if !h.encoding.Null? && (!h.encoding.Str? || h.encoding.s == []) then Err(ValidationError)
    else if !h.transferId.Str? || h.transferId.s == [] then Err(ValidationError)
    else if !h.index.Num? || h.index.n < 0 || !h.total.Num? || h.total.n <= 0 then Err(ValidationError)
    else if h.index.n >= h.total.n then Err(ValidationError)
    else
      var fileHash, chunkHash := HashField(env, h.fileHash), HashField(env, h.chunkHash);
      if fileHash.None? || chunkHash.None? || env.sha(body) != chunkHash.value then Err(ValidationError)
      else
        Ok(Chunk(h.transferId.s, h.index.n, h.total.n, fileHash.value, chunkHash.value,
                 Meta(h.kind.s, TextField(h.filename), h.contentType.s, TextField(h.encoding)), body))
  }

  /** UXSPChunk.from_bytes */
  function FromBytes(env: Env, raw: ByteString): Result<Chunk, ChunkError> {
    var start := |MAGIC| + HEADER_LEN_BYTES;
    if |raw| < start || raw[..|MAGIC|] != MAGIC then Err(FormatError)
    else
      var headerLen := FromBigEndian(raw[|MAGIC|..start]);
      if headerLen > MAX_HEADER_LEN || start + headerLen > |raw| then Err(FormatError)
      else match env.load(raw[start..start + headerLen])
        case None => Err(FormatError)
        case Some(h) => Validated(env, h, raw[start + headerLen..])
  }

  /** What every decoded chunk satisfies. */
  predicate Sound(env: Env, c: Chunk) {
    0 <= c.index < c.total && c.meta.Valid() && c.transferId != [] && c.chunkHash == env.sha(c.body)
  }

  lemma DecodedIsSound(env: Env, raw: ByteString)
    ensures FromBytes(env, raw).Ok? ==> Sound(env, FromBytes(env, raw).value)
  {}

  lemma Sections(header: ByteString, body: ByteString)
    requires |header| <= MAX_HEADER_LEN
    ensures var raw := MAGIC + BigEndian(|header|, HEADER_LEN_BYTES) + header + body;
      var start := |MAGIC| + HEADER_LEN_BYTES;
      && |raw| == start + |header| + |body| && raw[..|MAGIC|] == MAGIC
      && FromBigEndian(raw[|MAGIC|..start]) == |header|
      && raw[start..start + |header|] == header && raw[start + |header|..] == body
  {
    PowersOf256();
    FromBigEndianInverse(|header|, HEADER_LEN_BYTES);
    var raw := MAGIC + BigEndian(|header|, HEADER_LEN_BYTES) + header + body;
    assert raw[|MAGIC|..|MAGIC| + HEADER_LEN_BYTES] == BigEndian(|header|, HEADER_LEN_BYTES);
  }

  /** A chunk whose hashes are digests. */
  ghost predicate Hashed(env: Env, c: Chunk) {
    && c.chunkHash == env.sha(c.body)
    && Lower(c.fileHash) == c.fileHash && |c.fileHash| == 64 && env.fromHexAccepts(c.fileHash)
  }

  /** Unpacking what was packed gives the chunk back, or is refused exactly when its fields are unsound. */
  lemma FromBytesInvertsToBytes(env: Env, c: Chunk)
    requires env.Correct() && ToBytes(env, c).Ok? && Hashed(env, c)
    ensures FromBytes(env, ToBytes(env, c).value) == if Sound(env, c) then Ok(c) else Err(ValidationError)
  {
    hide BigEndian, FromBigEndian, Validated, Ascii;
    var header := env.dump(HeaderOf(c));
    Sections(header, c.body);
    assert FromBytes(env, ToBytes(env, c).value) == Validated(env, HeaderOf(c), c.body);
    ValidatedHeader(env, c);
  }

  lemma ValidatedHeader(env: Env, c: Chunk)
    requires env.Correct() && Hashed(env, c)
    ensures Validated(env, HeaderOf(c), c.body) == if Sound(env, c) then Ok(c) else Err(ValidationError)
  {
    hide Lower;
    assert HashField(env, Str(c.chunkHash)) == Some(c.chunkHash);
  }

  /** What a chunk that decodes was checked for on the wire. */
  lemma DecodedMeans(env: Env, raw: ByteString) returns (header: Header, at: nat)
    requires env.Correct() && FromBytes(env, raw).Ok?
    ensures 16 <= at <= |raw| && at - 16 <= 65536 && raw[..12] == Ascii("UXSP-CHUNK-1") && FromBigEndian(raw[12..16]) == at - 16
    ensures env.load(raw[16..at]) == Some(header)
    ensures var c := FromBytes(env, raw).value;
      && c.body == raw[at..] && header.bodyLen == Num(|c.body|)
      && header.transferId == Str(c.transferId) && header.index == Num(c.index) && header.total == Num(c.total)
      && header.kind == Str(c.meta.kind) && header.contentType == Str(c.meta.contentType)
      && header.filename == (if c.meta.filename.Some? then Str(c.meta.filename.value) else Null)
      && header.encoding == (if c.meta.encoding.Some? then Str(c.meta.encoding.value) else Null)
      && |c.fileHash| == 64 && header.fileHash.Str? && c.fileHash == Lower(header.fileHash.s)
      && env.sha(c.body) == c.chunkHash && header.chunkHash.Str? && c.chunkHash == Lower(header.chunkHash.s)
  {
    hide FromBigEndian, Lower;
    at := 16 + FromBigEndian(raw[12..16]);
    header := env.load(raw[16..at]).value;
  }

  /** The limit on headers: packing fails exactly above 65536 bytes. */
  lemma PackingFailsExactly(env: Env, c: Chunk)
    ensures ToBytes(env, c).Err? <==> |env.dump(HeaderOf(c))| > 65536
  {}
}
