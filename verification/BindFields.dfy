/**
 Length-prefixed concatenation: bind_fields of uxsp/crypto/hybrid.py and bindFields of the
 JavaScript SDK. Every signature of the protocol is over such bytes, so what matters is that
 they determine the fields; Parse is the explicit inverse.
 */
module BindFields {
  import opened Wrappers
  import opened Bytes

  datatype BindError = FieldTooLong

  predicate AllShort(fields: seq<ByteString>) {
    forall i | 0 <= i < |fields| :: |fields[i]| <= U32_MAX
  }

  function Framed(field: ByteString): ByteString {
    BigEndian(|field|, 4) + field
  }

  /** The canonical bytes of a field list. */
  function Encoded(fields: seq<ByteString>): ByteString
    requires AllShort(fields)
  {
    if fields == [] then []
    else Framed(fields[0]) + Encoded(fields[1..])
  }

  /** The reader that inverts Encoded: take a length, take that many bytes, repeat. */
  function Parse(b: ByteString): Option<seq<ByteString>>
    decreases |b|
  {
    if b == [] then Some([])
    else if |b| < 4 then None
    else
      var n := FromBigEndian(b[..4]);
      if |b| < 4 + n then None
      else match Parse(b[4 + n..])
        case None => None
        case Some(rest) => Some([b[4..4 + n]] + rest)
  }

  lemma ParseStep(field: ByteString, tail: ByteString)
    requires |field| <= U32_MAX
    ensures var b := Framed(field) + tail;
      && |b| >= 4 + |field| && FromBigEndian(b[..4]) == |field|
      && b[4..4 + |field|] == field && b[4 + |field|..] == tail
  {
    PowersOf256();
    FromBigEndianInverse(|field|, 4);
    var b := Framed(field) + tail;
    assert b[..4] == BigEndian(|field|, 4);
  }

  lemma {:induction false} ParseInvertsEncoded(fields: seq<ByteString>)
    requires AllShort(fields)
    ensures Parse(Encoded(fields)) == Some(fields)
  {
    if fields != [] {
      ParseInvertsEncoded(fields[1..]);
      ParseStep(fields[0], Encoded(fields[1..]));
      assert [fields[0]] + fields[1..] == fields;
    }
  }

  lemma FrameStep(b: ByteString)
    requires 4 <= |b| && 4 + FromBigEndian(b[..4]) <= |b|
    ensures var n := FromBigEndian(b[..4]);
      n <= U32_MAX && Framed(b[4..4 + n]) + b[4 + n..] == b
  {
    var n := FromBigEndian(b[..4]);
    PowersOf256();
    BigEndianInverse(b[..4]);
    assert b == b[..4] + b[4..4 + n] + b[4 + n..];
  }

  lemma {:induction false} EncodedInvertsParse(b: ByteString)
    requires Parse(b).Some?
    ensures AllShort(Parse(b).value) && Encoded(Parse(b).value) == b
    decreases |b|
  {
    if b != [] {
      var n := FromBigEndian(b[..4]);
      FrameStep(b);
      EncodedInvertsParse(b[4 + n..]);
      assert Parse(b).value[1..] == Parse(b[4 + n..]).value;
    }
  }

  /** Equal bytes come from equal field lists, whatever the arities. */
  lemma EncodedInjective(f: seq<ByteString>, g: seq<ByteString>)
    requires AllShort(f) && AllShort(g)
    requires Encoded(f) == Encoded(g)
    ensures f == g
  {
    ParseInvertsEncoded(f);
    ParseInvertsEncoded(g);
  }

  /** bind_fields as a value: the bytes, or None where the code raises. */
  function Bind(fields: seq<ByteString>): (r: Option<ByteString>)
    ensures r.Some? ==> Parse(r.value) == Some(fields)
  {
    if AllShort(fields) then
      ParseInvertsEncoded(fields);
      Some(Encoded(fields))
    else None
  }

  lemma AllShortAppend(f: seq<ByteString>, g: seq<ByteString>)
    requires AllShort(f) && AllShort(g)
    ensures AllShort(f + g)
  {}

  lemma {:induction false} EncodedAppend(f: seq<ByteString>, g: seq<ByteString>)
    requires AllShort(f) && AllShort(g)
    ensures AllShort(f + g) && Encoded(f + g) == Encoded(f) + Encoded(g)
  {
    AllShortAppend(f, g);
    if f == [] {
      assert f + g == g;
    } else {
      EncodedStep(f, g);
      EncodedAppend(f[1..], g);
      hide Encoded, Framed, AllShort;
    }
  }

  lemma EncodedStep(f: seq<ByteString>, g: seq<ByteString>)
    requires f != [] && AllShort(f) && AllShort(g) && AllShort(f + g)
    ensures AllShort(f[1..]) && AllShort(f[1..] + g)
    ensures Encoded(f) == Framed(f[0]) + Encoded(f[1..])
    ensures Encoded(f + g) == Framed(f[0]) + Encoded(f[1..] + g)
  {
    hide Framed;
    AllShortAppend(f[1..], g);
    assert (f + g)[1..] == f[1..] + g && (f + g)[0] == f[0];
  }

  /** The accumulating loop of the Python function. */
  method BindFieldsPy(fields: seq<ByteString>) returns (r: Result<ByteString, BindError>)
    ensures r.Ok? <==> AllShort(fields)
    ensures r.Ok? ==> r.value == Encoded(fields)
  {
    var result: ByteString := [];
    for i := 0 to |fields|
      invariant AllShort(fields[..i]) && result == Encoded(fields[..i])
    {
      var f := fields[i];
      if |f| > U32_MAX {
        return Err(FieldTooLong);
      }
      var last: seq<ByteString> := [f];
      assert last[1..] == [];
      EncodedAppend(fields[..i], last);
      assert fields[..i + 1] == fields[..i] + last;
      result := result + (BigEndian(|f|, 4) + f);
    }
    assert fields[..|fields|] == fields;
    return Ok(result);
  }

  function TotalLength(fields: seq<ByteString>): nat {
    if fields == [] then 0 else 4 + |fields[0]| + TotalLength(fields[1..])
  }

  lemma {:induction false} TotalLengthAppend(f: seq<ByteString>, x: ByteString)
    ensures TotalLength(f + [x]) == TotalLength(f) + 4 + |x|
  {
    if f == [] {
      assert [x][1..] == [];
    } else {
      assert (f + [x])[1..] == f[1..] + [x];
      TotalLengthAppend(f[1..], x);
    }
  }

  lemma {:induction false} TotalLengthMonotone(f: seq<ByteString>, k: nat)
    requires k <= |f|
    ensures TotalLength(f[..k]) <= TotalLength(f)
  {
    if k > 0 {
      TotalLengthMonotone(f[1..], k - 1);
      assert f[..k][1..] == f[1..][..k - 1];
    }
  }

  /** What DataView.setUint32 stores is the length modulo 2^32. */
  function WrappedFrame(field: ByteString): ByteString {
    BigEndian(|field| % (U32_MAX + 1), 4) + field
  }

  function Wrapped(fields: seq<ByteString>): ByteString {
    if fields == [] then []
    else WrappedFrame(fields[0]) + Wrapped(fields[1..])
  }

  lemma {:induction false} WrappedAppend(f: seq<ByteString>, x: ByteString)
    ensures Wrapped(f + [x]) == Wrapped(f) + WrappedFrame(x)
  {
    if f == [] {
      assert [x][1..] == [];
    } else {
      assert (f + [x])[1..] == f[1..] + [x];
      WrappedAppend(f[1..], x);
    }
  }

  lemma {:induction false} WrappedIsEncoded(fields: seq<ByteString>)
    requires AllShort(fields)
    ensures Wrapped(fields) == Encoded(fields)
  {
    if fields != [] {
      assert |fields[0]| % (U32_MAX + 1) == |fields[0]|;
      assert WrappedFrame(fields[0]) == Framed(fields[0]);
      WrappedIsEncoded(fields[1..]);
    }
  }

  /** One turn of the filling loop: setUint32 at the offset, then set behind it. */
  method WriteFrame(result: array<Byte>, offset: nat, f: ByteString)
    requires offset + 4 + |f| <= result.Length
    modifies result
    ensures result[..offset] == old(result[..offset])
    ensures result[offset..offset + 4 + |f|] == WrappedFrame(f)
    ensures result[offset + 4 + |f|..] == old(result[offset + 4 + |f|..])
  {
    var header := BigEndian(|f| % (U32_MAX + 1), 4);
    forall k | 0 <= k < 4 {
      result[offset + k] := header[k];
    }
    forall k | 0 <= k < |f| {
      result[offset + 4 + k] := f[k];
    }
  }

  /**
   The JavaScript version: measure, allocate once, then fill by a moving offset. It has no length
   guard; on every input the Python version accepts it writes the same bytes.
   */
  method BindFieldsJs(fields: seq<ByteString>) returns (result: array<Byte>)
    ensures fresh(result)
    ensures result[..] == Wrapped(fields)
    ensures AllShort(fields) ==> result[..] == Encoded(fields)
  {
    var totalLen := 0;
    for i := 0 to |fields|
      invariant totalLen == TotalLength(fields[..i])
    {
      assert fields[..i + 1] == fields[..i] + [fields[i]];
      TotalLengthAppend(fields[..i], fields[i]);
      totalLen := totalLen + 4 + |fields[i]|;
    }
    assert fields[..|fields|] == fields;
    result := new Byte[totalLen](_ => 0);
    var offset := 0;
    for i := 0 to |fields|
      invariant offset == TotalLength(fields[..i]) <= result.Length
      invariant result[..offset] == Wrapped(fields[..i])
    {
      var f := fields[i];
      assert fields[..i + 1] == fields[..i] + [f];
      TotalLengthAppend(fields[..i], f);
      TotalLengthMonotone(fields, i + 1);
      WrappedAppend(fields[..i], f);
      WriteFrame(result, offset, f);
      assert result[..offset + 4 + |f|] == result[..offset] + result[offset..offset + 4 + |f|];
      offset := offset + 4 + |f|;
    }
    assert result[..] == result[..offset];
    if AllShort(fields) {
      WrappedIsEncoded(fields);
    }
  }

  /** A four-byte length, most significant byte first, then the field. */
  lemma EncodedExample()
    ensures Encoded([[7, 8]]) == [0, 0, 0, 2, 7, 8]
  {
    LengthOfTwo();
    hide BigEndian;
    var none: seq<ByteString> := [];
    assert [[7, 8]][1..] == none && Encoded(none) == [];
  }

  lemma LengthOfTwo()
    ensures BigEndian(2, 4) == [0, 0, 0, 2]
  {
    assert BigEndian(0, 1) == [0];
    assert BigEndian(0, 2) == [0, 0] && BigEndian(0, 3) == BigEndian(0, 2) + [0];
    assert BigEndian(2, 4) == BigEndian(0, 3) + [2];
  }
}
