/**
 One key signs handshake messages, envelopes, cards and revocation lists. Their first fields, their
 numbers of fields and the colon in every list entry keep them apart, so a signature on one kind never
 verifies as another.
 */
module Domains {
  import opened Bytes
  import opened BindFields
  import H = Handshake
  import A = Agreement
  import E = Envelopes
  import C = Certificates

  /** The conditions under which Agreement, Envelopes and Certificates admit the signatures of the other kinds. */
  lemma KindsAreApart(h: H.Hello, a: H.Ack, e: E.Envelope, card: C.CardBody, notBefore: int, notAfter: int, certId: Text, crl: C.Crl)
    requires h.Hello? && a.Ack?
    ensures E.OtherThanEnvelope(H.HelloFields(h)) && C.OtherThanCrl(H.HelloFields(h))
    ensures E.OtherThanEnvelope(H.AckFields(a)) && C.OtherThanCrl(H.AckFields(a))
    ensures A.OtherThanHandshake(E.Fields(e)) && C.OtherThanCrl(E.Fields(e))
    ensures A.OtherThanHandshake(C.FieldsOf(crl)) && E.OtherThanEnvelope(C.FieldsOf(crl))
    ensures var k := C.CardFields(card, notBefore, notAfter, certId);
      A.OtherThanHandshake(k) && E.OtherThanEnvelope(k) && C.OtherThanCrl(k)
  {
    hide Decimal, H.Joined, C.EntryTexts;
    Tags();
    assert COLON !in C.CardFields(card, notBefore, notAfter, certId)[8];
  }

  lemma Tags()
    ensures H.HELLO_TAG != H.ACK_TAG && H.HELLO_TAG != E.VERSION && H.HELLO_TAG != C.CRL_TAG
    ensures H.ACK_TAG != E.VERSION && H.ACK_TAG != C.CRL_TAG && E.VERSION != C.CRL_TAG
  {
    assert |H.HELLO_TAG| == 10 && |H.ACK_TAG| == 8 && |E.VERSION| == 6 && |C.CRL_TAG| == 10;
    assert H.HELLO_TAG[5] == 'H' as int && C.CRL_TAG[5] == 'C' as int;
  }

  /** What the separation amounts to: the bytes signed for a handshake message are those of no other kind. */
  lemma HandshakeBytesAreTheirOwn(h: H.Hello, a: H.Ack, fields: seq<ByteString>)
    requires h.Hello? && a.Ack? && AllShort(H.HelloFields(h)) && AllShort(H.AckFields(a)) && AllShort(fields)
    requires A.OtherThanHandshake(fields)
    ensures Encoded(fields) != Encoded(H.HelloFields(h)) && Encoded(fields) != Encoded(H.AckFields(a))
  {
    hide Encoded, AllShort, Decimal, H.Joined;
    if Encoded(fields) == Encoded(H.HelloFields(h)) {
      EncodedInjective(fields, H.HelloFields(h));
    } else if Encoded(fields) == Encoded(H.AckFields(a)) {
      EncodedInjective(fields, H.AckFields(a));
    }
  }
}
