/**
 The ideal cryptography every other module builds on.

 Secrets are symbolic terms, so HKDF and the hybrid exchange are injective and collision free;
 the AEAD is any pair of functions, and integrity is the statement that whatever opens under an
 honest key was put into the table of sealings by whoever held that key.
 */
module Ideal {
  import opened Wrappers
  import opened Bytes

  datatype Secret =
      /** A key handed over as its bytes. */
    | Raw(bytes: ByteString)
      /** What both sides of hybrid_sender_exchange and hybrid_recipient_exchange arrive at. */
    | Exchange(recipient: Text, ephemeralPub: ByteString, kemCiphertext: ByteString)
      /** derive_key over the concatenated input secrets. */
    | Derived(ikm: seq<Secret>, info: ByteString)
      /** A key buffer after zeroize. */
    | Zeroed

  /** encrypt and decrypt of uxsp/crypto/symmetric.py: arguments key, nonce, data, plaintext. */
  datatype Aead = Aead(
    seal: (Secret, ByteString, ByteString, ByteString) -> ByteString,
    open: (Secret, ByteString, ByteString, ByteString) -> Option<ByteString>)
  {
    ghost predicate Correct() {
      forall k, n, ad, p :: open(k, n, ad, seal(k, n, ad, p)) == Some(p)
    }
  }

  /** One entry of the ghost table of what was encrypted. */
  datatype Sealing = Sealing(key: Secret, ad: ByteString, plaintext: ByteString)

  /** hybrid_sign, symbolically: who signed, and what. */
  datatype Signature = Signature(signer: Text, message: ByteString)
}
