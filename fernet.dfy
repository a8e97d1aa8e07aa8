/**
 * The two foreign codecs the vault relies on, kept abstract: the `cryptography`
 * library's Fernet token scheme and Python's UTF-8 text codec. Each is a record
 * of functions; what the vault assumes of them is stated as a predicate that the
 * lemmas about the vault take as a precondition.
 */
module Fernet {
  import opened Common

  /** A Fernet key as stored in the key file (url-safe Base64 text, as bytes). */
  type Key = Bytes

  /**
   * The Fernet scheme. `encrypt` takes, besides key and plaintext, the random
   * part of a token (initialisation vector and timestamp), so that the
   * randomness of `Fernet.encrypt` is an input; `decrypt` yields None where the
   * library raises `InvalidToken` or `TypeError`.
   */
  datatype Scheme = Scheme(
    validKey: Key -> bool,
    signingKey: Key -> Bytes,
    encrypt: (Key, Bytes, Bytes) -> Bytes,
    decrypt: (Key, Bytes) -> Option<Bytes>)

  /** A token decrypts under the key that made it to the original plaintext. */
  ghost predicate RoundTrip(f: Scheme) {
    forall k, nonce, p :: f.validKey(k) ==> f.decrypt(k, f.encrypt(k, nonce, p)) == Some(p)
  }

  /**
   * A token is rejected under a valid key whose signing half (the first 16
   * octets of the decoded key, which the HMAC uses) differs from that of the
   * key that made it. Keys that share the signing half are not covered: the
   * library then checks only the padding of what the other AES half decrypts.
   */
  ghost predicate RejectsForeignKeys(f: Scheme) {
    forall k, k', nonce, p :: f.validKey(k) && f.validKey(k') && f.signingKey(k) != f.signingKey(k') ==>
      f.decrypt(k', f.encrypt(k, nonce, p)) == None
  }

  /** `str.encode()` and `bytes.decode()`; `decode` yields None on malformed input. */
  datatype TextCodec = TextCodec(encode: string -> Bytes, decode: Bytes -> Option<string>)

  /** Decoding what was encoded gives the text back. */
  ghost predicate Lossless(t: TextCodec) {
    forall s :: t.decode(t.encode(s)) == Some(s)
  }
}
