/**
 The cryptographic functions the crate calls, as parameters. `K` is the type of keys and signatures:
 32-byte strings in the crate, free terms in module Symbolic.
 */
module Crypto {
  import opened Prelude

  type Nonce = n: Bytes | |n| == 24 witness seq(24, i => 0)

  /**
   `bind(root, sig)` is the two-text MAC of two signatures under the all-zero key; `encrypt` takes its nonce
   as an argument, and `decrypt` gives None on every error.
   */
  datatype Crypto<!K> = Crypto(
    hmac: (K, Bytes) -> K,
    hmac2: (K, Bytes, Bytes) -> K,
    bind: (K, K) -> K,
    encrypt: (K, K, Nonce) -> Bytes,
    decrypt: (K, Bytes) -> Option<K>)

  /** The one law that verification depends on. */
  ghost predicate DecryptsEncrypted<K(!new)>(c: Crypto<K>) {
    forall k, plain, nonce: Nonce :: c.decrypt(k, c.encrypt(k, plain, nonce)) == Some(plain)
  }

  /** A 24-byte nonce, 32 bytes of ciphertext and a 16-byte tag. */
  const CIPHERTEXT_SIZE: nat := 72

  ghost predicate CiphertextSized<K(!new)>(c: Crypto<K>) {
    forall k, plain, nonce: Nonce :: |c.encrypt(k, plain, nonce)| == CIPHERTEXT_SIZE
  }
}
