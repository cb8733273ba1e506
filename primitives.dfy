/** The format constants of the container and the two foreign primitives it is built on:
    PBKDF2 key derivation and AES-256-GCM. Neither primitive is implemented here; both are
    function-valued parameters, and what the container relies on about AES-GCM is the
    predicate `AeadLaws`. */
module Primitives {
  import opened Bytes

  const ChunkSize: nat := 64 * 1024
  const KeySize: nat := 32
  const NonceSize: nat := 12
  const SaltSize: nat := 16
  const Iterations: nat := 100000
  /** `aesGCM.Overhead()`: the GCM authentication tag appended by Seal. */
  const TagSize: nat := 16
  /** The largest sealed chunk a frame may declare: a full chunk plus its tag (65552). */
  const MaxSealedLen: nat := ChunkSize + TagSize
  /** Salt and base nonce: the fixed-width container header (28 bytes). */
  const HeaderSize: nat := SaltSize + NonceSize

  datatype Option<T> = None | Some(value: T)

  /** PBKDF2-HMAC-SHA-256 (section 5.2 of RFC 8018): password, salt, iteration count and key
      length give a key. */
  type Kdf = (seq<byte>, seq<byte>, nat, nat) -> seq<byte>

  /** `deriveKey`: the stream key for a password and salt. */
  function DeriveKey(kdf: Kdf, password: seq<byte>, salt: seq<byte>): seq<byte>
  {
    kdf(password, salt, Iterations, KeySize)
  }

  /** AES-GCM used without associated data: `seal(key, nonce, plaintext)` gives ciphertext and
      tag, `open(key, nonce, sealed)` gives the plaintext or fails. */
  datatype Aead = Aead(
    seal: (seq<byte>, seq<byte>, seq<byte>) -> seq<byte>,
    open: (seq<byte>, seq<byte>, seq<byte>) -> Option<seq<byte>>)

  /** What the container relies on about its AEAD, for nonces of the container's size: opening
      what was sealed under the same key and nonce gives back the plaintext, and sealing adds
      exactly one tag. */
  ghost predicate AeadLaws(a: Aead)
  {
    forall key: seq<byte>, nonce: seq<byte>, p: seq<byte> {:trigger a.seal(key, nonce, p)} ::
      |nonce| == NonceSize ==>
        a.open(key, nonce, a.seal(key, nonce, p)) == Some(p) && |a.seal(key, nonce, p)| == |p| + TagSize
  }
}
