/**
 * Byte layout of the legacy AES-256-GCM chunk encryption
 * (`encrypt_chunk` / `decrypt_chunk` in mesh_pulse/utils/crypto.py): a 12-byte
 * nonce followed by the AEAD output. The cipher itself is a parameter.
 */
module ChunkLayout {
  import opened Wrappers

  /** AES-GCM standard nonce size (`NONCE_SIZE` in mesh_pulse/utils/config.py). */
  const NONCE_SIZE: nat := 12

  /** An AEAD cipher under a fixed key: `seal(nonce, plaintext)` and `open(nonce, ciphertext)`. */
  datatype Aead = Aead(seal: (Bytes, Bytes) -> Bytes, open: (Bytes, Bytes) -> Option<Bytes>)

  /** Opening what was sealed under the same nonce gives the plaintext back. */
  ghost predicate Sound(aead: Aead)
  {
    forall nonce, data :: aead.open(nonce, aead.seal(nonce, data)) == Some(data)
  }

  /** `encrypt_chunk(data, key)` with the random nonce supplied as a parameter. */
  function EncryptChunk(data: Bytes, nonce: Bytes, aead: Aead): (payload: Bytes)
    requires |nonce| == NONCE_SIZE
    ensures |payload| >= NONCE_SIZE && payload[..NONCE_SIZE] == nonce
  {
    nonce + aead.seal(nonce, data)
  }

  /** `payload[:12]` and `payload[12:]`: Python slicing never fails, even on short payloads. */
  function SplitNonce(payload: Bytes): (parts: (Bytes, Bytes))
    ensures parts.0 + parts.1 == payload
    ensures |parts.0| == if |payload| < NONCE_SIZE then |payload| else NONCE_SIZE
  {
    if |payload| < NONCE_SIZE then (payload, []) else (payload[..NONCE_SIZE], payload[NONCE_SIZE..])
  }

  /** `decrypt_chunk(payload, key)`: None stands for the `InvalidTag` failure. */
  function DecryptChunk(payload: Bytes, aead: Aead): (r: Option<Bytes>)
    // The first 12 bytes are the nonce and the rest the ciphertext; a shorter payload is all nonce.
    ensures |payload| >= NONCE_SIZE ==> r == aead.open(payload[..NONCE_SIZE], payload[NONCE_SIZE..])
    ensures |payload| < NONCE_SIZE ==> r == aead.open(payload, [])
  {
    var (nonce, ciphertext) := SplitNonce(payload);
    aead.open(nonce, ciphertext)
  }

  /** Splitting `nonce ∥ ct` at byte 12 recovers both parts. */
  lemma SplitNonceOfLayout(nonce: Bytes, ciphertext: Bytes)
    requires |nonce| == NONCE_SIZE
    ensures SplitNonce(nonce + ciphertext) == (nonce, ciphertext)
  {
    assert (nonce + ciphertext)[..NONCE_SIZE] == nonce;
    assert (nonce + ciphertext)[NONCE_SIZE..] == ciphertext;
  }

  /** Decrypting an encrypted chunk gives the chunk back whatever nonce was drawn. */
  lemma DecryptEncryptChunk(data: Bytes, nonce: Bytes, aead: Aead)
    requires |nonce| == NONCE_SIZE && Sound(aead)
    ensures DecryptChunk(EncryptChunk(data, nonce, aead), aead) == Some(data)
  {
    SplitNonceOfLayout(nonce, aead.seal(nonce, data));
  }
}
