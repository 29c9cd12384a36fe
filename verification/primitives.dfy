/**
 The cryptographic building blocks of the container codec, kept abstract.

 The program derives a key with PBKDF2-HMAC-SHA256 (section 5.2 of RFC 8018),
 encodes it with URL-safe base64 (section 5 of RFC 4648) and hands it to a
 Fernet authenticated cipher. None of that is modelled: a `Crypto` value bundles
 three arbitrary functions. Two facts about the cipher are stated as
 predicates and taken as hypotheses where they are needed: `Sound`, that
 decryption under the same key undoes encryption (for the round trip), and
 `RejectsEmptyToken` (for containers too short to hold a token).
 */
module Primitives {

  newtype byte = x: int | 0 <= x < 256

  type Bytes = seq<byte>

  /** The user's password, before its UTF-8 encoding (which `kdf` absorbs). */
  type Password = string

  /** Fernet's own randomness for one token: a fresh 16-byte IV and the current
      time, both drawn inside `Fernet.encrypt`. They are parameters here. */
  datatype TokenEntropy = TokenEntropy(iv: Bytes, timestamp: int)

  datatype Option<T> = None | Some(value: T)

  /** Salt length in bytes, written in clear at the head of every container. */
  const SaltSize: nat := 16
  /** PBKDF2 iteration count, fixed at build time and shared by both directions. */
  const Iterations: nat := 480000
  /** Length in bytes of the raw PBKDF2 output before base64 encoding. */
  const KeyLength: nat := 32

  /** `kdf(password, salt, iterations, length)` stands for PBKDF2-HMAC-SHA256
      followed by URL-safe base64; `seal(key, entropy, plaintext)` for
      `Fernet(key).encrypt`; `open(key, token)` for `Fernet(key).decrypt`, with
      `None` for the `InvalidToken` exception. */
  datatype Crypto = Crypto(
    kdf: (Password, Bytes, nat, nat) -> Bytes,
    seal: (Bytes, TokenEntropy, Bytes) -> Bytes,
    open: (Bytes, Bytes) -> Option<Bytes>)

  /** The round-trip assumption about the cipher: opening a token with the key
      that sealed it gives back the plaintext, whatever randomness was used. */
  ghost predicate Sound(c: Crypto) {
    forall k, e, p :: c.open(k, c.seal(k, e, p)) == Some(p)
  }

  /** A cipher that never accepts the empty token. Real Fernet tokens carry a
      version byte, timestamp, IV and MAC, so an empty token is always rejected. */
  ghost predicate RejectsEmptyToken(c: Crypto) {
    forall k :: c.open(k, []) == None
  }

  /** `derive_key`: the key is a function of password and salt only; the hash,
      the iteration count and the key length are the same constants on both the
      encrypting and the decrypting side. */
  function DeriveKey(c: Crypto, password: Password, salt: Bytes): (key: Bytes)
    ensures key == c.kdf(password, salt, 480000, 32)
  {
    c.kdf(password, salt, Iterations, KeyLength)
  }

  /** A toy instance: the "token" is a zero byte, the key and the plaintext,
      and opening checks and strips that prefix. It is no cipher at all; it only
      shows that `Sound` and `RejectsEmptyToken` can hold together. */
  function ToyCrypto(): (c: Crypto)
    ensures Sound(c) && RejectsEmptyToken(c)
  {
    var c := Crypto(
      (pw: Password, salt: Bytes, n: nat, len: nat) => salt,
      (k: Bytes, e: TokenEntropy, p: Bytes) => [0 as byte] + k + p,
      (k: Bytes, t: Bytes) =>
        if 0 < |t| && t[0] == 0 && |k| < |t| && t[1..|k| + 1] == k then Some(t[|k| + 1..]) else None);
    assert Sound(c) by {
      forall k, e, p
        ensures c.open(k, c.seal(k, e, p)) == Some(p)
      {
        var t := [0 as byte] + k + p;
        assert t[1..|k| + 1] == k && t[|k| + 1..] == p;
      }
    }
    c
  }
}
