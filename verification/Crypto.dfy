/** The cryptographic primitives as deterministic functions: whatever they compute, they have
    fixed output lengths and obey the functional laws below. Random salts, nonces and ids are
    arguments of the operations that draw them. */
module Crypto {
  import opened Outcomes
  import opened ByteStrings

  datatype AeadAlgo = Aes256Gcm | XChaCha20Poly1305

  function NonceLen(algo: AeadAlgo): nat {
    match algo
    case Aes256Gcm => 12
    case XChaCha20Poly1305 => 24
  }

  const TAG_LEN := 16

  /** HKDF-SHA-256 can produce at most 255 hash lengths (section 2.3 of RFC 5869). */
  const HKDF_MAX := 255 * 32

  /** `argon2id(passphrase, salt, memory, iterations)`, `hkdf(ikm, salt, info, length)`,
      `keyedHash(key, data)`, `seal(algo, key, nonce, plaintext, aad)` and
      `open(algo, key, nonce, ciphertext, aad)`. */
  datatype Suite = Suite(
    argon2id: (Bytes, Bytes, u32, u32) -> Option<Key>,
    hkdf: (Bytes, Bytes, Bytes, nat) -> Option<Bytes>,
    keyedHash: (Key, Bytes) -> Key,
    seal: (AeadAlgo, Key, Bytes, Bytes, Bytes) -> Option<Bytes>,
    open: (AeadAlgo, Key, Bytes, Bytes, Bytes) -> Option<Bytes>)

  /** Sealing and opening are partial inverses of each other under one key, nonce and
      associated data (sections 7.1 and 7.2 of NIST SP 800-38D), the tag costs 16 bytes. */
  ghost predicate SealOpens(s: Suite) {
    forall a: AeadAlgo, k: Key, n: Bytes, pt: Bytes, aad: Bytes {:trigger s.seal(a, k, n, pt, aad)} ::
      s.seal(a, k, n, pt, aad).Some? ==>
        && |s.seal(a, k, n, pt, aad).value| == |pt| + TAG_LEN
        && s.open(a, k, n, s.seal(a, k, n, pt, aad).value, aad) == Some(pt)
  }

  ghost predicate OpenWasSealed(s: Suite) {
    forall a: AeadAlgo, k: Key, n: Bytes, ct: Bytes, aad: Bytes {:trigger s.open(a, k, n, ct, aad)} ::
      s.open(a, k, n, ct, aad).Some? ==>
        && |ct| == |s.open(a, k, n, ct, aad).value| + TAG_LEN
        && s.seal(a, k, n, s.open(a, k, n, ct, aad).value, aad) == Some(ct)
  }

  ghost predicate HkdfExpands(s: Suite) {
    forall ikm: Bytes, salt: Bytes, info: Bytes, n: nat {:trigger s.hkdf(ikm, salt, info, n)} ::
      n <= HKDF_MAX ==> s.hkdf(ikm, salt, info, n).Some? && |s.hkdf(ikm, salt, info, n).value| == n
  }

  ghost predicate Lawful(s: Suite) {
    SealOpens(s) && OpenWasSealed(s) && HkdfExpands(s)
  }

  type Primitives = s: Suite | Lawful(s) witness (ToyIsLawful([]); Toy([]))

  /** `AeadCipher::seal`, with the nonce it draws as an argument. */
  function SealBytes(p: Primitives, algo: AeadAlgo, key: Key, nonce: Bytes, plaintext: Bytes, aad: Bytes)
    : (r: Result<(Bytes, Bytes)>)
    requires |nonce| == NonceLen(algo)
    ensures r.Ok? ==> |r.value.1| == |plaintext| + TAG_LEN
  {
    match p.seal(algo, key, nonce, plaintext, aad)
    case None => Err(AegisError.AeadSeal)
    case Some(ct) => Ok((nonce, ct))
  }

  /** `AeadCipher::open`: a nonce of the wrong length is refused before the cipher runs. */
  function OpenBytes(p: Primitives, algo: AeadAlgo, key: Key, nonce: Bytes, ciphertext: Bytes, aad: Bytes)
    : (r: Result<Bytes>)
    ensures r.Ok? ==> |ciphertext| == |r.value| + TAG_LEN
  {
    if |nonce| != NonceLen(algo) then Err(AegisError.AeadOpen)
    else
      match p.open(algo, key, nonce, ciphertext, aad)
      case None => Err(AegisError.AeadOpen)
      case Some(pt) => Ok(pt)
  }

  /** Opening gives a plaintext exactly when sealing it under the same key, nonce and associated data
      gives this ciphertext and the nonce has the cipher's own length; every failure is one error. */
  lemma SealOpenInverse(p: Primitives, algo: AeadAlgo, key: Key, nonce: Bytes, plaintext: Bytes, ciphertext: Bytes,
                        aad: Bytes)
    ensures var sealed := p.seal(algo, key, nonce, plaintext, aad);
            var r := OpenBytes(p, algo, key, nonce, ciphertext, aad);
            var fits := |nonce| == if algo == Aes256Gcm then 12 else 24;
            && (r == Ok(plaintext) <==> fits && sealed == Some(ciphertext))
            && (r.Ok? || r == Err(AegisError.AeadOpen))
            && (fits ==> SealBytes(p, algo, key, nonce, plaintext, aad) ==
                         if sealed.Some? then Ok((nonce, sealed.value)) else Err(AegisError.AeadSeal))
  {
    var openResult := p.open(algo, key, nonce, ciphertext, aad);
  }

  // A toy instance. Passphrases are keys padded with zeros, and the tag is the first half of the key.

  /** The first n bytes of b, padded with zeros. */
  function Fit(b: Bytes, n: nat): (r: Bytes)
    ensures |r| == n
  {
    if |b| >= n then b[..n] else b + Zeros(n - |b|)
  }

  function ToyArgon2id(passphrase: Bytes, salt: Bytes, memory: u32, iterations: u32): Option<Key> {
    Some(Fit(passphrase, 32))
  }

  function ToyHkdf(ikm: Bytes, salt: Bytes, info: Bytes, n: nat): Option<Bytes> {
    if n <= HKDF_MAX then Some(Fit(ikm, n)) else None
  }

  /** The identity on 32 bytes; of all other data it tells one marked string from the rest. */
  function ToyKeyedHash(marked: Bytes, key: Key, data: Bytes): Key {
    if |data| == 32 then data
    else if data == marked then Zeros(31) + [1]
    else Zeros(32)
  }

  function ToySeal(algo: AeadAlgo, key: Key, nonce: Bytes, plaintext: Bytes, aad: Bytes): Option<Bytes> {
    Some(plaintext + key[..TAG_LEN])
  }

  function ToyOpen(algo: AeadAlgo, key: Key, nonce: Bytes, ciphertext: Bytes, aad: Bytes): Option<Bytes> {
    if |ciphertext| >= TAG_LEN && ciphertext[|ciphertext| - TAG_LEN..] == key[..TAG_LEN] then
      Some(ciphertext[..|ciphertext| - TAG_LEN])
    else None
  }

  function Toy(marked: Bytes): Suite {
    Suite(ToyArgon2id, ToyHkdf, (key, data) => ToyKeyedHash(marked, key, data), ToySeal, ToyOpen)
  }

  lemma ToyIsLawful(marked: Bytes)
    ensures Lawful(Toy(marked))
  {
    var toy := Toy(marked);
    forall a: AeadAlgo, k: Key, n: Bytes, pt: Bytes, aad: Bytes
      ensures ToyOpen(a, k, n, pt + k[..TAG_LEN], aad) == Some(pt)
    {
      var ct := pt + k[..TAG_LEN];
      assert ct[..|ct| - TAG_LEN] == pt && ct[|ct| - TAG_LEN..] == k[..TAG_LEN];
    }
    forall a: AeadAlgo, k: Key, n: Bytes, ct: Bytes, aad: Bytes | toy.open(a, k, n, ct, aad).Some?
      ensures toy.seal(a, k, n, toy.open(a, k, n, ct, aad).value, aad) == Some(ct)
    {
      assert ct == ct[..|ct| - TAG_LEN] + ct[|ct| - TAG_LEN..];
    }
  }
}
