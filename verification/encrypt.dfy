/**
 * The ciphertext envelope: AES-256-GCM under a SHA3-256-derived key, with the
 * 12-byte AEAD nonce prepended to the AEAD output and the whole thing encoded
 * as standard padded base64 (section 4 of RFC 4648).
 *
 * The primitives themselves are not modelled. They are the fields of a
 * `Primitives` value, and `Sound` lists the only facts the envelope relies on:
 * SHA3-256 yields 32 bytes (FIPS 202), AES-256-GCM opens what it sealed and adds
 * a 16-byte tag (NIST SP 800-38D), base64 decoding inverts encoding, and UTF-8
 * decoding inverts encoding.
 */
module Crypto {
  import opened Errors

  newtype byte = b: int | 0 <= b < 256

  /** `AES_NONCE_SIZE`: the length of the AES-GCM nonce (96 bits). */
  const AES_NONCE_SIZE: nat := 12
  /** The length of a SHA3-256 digest, which is also the AES-256 key length. */
  const KEY_SIZE: nat := 32
  /** The length of the AES-GCM authentication tag. */
  const TAG_SIZE: nat := 16

  datatype Primitives = Primitives(
    sha3: seq<byte> -> seq<byte>,                                   // SHA3-256
    seal: (seq<byte>, seq<byte>, seq<byte>) -> Result<seq<byte>>,   // AES-256-GCM encrypt (key, nonce, plaintext)
    open: (seq<byte>, seq<byte>, seq<byte>) -> Result<seq<byte>>,   // AES-256-GCM decrypt (key, nonce, ciphertext ++ tag)
    b64Encode: seq<byte> -> string,                                 // BASE64_STANDARD.encode
    b64Decode: string -> Result<seq<byte>>,                         // BASE64_STANDARD.decode
    utf8Encode: string -> seq<byte>,                                // str::as_bytes
    utf8Decode: seq<byte> -> Result<string>                         // String::from_utf8
  )

  /** The assumed properties of the primitives. */
  ghost predicate Sound(p: Primitives) {
    && (forall d :: |p.sha3(d)| == KEY_SIZE)
    && (forall k, n, m :: |k| == KEY_SIZE && |n| == AES_NONCE_SIZE && p.seal(k, n, m).Ok? ==>
          |p.seal(k, n, m).value| == |m| + TAG_SIZE && p.open(k, n, p.seal(k, n, m).value) == Ok(m))
    && (forall b :: p.b64Decode(p.b64Encode(b)) == Ok(b))
    && (forall s :: p.utf8Decode(p.utf8Encode(s)) == Ok(s))
  }

  /** `Sha256::digest`: the key used by both `encrypt` and `decrypt` is the SHA3-256 of the passphrase bytes. */
  function Digest(p: Primitives, data: string): (h: seq<byte>)
    requires Sound(p)
    ensures |h| == KEY_SIZE
  {
    p.sha3(p.utf8Encode(data))
  }

  /** `<[u8]>::split_at`, which panics when `k` exceeds the length. */
  function SplitAt(s: seq<byte>, k: nat): (r: (seq<byte>, seq<byte>))
    requires k <= |s|
    ensures |r.0| == k && r.0 + r.1 == s
  {
    (s[..k], s[k..])
  }

  /**
   * What `encrypt` produces for a given AES nonce (the nonce drawn from `OsRng`
   * is a parameter): the base64 of the nonce followed by the AEAD output, or
   * the AEAD error.
   */
  function Encrypted(p: Primitives, plaintext: string, key: string, nonce: seq<byte>): (r: Result<string>)
    requires Sound(p) && |nonce| == AES_NONCE_SIZE
    ensures r.Err? <==> p.seal(Digest(p, key), nonce, p.utf8Encode(plaintext)).Err?
    ensures r.Ok? ==> exists c :: p.b64Decode(r.value) == Ok(nonce + c) && |c| == |p.utf8Encode(plaintext)| + TAG_SIZE
  {
    match p.seal(Digest(p, key), nonce, p.utf8Encode(plaintext))
    case Err(e) => Err(e)
    case Ok(ciphertext) => Ok(p.b64Encode(nonce + ciphertext))
  }

  /**
   * `Aes::encrypt`. The buffer `encryptedData` starts as a copy of the nonce and
   * is then extended by the ciphertext, as the Rust code does with a `Vec`.
   */
  method Encrypt(p: Primitives, plaintext: string, key: string, nonce: seq<byte>) returns (r: Result<string>)
    requires Sound(p) && |nonce| == AES_NONCE_SIZE
    ensures r == Encrypted(p, plaintext, key, nonce)
    ensures r.Ok? ==> exists c :: p.b64Decode(r.value) == Ok(nonce + c) && |c| == |p.utf8Encode(plaintext)| + TAG_SIZE
  {
    var keyHash := Digest(p, key);
    var sealed := p.seal(keyHash, nonce, p.utf8Encode(plaintext));
    if sealed.Err? {
      return Err(sealed.error);
    }
    var ciphertext := sealed.value;
    var encryptedData := nonce;
    encryptedData := encryptedData + ciphertext;
    r := Ok(p.b64Encode(encryptedData));
  }

  /**
   * The condition under which `decrypt` does not panic: if the input is valid
   * base64, it decodes to at least `AES_NONCE_SIZE` bytes (`split_at` has no
   * length guard in front of it).
   */
  predicate WellFramed(p: Primitives, data: string) {
    p.b64Decode(data).Ok? ==> |p.b64Decode(data).value| >= AES_NONCE_SIZE
  }

  /**
   * `Aes::decrypt`: base64-decode, derive the key, split off the nonce, open the
   * AEAD box, decode the plaintext as UTF-8; the first failure is the result.
   */
  function Decrypt(p: Primitives, data: string, key: string): (r: Result<string>)
    requires Sound(p) && WellFramed(p, data)
    ensures p.b64Decode(data).Err? ==> r == Err(p.b64Decode(data).error)
    ensures r.Ok? ==> (
      && p.b64Decode(data).Ok?
      && var split := SplitAt(p.b64Decode(data).value, AES_NONCE_SIZE);
         var plain := p.open(Digest(p, key), split.0, split.1);
         plain.Ok? && p.utf8Decode(plain.value) == r)
  {
    match p.b64Decode(data)
    case Err(e) => Err(e)
    case Ok(bytes) =>
      var keyHash := Digest(p, key);
      var (nonce, body) := SplitAt(bytes, AES_NONCE_SIZE);
      match p.open(keyHash, nonce, body)
      case Err(e) => Err(e)
      case Ok(plain) => p.utf8Decode(plain)
  }

  /** Splitting `nonce ++ c` at `AES_NONCE_SIZE` gives back `(nonce, c)`. */
  lemma SplitFrame(nonce: seq<byte>, c: seq<byte>)
    requires |nonce| == AES_NONCE_SIZE
    ensures SplitAt(nonce + c, AES_NONCE_SIZE) == (nonce, c)
  {
    assert (nonce + c)[..AES_NONCE_SIZE] == nonce;
    assert (nonce + c)[AES_NONCE_SIZE..] == c;
  }

  /**
   * Framing of an envelope: before base64, it is exactly the nonce followed by
   * the AEAD output, and is `AES_NONCE_SIZE + TAG_SIZE` bytes longer than the
   * plaintext.
   */
  lemma EnvelopeLayout(p: Primitives, plaintext: string, key: string, nonce: seq<byte>)
    requires Sound(p) && |nonce| == AES_NONCE_SIZE
    requires Encrypted(p, plaintext, key, nonce).Ok?
    ensures var c := p.seal(Digest(p, key), nonce, p.utf8Encode(plaintext));
      && c.Ok?
      && p.b64Decode(Encrypted(p, plaintext, key, nonce).value) == Ok(nonce + c.value)
      && |nonce + c.value| == AES_NONCE_SIZE + |p.utf8Encode(plaintext)| + TAG_SIZE
  {
  }

  /** A base64 failure is reported as such, whatever the key: key derivation and the AEAD are never reached. */
  lemma DecodeErrorFirst(p: Primitives, data: string, key: string)
    requires Sound(p) && p.b64Decode(data).Err?
    ensures WellFramed(p, data)
    ensures Decrypt(p, data, key) == Err(p.b64Decode(data).error)
  {
  }

  /** An AEAD failure (wrong key, tampering) is always an error, never a plaintext: the AEAD's own error. */
  lemma AuthenticationFailureIsError(p: Primitives, data: string, key: string)
    requires Sound(p) && WellFramed(p, data) && p.b64Decode(data).Ok?
    requires var split := SplitAt(p.b64Decode(data).value, AES_NONCE_SIZE);
      p.open(Digest(p, key), split.0, split.1).Err?
    ensures var split := SplitAt(p.b64Decode(data).value, AES_NONCE_SIZE);
      Decrypt(p, data, key) == Err(p.open(Digest(p, key), split.0, split.1).error)
  {
  }

  /** A plaintext that is not UTF-8 is always an error, carrying the UTF-8 decoder's error. */
  lemma InvalidUtf8IsError(p: Primitives, data: string, key: string)
    requires Sound(p) && WellFramed(p, data) && p.b64Decode(data).Ok?
    requires var split := SplitAt(p.b64Decode(data).value, AES_NONCE_SIZE);
      var plain := p.open(Digest(p, key), split.0, split.1);
      plain.Ok? && p.utf8Decode(plain.value).Err?
    ensures var split := SplitAt(p.b64Decode(data).value, AES_NONCE_SIZE);
      Decrypt(p, data, key) == Err(p.utf8Decode(p.open(Digest(p, key), split.0, split.1).value).error)
  {
  }

  /**
   * The round trip: what `encrypt` produced under a passphrase, `decrypt` turns
   * back into the plaintext under the same passphrase, without panicking.
   */
  lemma DecryptEncrypted(p: Primitives, plaintext: string, key: string, nonce: seq<byte>)
    requires Sound(p) && |nonce| == AES_NONCE_SIZE
    requires Encrypted(p, plaintext, key, nonce).Ok?
    ensures WellFramed(p, Encrypted(p, plaintext, key, nonce).value)
    ensures Decrypt(p, Encrypted(p, plaintext, key, nonce).value, key) == Ok(plaintext)
  {
    var k := Digest(p, key);
    var m := p.utf8Encode(plaintext);
    var c := p.seal(k, nonce, m).value;
    SplitFrame(nonce, c);
    assert p.open(k, nonce, c) == Ok(m);
  }
}
