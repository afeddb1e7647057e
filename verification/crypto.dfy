/** The cipher of server/utils/crypto.ts: random hex tokens, PBKDF2 key derivation and
    AES-256-GCM encryption with the authentication tag carried apart from the ciphertext.

    The Web Crypto primitives are not modelled; they are the fields of a `Platform` value.
    What they are taken to guarantee (the AEAD round trip, the 16-byte tag, the UTF-8 round
    trip, authenticity) is stated by the predicates `SoundPlatform` and `AuthenticOpen`, which
    the lemmas that need them require.

    `new TextDecoder()` is the platform's plain UTF-8 decoder followed by `StripBom`: with its
    default `ignoreBOM: false` it drops one leading U+FEFF. So decrypt, as written, gives back
    a message that begins with U+FEFF without it; `DecryptIntended` is the decryption that
    keeps it. */
module Crypto {
  import opened Results
  import opened JsText
  import opened JsNumber
  import opened Hex

  /** Length in bytes of the AES-GCM authentication tag split off the ciphertext. */
  const TagLength := 16
  const AccessKeyLength := 32
  const SaltLength := 16
  const IvLength := 16
  const IdLength := 16
  const Pbkdf2Iterations := 100000

  /** The runtime's cryptography.
      hasRandom: `crypto.getRandomValues` exists; hasSubtle: `crypto.subtle` exists;
      derive(password, salt, iterations): PBKDF2 with HMAC-SHA-256 to a 256-bit AES key;
      seal(key, iv, plaintext): AES-GCM encryption, ciphertext followed by the tag;
      open(key, iv, data): AES-GCM decryption, None when the tag does not verify;
      utf8Encode: TextEncoder; utf8Decode: UTF-8 decoding that keeps a leading U+FEFF,
      which is `new TextDecoder('utf-8', { ignoreBOM: true })`. */
  datatype Platform = Platform(
    hasRandom: bool,
    hasSubtle: bool,
    derive: (seq<byte>, seq<byte>, nat) -> seq<byte>,
    seal: (seq<byte>, seq<byte>, seq<byte>) -> seq<byte>,
    open: (seq<byte>, seq<byte>, seq<byte>) -> Option<seq<byte>>,
    utf8Encode: string -> seq<byte>,
    utf8Decode: seq<byte> -> string)

  /** What AES-GCM and the UTF-8 codec guarantee: sealing appends a 16-byte tag, opening
      with the same key and IV recovers the plaintext, and UTF-8 decoding that keeps a byte
      order mark inverts encoding (a Dafny string holds no lone surrogates). */
  ghost predicate SoundPlatform(p: Platform) {
    && (forall key, iv, plain :: |p.seal(key, iv, plain)| == |plain| + TagLength)
    && (forall key, iv, plain :: p.open(key, iv, p.seal(key, iv, plain)) == Some(plain))
    && (forall s :: p.utf8Decode(p.utf8Encode(s)) == s)
  }

  /** The byte order mark U+FEFF. */
  const Bom: char := '\U{FEFF}'

  /** What the default `TextDecoder` does after decoding: one leading byte order mark is
      dropped, and nothing else changes. */
  function StripBom(s: string): (t: string)
    ensures |s| > 0 && s[0] == Bom ==> t == s[1..]
    ensures !(|s| > 0 && s[0] == Bom) ==> t == s
    ensures s == t || s == [Bom] + t
  {
    if |s| > 0 && s[0] == Bom then s[1..] else s
  }

  /** Authenticity, idealised: opening succeeds only on the exact output of sealing. */
  ghost predicate AuthenticOpen(p: Platform) {
    forall key, iv, data :: p.open(key, iv, data).Some? ==>
      data == p.seal(key, iv, p.open(key, iv, data).value)
  }

  datatype CryptoError =
    | CryptoUnavailable   // the Web Crypto API is missing
    | DecryptionFailed    // AES-GCM rejected the data: wrong key, IV, salt, tag or ciphertext

  /** What is stored: ciphertext without its tag, IV, salt and tag, all as hex. */
  datatype Sealed = Sealed(encrypted: string, iv: string, salt: string, authTag: string)

  /** What `encrypt` returns: the stored part and the access key, which is never stored. */
  datatype Encryption = Encryption(sealed: Sealed, accessKey: string)

  /** The shape encrypt promises: a 64-digit access key, 32-digit salt and IV, all
      lower-case hex. */
  predicate WellFormedEncryption(e: Encryption) {
    && |e.accessKey| == 64 && |e.sealed.salt| == 32 && |e.sealed.iv| == 32
    && IsLowerHex(e.accessKey) && IsLowerHex(e.sealed.salt) && IsLowerHex(e.sealed.iv)
    && IsLowerHex(e.sealed.encrypted) && IsLowerHex(e.sealed.authTag)
  }

  /** The access key, salt and IV render the first 32, next 16 and next 16 random bytes. */
  predicate RandomnessUsed(e: Encryption, rnd: seq<byte>)
    requires |rnd| >= 64
  {
    && DecodeHex(e.accessKey) == rnd[..32]
    && DecodeHex(e.sealed.salt) == rnd[32..48]
    && DecodeHex(e.sealed.iv) == rnd[48..64]
  }

  /** getRandomBytes(n): n bytes drawn from the front of the random stream, as hex. */
  function GetRandomBytes(p: Platform, rnd: seq<byte>, n: nat): (r: Result<(string, seq<byte>), CryptoError>)
    requires n <= |rnd|
    ensures r.Ok? <==> p.hasRandom
    ensures r.Ok? ==> |r.value.0| == 2 * n && IsLowerHex(r.value.0)
    ensures r.Ok? ==> DecodeHex(r.value.0) == rnd[..n] && r.value.1 == rnd[n..]
  {
    if !p.hasRandom then Err(CryptoUnavailable)
    else
      DecodeEncodeHex(rnd[..n]);
      Ok((EncodeHex(rnd[..n]), rnd[n..]))
  }

  /** Three successive draws of 32, 16 and 16 bytes read the stream front to back: they
      render its first 32 bytes, the next 16 and the 16 after those, and leave the rest. */
  lemma RandomStreamOrder(p: Platform, rnd: seq<byte>)
    requires |rnd| >= 64
    requires p.hasRandom
    ensures var (a, rnd1) := GetRandomBytes(p, rnd, 32).value;
      var (b, rnd2) := GetRandomBytes(p, rnd1, 16).value;
      var (c, rnd3) := GetRandomBytes(p, rnd2, 16).value;
      && DecodeHex(a) == rnd[..32] && DecodeHex(b) == rnd[32..48] && DecodeHex(c) == rnd[48..64]
      && rnd3 == rnd[64..]
  {
    assert rnd[32..][..16] == rnd[32..48];
    assert rnd[32..][16..][..16] == rnd[48..64];
    assert rnd[32..][16..][16..] == rnd[64..];
  }

  /** generateId: 16 random bytes as 32 lower-case hex characters. */
  function GenerateId(p: Platform, rnd: seq<byte>): (r: Result<(string, seq<byte>), CryptoError>)
    requires IdLength <= |rnd|
    ensures r.Ok? <==> p.hasRandom
    ensures r.Ok? ==> |r.value.0| == 32 && IsLowerHex(r.value.0) && r.value.1 == rnd[IdLength..]
    ensures r.Ok? ==> DecodeHex(r.value.0) == rnd[..IdLength]
  {
    GetRandomBytes(p, rnd, IdLength)
  }

  /** The AES key PBKDF2 derives from the UTF-8 bytes of the access key (its hex text, not
      the bytes it spells) and the bytes of the hex salt. */
  function KeyMaterial(p: Platform, password: string, salt: string): seq<byte> {
    p.derive(p.utf8Encode(password), DecodeHex(salt), Pbkdf2Iterations)
  }

  /** deriveKey: fails when `crypto.subtle` is missing. */
  function DeriveKey(p: Platform, password: string, salt: string): (r: Result<seq<byte>, CryptoError>)
    ensures r.Ok? <==> p.hasSubtle
    ensures r.Ok? ==> r.value == KeyMaterial(p, password, salt)
  {
    if !p.hasSubtle then Err(CryptoUnavailable) else Ok(KeyMaterial(p, password, salt))
  }

  /** The tag split of `encrypt`: `slice(L - 16)` is the tag and `slice(0, L - 16)` the
      ciphertext, with slice's negative-index rule when L < 16. */
  function SplitTag(data: seq<byte>): (r: (seq<byte>, seq<byte>))
    ensures r.0 + r.1 == data
    ensures |data| >= TagLength ==> |r.1| == TagLength && r.1 == data[|data| - TagLength..]
    ensures |data| < TagLength ==> |r.1| < TagLength
  {
    var n := |data|;
    (Slice(data, 0, n - TagLength), Slice(data, n - TagLength, n))
  }

  /** encrypt: draws the access key (32 bytes), salt (16) and IV (16) in that order, derives
      the key, seals the UTF-8 message and returns everything as hex, the tag apart. */
  function Encrypt(p: Platform, rnd: seq<byte>, message: string): (r: Result<(Encryption, seq<byte>), CryptoError>)
    requires AccessKeyLength + SaltLength + IvLength <= |rnd|
    ensures r.Ok? <==> p.hasRandom && p.hasSubtle
    ensures r.Ok? ==> WellFormedEncryption(r.value.0)
    ensures r.Ok? ==> RandomnessUsed(r.value.0, rnd) && r.value.1 == rnd[64..]
    ensures r.Ok? && SoundPlatform(p) ==>
      && |r.value.0.sealed.authTag| == 2 * TagLength
      && |r.value.0.sealed.encrypted| == 2 * |p.utf8Encode(message)|
  {
    match GetRandomBytes(p, rnd, AccessKeyLength)
    case Err(e) => Err(e)
    case Ok((accessKey, rnd1)) =>
      var (salt, rnd2) := GetRandomBytes(p, rnd1, SaltLength).value;
      var (iv, rnd3) := GetRandomBytes(p, rnd2, IvLength).value;
      RandomStreamOrder(p, rnd);
      match DeriveKey(p, accessKey, salt)
      case Err(e) => Err(e)
      case Ok(key) => Ok((Encryption(SealWith(p, key, iv, salt, message), accessKey), rnd3))
  }

  /** The AES-GCM step of encrypt: seal the UTF-8 message, split off the tag, render as hex. */
  function SealWith(p: Platform, key: seq<byte>, iv: string, salt: string, message: string): (s: Sealed)
    ensures s.iv == iv && s.salt == salt
    ensures IsLowerHex(s.encrypted) && IsLowerHex(s.authTag)
    ensures SoundPlatform(p) ==>
      |s.authTag| == 2 * TagLength && |s.encrypted| == 2 * |p.utf8Encode(message)|
  {
    var data := p.seal(key, DecodeHex(iv), p.utf8Encode(message));
    var (content, tag) := SplitTag(data);
    Sealed(EncodeHex(content), iv, salt, EncodeHex(tag))
  }

  /** The AES-GCM input decrypt rebuilds from a stored row: ciphertext then tag. */
  function SealedBytes(s: Sealed): seq<byte> {
    DecodeHex(s.encrypted) + DecodeHex(s.authTag)
  }

  /** The plaintext bytes decrypt recovers: re-join ciphertext and tag, derive the key from
      the access key and salt, open. */
  function OpenSealed(p: Platform, s: Sealed, accessKey: string): (r: Result<seq<byte>, CryptoError>)
    ensures !p.hasSubtle ==> r == Err(CryptoUnavailable)
    ensures r.Err? && p.hasSubtle ==> r.error == DecryptionFailed
    ensures p.hasSubtle ==>
      (r.Ok? <==> p.open(KeyMaterial(p, accessKey, s.salt), DecodeHex(s.iv), SealedBytes(s)).Some?)
    ensures r.Ok? ==>
      Some(r.value) == p.open(KeyMaterial(p, accessKey, s.salt), DecodeHex(s.iv), SealedBytes(s))
  {
    var ivArray := DecodeHex(s.iv);
    var full := SealedBytes(s);
    match DeriveKey(p, accessKey, s.salt)
    case Err(e) => Err(e)
    case Ok(key) =>
      match p.open(key, ivArray, full)
      case None => Err(DecryptionFailed)
      case Some(plain) => Ok(plain)
  }

  /** decrypt as written: open, then `new TextDecoder().decode`, which drops a leading
      U+FEFF. */
  function Decrypt(p: Platform, s: Sealed, accessKey: string): (r: Result<string, CryptoError>)
    ensures !p.hasSubtle ==> r == Err(CryptoUnavailable)
    ensures r.Err? && p.hasSubtle ==> r.error == DecryptionFailed
    ensures r.Ok? <==> DecryptIntended(p, s, accessKey).Ok?
    ensures r.Ok? ==> r.value == StripBom(DecryptIntended(p, s, accessKey).value)
  {
    match OpenSealed(p, s, accessKey)
    case Err(e) => Err(e)
    case Ok(plain) => Ok(StripBom(p.utf8Decode(plain)))
  }

  /** decrypt as evidently intended: the decoder keeps a leading U+FEFF
      (`new TextDecoder('utf-8', { ignoreBOM: true })`). */
  function DecryptIntended(p: Platform, s: Sealed, accessKey: string): (r: Result<string, CryptoError>)
    ensures !p.hasSubtle ==> r == Err(CryptoUnavailable)
    ensures r.Err? && p.hasSubtle ==> r.error == DecryptionFailed
    ensures p.hasSubtle ==>
      (r.Ok? <==> p.open(KeyMaterial(p, accessKey, s.salt), DecodeHex(s.iv), SealedBytes(s)).Some?)
    ensures r.Ok? ==>
      r.value == p.utf8Decode(p.open(KeyMaterial(p, accessKey, s.salt), DecodeHex(s.iv), SealedBytes(s)).value)
  {
    match OpenSealed(p, s, accessKey)
    case Err(e) => Err(e)
    case Ok(plain) => Ok(p.utf8Decode(plain))
  }

  /** The tag split at encrypt time and the recombination at decrypt time, through hex
      and back, give the sealed bytes again. */
  lemma SplitRecombine(data: seq<byte>)
    ensures DecodeHex(EncodeHex(SplitTag(data).0)) + DecodeHex(EncodeHex(SplitTag(data).1)) == data
  {
    DecodeEncodeHex(SplitTag(data).0);
    DecodeEncodeHex(SplitTag(data).1);
  }

  /** Decrypting what encrypt returned, with its access key, gives back the message, less a
      leading U+FEFF; a message that does not begin with U+FEFF comes back unchanged, and
      the intended decryption gives back every message. */
  lemma EncryptDecrypt(p: Platform, rnd: seq<byte>, message: string)
    requires AccessKeyLength + SaltLength + IvLength <= |rnd|
    requires SoundPlatform(p)
    requires p.hasRandom && p.hasSubtle
    ensures Encrypt(p, rnd, message).Ok?
    ensures var e := Encrypt(p, rnd, message).value.0;
      && DecryptIntended(p, e.sealed, e.accessKey) == Ok(message)
      && Decrypt(p, e.sealed, e.accessKey) == Ok(StripBom(message))
      && (!(|message| > 0 && message[0] == Bom) ==> Decrypt(p, e.sealed, e.accessKey) == Ok(message))
  {
    var e := Encrypt(p, rnd, message).value.0;
    var key := KeyMaterial(p, e.accessKey, e.sealed.salt);
    var data := p.seal(key, DecodeHex(e.sealed.iv), p.utf8Encode(message));
    assert e.sealed == SealWith(p, key, e.sealed.iv, e.sealed.salt, message);
    assert e.sealed.encrypted == EncodeHex(SplitTag(data).0);
    assert e.sealed.authTag == EncodeHex(SplitTag(data).1);
    SplitRecombine(data);
  }

  /** Tamper detection: when decryption succeeds, the stored ciphertext and tag are exactly
      the sealing, under the key derived from the given access key and salt, of the bytes
      the returned plaintext was decoded from; as written the decoder then drops a leading
      U+FEFF, as intended it keeps it. */
  lemma DecryptOnlySealed(p: Platform, s: Sealed, accessKey: string)
    requires AuthenticOpen(p)
    requires Decrypt(p, s, accessKey).Ok?
    ensures p.hasSubtle && DecryptIntended(p, s, accessKey).Ok?
    ensures exists plain ::
      && SealedBytes(s) == p.seal(KeyMaterial(p, accessKey, s.salt), DecodeHex(s.iv), plain)
      && Decrypt(p, s, accessKey).value == StripBom(p.utf8Decode(plain))
      && DecryptIntended(p, s, accessKey).value == p.utf8Decode(plain)
  {
    var key := KeyMaterial(p, accessKey, s.salt);
    var full := SealedBytes(s);
    var plain := p.open(key, DecodeHex(s.iv), full).value;
    assert full == p.seal(key, DecodeHex(s.iv), plain);
  }

  /** As written, a message that begins with a byte order mark loses it in the round trip:
      "\u{FEFF}hi" is decrypted as "hi". */
  lemma BomLostInRoundTrip(p: Platform, rnd: seq<byte>)
    requires AccessKeyLength + SaltLength + IvLength <= |rnd|
    requires SoundPlatform(p)
    requires p.hasRandom && p.hasSubtle
    ensures var e := Encrypt(p, rnd, [Bom] + "hi").value.0;
      && Decrypt(p, e.sealed, e.accessKey) == Ok("hi")
      && Decrypt(p, e.sealed, e.accessKey) != Ok([Bom] + "hi")
  {
    EncryptDecrypt(p, rnd, [Bom] + "hi");
    assert ([Bom] + "hi")[1..] == "hi";
  }
}
