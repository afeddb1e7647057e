/** The life of one secret, across server/utils/crypto.ts and server/utils/database.ts: the
    sender stores a message and receives the relative link `/view/{id}#{key}`; the browser of
    the recipient resolves that link against the site's origin; the id from the link fetches
    the sealed row, the key from the fragment opens it, and the row is deleted after reading. */
module Lifecycle {
  import opened Results
  import opened JsNumber
  import opened Crypto
  import opened ShareUrl
  import opened MessageStore

  /** A link built on the empty base and resolved against an origin is the link built on
      that origin. */
  lemma ResolvedLink(messageId: string, accessKey: string, origin: string)
    ensures origin + GenerateSecureUrl(messageId, accessKey, DefaultBaseUrl)
      == GenerateSecureUrl(messageId, accessKey, origin)
  {
  }

  /** Store, share, read once. When storing succeeds, the link read on the recipient's side
      names the stored row and carries the key that opens it; until the row expires it is
      returned unchanged, it decrypts to the message that was stored (less a leading
      U+FEFF, which the default TextDecoder drops), and once it has been
      deleted after reading it is NotFound at any later instant. */
  lemma ShareAndReadOnce(
    parse: UrlParser, st: Store, p: Platform, rnd: seq<byte>, now: int, message: string,
    origin: string, t: int, later: int)
    requires RandomBytesPerMessage <= |rnd|
    requires SoundPlatform(p) && UrlStandardFacts(parse) && IsOrigin(origin)
    requires p.hasRandom && p.hasSubtle && !(st.backend == Hub && NewId(rnd) in st.rows)
    requires t <= now + TtlMillis
    ensures var (st1, created) := StoreMessage(st, p, rnd, now, message);
      && created.Ok?
      && ParseSecureUrl(parse, origin + created.value.accessUrl)
           == Ok(SecureLink(created.value.id, NewAccessKey(rnd)))
      && RetrieveEncryptedMessage(st1, created.value.id, t) == (st1, Ok(st1.rows[created.value.id]))
      && Decrypt(p, SealedOf(st1.rows[created.value.id]), NewAccessKey(rnd)) == Ok(StripBom(message))
      && (!(|message| > 0 && message[0] == Bom) ==>
            Decrypt(p, SealedOf(st1.rows[created.value.id]), NewAccessKey(rnd)) == Ok(message))
      && DecryptIntended(p, SealedOf(st1.rows[created.value.id]), NewAccessKey(rnd)) == Ok(message)
      && RetrieveEncryptedMessage(DeleteMessage(st1, created.value.id), created.value.id, later).1
           == Err(NotFound)
  {
    var (st1, created) := StoreMessage(st, p, rnd, now, message);
    var id, key := created.value.id, NewAccessKey(rnd);
    HexIsPlainSegment(id);
    HexIsPlainSegment(key);
    ResolvedLink(id, key, origin);
    ParseGeneratedUrl(parse, id, key, origin);
    StoredMessageLifetime(st, p, rnd, now, message, t);
    StoredRowDecrypts(st, p, rnd, now, message);
  }

  /** The link exactly as the create endpoint returns it, before any browser resolves it,
      is not one parseSecureUrl reads. */
  lemma ReturnedLinkIsRelative(parse: UrlParser, st: Store, p: Platform, rnd: seq<byte>, now: int, message: string)
    requires RandomBytesPerMessage <= |rnd|
    requires UrlStandardFacts(parse)
    requires p.hasRandom && p.hasSubtle && !(st.backend == Hub && NewId(rnd) in st.rows)
    ensures StoreMessage(st, p, rnd, now, message).1.Ok?
    ensures ParseSecureUrl(parse, StoreMessage(st, p, rnd, now, message).1.value.accessUrl) == Err(InvalidUrl)
  {
    var created := StoreMessage(st, p, rnd, now, message).1.value;
    DefaultBaseLinkDoesNotParse(parse, created.id, NewAccessKey(rnd));
  }
}
