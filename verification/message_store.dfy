/** The message store of server/utils/database.ts: a table of encrypted messages keyed by
    id, with storeMessage, retrieveEncryptedMessage and deleteMessage.

    The table is a map from id to row. Which backend serves it matters in two places:
    the hub database declares `id` a PRIMARY KEY, so inserting an existing id fails, while
    the in-memory fallback is a JavaScript Map, whose `set` overwrites. */
module MessageStore {
  import opened Results
  import opened JsNumber
  import opened Hex
  import opened Crypto
  import opened ShareUrl

  /** Time to live of a message: 24 hours in milliseconds. */
  const TtlMillis := 24 * 60 * 60 * 1000

  /** A stored row: everything needed to decrypt except the access key. */
  datatype SecureMessage = SecureMessage(
    id: string,
    encrypted: string,
    iv: string,
    salt: string,
    authTag: string,
    createdAt: int,
    expiresAt: int)

  datatype Backend =
    | Hub        // the hub database: a SQL table with `id TEXT PRIMARY KEY`
    | InMemory   // the fallback `Map<string, SecureMessage>`

  datatype Store = Store(backend: Backend, rows: map<string, SecureMessage>)

  /** Every row is filed under its own id. */
  predicate WellKeyed(st: Store) {
    forall id :: id in st.rows ==> st.rows[id].id == id
  }

  /** The expiry test of retrieveEncryptedMessage and of the cleanup sweep. */
  predicate IsExpired(row: SecureMessage, now: int) {
    row.expiresAt < now
  }

  /** The row storeMessage inserts, built from the id, the stored part of the encryption and
      the clock; the access key is not among its inputs. */
  function RowOf(id: string, s: Sealed, now: int): (row: SecureMessage)
    ensures row.id == id && row.createdAt == now
    ensures row.expiresAt == row.createdAt + TtlMillis
  {
    SecureMessage(id, s.encrypted, s.iv, s.salt, s.authTag, now, now + TtlMillis)
  }

  /** The ciphertext material of a row, as decrypt takes it. */
  function SealedOf(row: SecureMessage): Sealed {
    Sealed(row.encrypted, row.iv, row.salt, row.authTag)
  }

  datatype InsertError = ConstraintViolation

  /** `INSERT INTO secure_messages …`: the hub table refuses an existing id; the fallback
      map's `set` replaces the row filed under it. */
  function Insert(st: Store, row: SecureMessage): (r: Result<Store, InsertError>)
    ensures r.Err? <==> st.backend == Hub && row.id in st.rows
    ensures r.Ok? ==> r.value.backend == st.backend
    ensures r.Ok? ==> r.value.rows.Keys == st.rows.Keys + {row.id} && r.value.rows[row.id] == row
    ensures r.Ok? ==> forall id :: id in st.rows && id != row.id ==> r.value.rows[id] == st.rows[id]
  {
    match st.backend
    case Hub => if row.id in st.rows then Err(ConstraintViolation) else Ok(st.(rows := st.rows[row.id := row]))
    case InMemory => Ok(st.(rows := st.rows[row.id := row]))
  }

  /** `DELETE FROM secure_messages WHERE id = ?`, and the fallback map's `delete`. */
  function DeleteMessage(st: Store, id: string): (st': Store)
    ensures st'.backend == st.backend
    ensures st'.rows.Keys == st.rows.Keys - {id}
    ensures forall other :: other in st'.rows ==> st'.rows[other] == st.rows[other]
  {
    st.(rows := st.rows - {id})
  }

  datatype StoreError = StoreFailed

  datatype Created = Created(id: string, accessUrl: string)

  /** Random bytes storeMessage draws: 16 for the id, then 64 for encrypt. */
  const RandomBytesPerMessage := IdLength + AccessKeyLength + SaltLength + IvLength

  /** The id storeMessage draws from the random stream. */
  function NewId(rnd: seq<byte>): string
    requires IdLength <= |rnd|
  {
    EncodeHex(rnd[..IdLength])
  }

  /** The access key storeMessage's encryption draws from the random stream. */
  function NewAccessKey(rnd: seq<byte>): string
    requires RandomBytesPerMessage <= |rnd|
  {
    EncodeHex(rnd[IdLength..IdLength + AccessKeyLength])
  }

  /** The access key encrypt returns inside storeMessage renders bytes 16 to 48 of the stream. */
  lemma AccessKeyFromStream(p: Platform, rnd: seq<byte>, message: string)
    requires RandomBytesPerMessage <= |rnd|
    requires p.hasRandom && p.hasSubtle
    ensures Encrypt(p, rnd[IdLength..], message).Ok?
    ensures Encrypt(p, rnd[IdLength..], message).value.0.accessKey == NewAccessKey(rnd)
  {
    StreamAfterId(rnd);
    var k := Encrypt(p, rnd[IdLength..], message).value.0.accessKey;
    assert |k| == 64 && IsLowerHex(k);
    EncodeDecodeHex(k);
  }

  lemma StreamAfterId(rnd: seq<byte>)
    requires RandomBytesPerMessage <= |rnd|
    ensures rnd[IdLength..][..AccessKeyLength] == rnd[IdLength..IdLength + AccessKeyLength]
  {
  }

  /** storeMessage: draw an id, encrypt, insert the row with a 24-hour expiry, and return
      the id with the link `/view/{id}#{accessKey}`. Every failure becomes StoreFailed and
      leaves the store as it was. */
  function StoreMessage(st: Store, p: Platform, rnd: seq<byte>, now: int, message: string)
    : (r: (Store, Result<Created, StoreError>))
    requires RandomBytesPerMessage <= |rnd|
    ensures r.1.Ok? <==> p.hasRandom && p.hasSubtle && !(st.backend == Hub && NewId(rnd) in st.rows)
    ensures r.1.Err? ==> r.0 == st
    ensures r.1.Ok? ==>
      var (st', c) := (r.0, r.1.value);
      && c.id == NewId(rnd) && |c.id| == 32 && IsLowerHex(c.id)
      && st'.backend == st.backend
      && st'.rows.Keys == st.rows.Keys + {c.id}
      && st'.rows[c.id].id == c.id
      && st'.rows[c.id].createdAt == now
      && st'.rows[c.id].expiresAt == now + TtlMillis
      && (forall other :: other in st.rows && other != c.id ==> st'.rows[other] == st.rows[other])
      && c.accessUrl == GenerateSecureUrl(c.id, NewAccessKey(rnd), DefaultBaseUrl)
  {
    match GenerateId(p, rnd)
    case Err(_) => (st, Err(StoreFailed))
    case Ok((id, rnd1)) =>
      assert rnd1 == rnd[IdLength..];
      match Encrypt(p, rnd1, message)
      case Err(_) => (st, Err(StoreFailed))
      case Ok((e, _)) =>
        AccessKeyFromStream(p, rnd, message);
        match Insert(st, RowOf(id, e.sealed, now))
        case Err(_) => (st, Err(StoreFailed))
        case Ok(st') => (st', Ok(Created(id, GenerateSecureUrl(id, e.accessKey, DefaultBaseUrl))))
  }

  datatype RetrieveError =
    | NotFound   // "Message not found or already viewed"
    | Expired    // "Message has expired"

  /** retrieveEncryptedMessage: an absent id is NotFound; an expired row is deleted and
      reported Expired; any other row is returned as stored, and stays. */
  function RetrieveEncryptedMessage(st: Store, id: string, now: int)
    : (r: (Store, Result<SecureMessage, RetrieveError>))
    ensures id !in st.rows ==> r == (st, Err(NotFound))
    ensures id in st.rows && IsExpired(st.rows[id], now) ==>
      && r.1 == Err(Expired)
      && r.0.backend == st.backend && r.0.rows.Keys == st.rows.Keys - {id}
      && (forall other :: other in r.0.rows ==> r.0.rows[other] == st.rows[other])
    ensures id in st.rows && !IsExpired(st.rows[id], now) ==> r == (st, Ok(st.rows[id]))
  {
    if id !in st.rows then (st, Err(NotFound))
    else
      var row := st.rows[id];
      if IsExpired(row, now) then (DeleteMessage(st, id), Err(Expired))
      else (st, Ok(row))
  }

  /** The rows of `after` are rows of `before`, unchanged: no operation but insert adds or
      alters a row. */
  predicate SubStore(after: Store, before: Store) {
    && after.backend == before.backend
    && after.rows.Keys <= before.rows.Keys
    && forall id :: id in after.rows ==> after.rows[id] == before.rows[id]
  }

  /** Retrieval and deletion only ever remove rows; a deleted id never comes back without
      a new insert. */
  lemma RetrieveAndDeleteOnlyRemove(st: Store, id: string, other: string, now: int)
    ensures SubStore(RetrieveEncryptedMessage(st, id, now).0, st)
    ensures SubStore(DeleteMessage(st, id), st)
    ensures other in st.rows && other != id ==>
      && other in RetrieveEncryptedMessage(st, id, now).0.rows
      && other in DeleteMessage(st, id).rows
  {
  }

  /** Every operation keeps each row filed under its own id. */
  lemma OperationsKeepRowsKeyed(st: Store, p: Platform, rnd: seq<byte>, now: int, message: string, id: string)
    requires WellKeyed(st)
    requires RandomBytesPerMessage <= |rnd|
    ensures WellKeyed(StoreMessage(st, p, rnd, now, message).0)
    ensures WellKeyed(RetrieveEncryptedMessage(st, id, now).0)
    ensures WellKeyed(DeleteMessage(st, id))
  {
  }

  /** The duplicate-id case, where the two backends part: the hub table refuses the insert,
      the in-memory map replaces the earlier row and leaves every other row as it was. */
  lemma DuplicateIdInsert(rows: map<string, SecureMessage>, row: SecureMessage)
    requires row.id in rows
    ensures Insert(Store(Hub, rows), row) == Err(ConstraintViolation)
    ensures Insert(Store(InMemory, rows), row) == Ok(Store(InMemory, rows[row.id := row]))
    ensures rows[row.id] != row ==> Insert(Store(InMemory, rows), row).value.rows[row.id] != rows[row.id]
  {
  }

  /** The stored row is built from the id, the stored part of encrypt's result and the clock:
      the access key reaches only the returned link. */
  lemma StoredRowHoldsNoKey(st: Store, p: Platform, rnd: seq<byte>, now: int, message: string)
    requires RandomBytesPerMessage <= |rnd|
    requires p.hasRandom && p.hasSubtle && !(st.backend == Hub && NewId(rnd) in st.rows)
    ensures var (st', c) := (StoreMessage(st, p, rnd, now, message).0, StoreMessage(st, p, rnd, now, message).1.value);
      && Encrypt(p, rnd[IdLength..], message).Ok?
      && st'.rows[c.id] == RowOf(c.id, Encrypt(p, rnd[IdLength..], message).value.0.sealed, now)
      && NewAccessKey(rnd) == Encrypt(p, rnd[IdLength..], message).value.0.accessKey
  {
    var id := GenerateId(p, rnd).value.0;
    var e := Encrypt(p, rnd[IdLength..], message).value.0;
    AccessKeyFromStream(p, rnd, message);
    assert StoreMessage(st, p, rnd, now, message).0 == Insert(st, RowOf(id, e.sealed, now)).value;
  }

  /** The stored row together with the key from the link decrypts to the message, less a
      leading U+FEFF; the intended decryption gives back the message itself. */
  lemma StoredRowDecrypts(st: Store, p: Platform, rnd: seq<byte>, now: int, message: string)
    requires RandomBytesPerMessage <= |rnd|
    requires SoundPlatform(p)
    requires p.hasRandom && p.hasSubtle && !(st.backend == Hub && NewId(rnd) in st.rows)
    ensures var (st', c) := (StoreMessage(st, p, rnd, now, message).0, StoreMessage(st, p, rnd, now, message).1.value);
      && Decrypt(p, SealedOf(st'.rows[c.id]), NewAccessKey(rnd)) == Ok(StripBom(message))
      && DecryptIntended(p, SealedOf(st'.rows[c.id]), NewAccessKey(rnd)) == Ok(message)
  {
    StoredRowHoldsNoKey(st, p, rnd, now, message);
    EncryptDecrypt(p, rnd[IdLength..], message);
  }

  /** Read once: a row that was retrieved and then deleted is NotFound afterwards. */
  lemma RetrieveDeleteRetrieve(st: Store, id: string, now: int, later: int)
    requires RetrieveEncryptedMessage(st, id, now).1.Ok?
    ensures var st' := DeleteMessage(RetrieveEncryptedMessage(st, id, now).0, id);
      RetrieveEncryptedMessage(st', id, later) == (st', Err(NotFound))
  {
  }

  /** A stored message is returned unchanged up to and including its expiry instant, and is
      Expired and gone from any later instant on. */
  lemma StoredMessageLifetime(st: Store, p: Platform, rnd: seq<byte>, now: int, message: string, t: int)
    requires RandomBytesPerMessage <= |rnd|
    requires p.hasRandom && p.hasSubtle && !(st.backend == Hub && NewId(rnd) in st.rows)
    ensures var (st', c) := (StoreMessage(st, p, rnd, now, message).0, StoreMessage(st, p, rnd, now, message).1.value);
      && (t <= now + TtlMillis ==> RetrieveEncryptedMessage(st', c.id, t) == (st', Ok(st'.rows[c.id])))
      && (t > now + TtlMillis ==>
            && RetrieveEncryptedMessage(st', c.id, t).1 == Err(Expired)
            && c.id !in RetrieveEncryptedMessage(st', c.id, t).0.rows)
  {
  }
}
