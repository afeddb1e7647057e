/** The message-creation endpoint of server/api/create.post.ts: validate the `message` field
    of the JSON body, then store it and answer with the id and the share link.

    As written, every error thrown inside the handler, the validation errors included, is
    caught by one outer `catch` and replaced by a 500. `HandleCreate` models that;
    `HandleCreateIntended` is the handler whose validation errors keep the status they were
    thrown with. */
module CreateHandler {
  import opened Results
  import opened JsText
  import opened JsNumber
  import opened Crypto
  import opened MessageStore

  /** Largest accepted message, in UTF-16 code units (the `length` of the string). */
  const MaxMessageLength := 100000

  /** The `message` property of the parsed body. */
  datatype MessageField =
    | Missing            // absent, or a falsy non-string such as null, 0 or false
    | NonString          // present but not a string
    | Text(value: string)

  /** What readBody returns: nothing, or a JSON value whose `message` is read. */
  datatype Body = NoBody | JsonBody(message: MessageField)

  datatype CreateError =
    | InvalidFormat    // 400 "Invalid message format"
    | TooLarge         // 413 "Message too large - maximum size is 100KB"
    | InvalidContent   // 400 "Invalid content detected"
    | EmptyMessage     // 400 "Message cannot be empty"
    | ServerError      // 500 "Failed to create secure message"

  /** The HTTP status each error is thrown with. */
  function StatusOf(e: CreateError): (status: int)
    ensures status == 500 <==> e == ServerError
    ensures status == 413 <==> e == TooLarge
    ensures status == 400 <==> e.InvalidFormat? || e.InvalidContent? || e.EmptyMessage?
  {
    match e
    case InvalidFormat => 400
    case TooLarge => 413
    case InvalidContent => 400
    case EmptyMessage => 400
    case ServerError => 500
  }

  /** The two markers the content check rejects, matched case-sensitively. */
  predicate HasScriptMarker(m: string) {
    Contains(m, "<script") || Contains(m, "javascript:")
  }

  /** A message the four checks let through: it holds a visible character and is at most
      100000 characters long. */
  function Acceptable(m: string): (ok: bool)
    ensures ok ==> 0 < |m| <= MaxMessageLength && Trim(m) != []
  {
    TrimEmptyIffBlank(m);
    && m != ""
    && Utf16Length(m) <= MaxMessageLength
    && !HasScriptMarker(m)
    && !AllWhitespace(m)
  }

  /** The four checks in source order; the first that fails decides the error. A missing
      body makes `body.message` throw a TypeError, which only the outer catch handles. */
  function Validate(body: Body): (r: Result<string, CreateError>)
    ensures r.Ok? <==> body.JsonBody? && body.message.Text? && Acceptable(body.message.value)
    ensures r.Ok? ==> r.value == body.message.value
    ensures body.NoBody? ==> r == Err(ServerError)
    ensures body.JsonBody? && !body.message.Text? ==> r == Err(InvalidFormat)
    ensures body == JsonBody(Text("")) ==> r == Err(InvalidFormat)
    ensures body.JsonBody? && body.message.Text? ==>
      var m := body.message.value;
      && (m != "" && Utf16Length(m) > MaxMessageLength ==> r == Err(TooLarge))
      && (m != "" && Utf16Length(m) <= MaxMessageLength && HasScriptMarker(m) ==> r == Err(InvalidContent))
      && (m != "" && Utf16Length(m) <= MaxMessageLength && !HasScriptMarker(m) && AllWhitespace(m)
          ==> r == Err(EmptyMessage))
    ensures r == Err(TooLarge) ==>
      body.JsonBody? && body.message.Text? && Utf16Length(body.message.value) > MaxMessageLength
  {
    match body
    case NoBody => Err(ServerError)
    case JsonBody(field) =>
      match field
      case Missing => Err(InvalidFormat)
      case NonString => Err(InvalidFormat)
      case Text(m) =>
        if m == "" then Err(InvalidFormat)
        else if Utf16Length(m) > MaxMessageLength then Err(TooLarge)
        else if HasScriptMarker(m) then Err(InvalidContent)
        else
          TrimEmptyIffBlank(m);
          if Trim(m) == [] then Err(EmptyMessage)
          else Ok(m)
  }

  /** An HTTP answer: the created message, or an error status. */
  datatype Response = Success(created: Created) | Failure(status: int)

  /** The shared pipeline: validate, then store. */
  function Pipeline(st: Store, p: Platform, rnd: seq<byte>, now: int, body: Body)
    : (r: (Store, Result<Created, CreateError>))
    requires RandomBytesPerMessage <= |rnd|
    ensures r.1.Ok? <==> Validate(body).Ok? && StoreMessage(st, p, rnd, now, Validate(body).value).1.Ok?
    ensures r.1.Err? ==> r.0 == st
    ensures Validate(body).Err? ==> r.1 == Err(Validate(body).error)
    ensures Validate(body).Ok? && r.1.Err? ==> r.1.error == ServerError
    ensures r.1.Ok? ==>
      StoreMessage(st, p, rnd, now, Validate(body).value) == (r.0, Ok(r.1.value))
  {
    match Validate(body)
    case Err(e) => (st, Err(e))
    case Ok(m) =>
      var (st', stored) := StoreMessage(st, p, rnd, now, m);
      match stored
      case Err(_) => (st, Err(ServerError))
      case Ok(c) => (st', Ok(c))
  }

  /** The handler as written: the outer catch answers every failure with 500. */
  function HandleCreate(st: Store, p: Platform, rnd: seq<byte>, now: int, body: Body)
    : (r: (Store, Response))
    requires RandomBytesPerMessage <= |rnd|
    ensures r.1.Failure? ==> r.1.status == 500 && r.0 == st
    ensures r.1.Success? <==> Pipeline(st, p, rnd, now, body).1.Ok?
    ensures r.1.Success? ==>
      StoreMessage(st, p, rnd, now, Validate(body).value) == (r.0, Ok(r.1.created))
  {
    var (st', out) := Pipeline(st, p, rnd, now, body);
    match out
    case Ok(c) => (st', Success(c))
    case Err(_) => (st, Failure(500))
  }

  /** The handler as evidently intended: a validation error keeps its status. */
  function HandleCreateIntended(st: Store, p: Platform, rnd: seq<byte>, now: int, body: Body)
    : (r: (Store, Response))
    requires RandomBytesPerMessage <= |rnd|
    ensures r.1.Failure? ==> r.0 == st
    ensures r.1.Success? <==> Pipeline(st, p, rnd, now, body).1.Ok?
    ensures r.1.Failure? ==> r.1.status == StatusOf(Pipeline(st, p, rnd, now, body).1.error)
    ensures r.1.Success? ==>
      StoreMessage(st, p, rnd, now, Validate(body).value) == (r.0, Ok(r.1.created))
  {
    var (st', out) := Pipeline(st, p, rnd, now, body);
    match out
    case Ok(c) => (st', Success(c))
    case Err(e) => (st, Failure(StatusOf(e)))
  }

  /** A request creates a message exactly when its body carries an acceptable string and
      storing it succeeds; the id is the one drawn from the random stream. */
  lemma CreateAcceptsExactly(st: Store, p: Platform, rnd: seq<byte>, now: int, m: string)
    requires RandomBytesPerMessage <= |rnd|
    ensures HandleCreateIntended(st, p, rnd, now, JsonBody(Text(m))).1.Success?
      <==> Acceptable(m) && p.hasRandom && p.hasSubtle && !(st.backend == Hub && NewId(rnd) in st.rows)
    ensures HandleCreateIntended(st, p, rnd, now, JsonBody(Text(m))).1.Success? ==>
      HandleCreateIntended(st, p, rnd, now, JsonBody(Text(m))).1.created.id == NewId(rnd)
  {
  }

  /** The two handlers create the same messages and differ only in the status of a failure. */
  lemma HandlersAgreeOnSuccess(st: Store, p: Platform, rnd: seq<byte>, now: int, body: Body)
    requires RandomBytesPerMessage <= |rnd|
    ensures HandleCreate(st, p, rnd, now, body).1.Success?
      <==> HandleCreateIntended(st, p, rnd, now, body).1.Success?
    ensures HandleCreate(st, p, rnd, now, body).1.Success? ==>
      HandleCreate(st, p, rnd, now, body) == HandleCreateIntended(st, p, rnd, now, body)
  {
  }

  /** Validation runs before any cryptography: an unacceptable message is refused whatever
      the platform, the random stream and the store, and nothing is stored. */
  lemma RejectedBeforeStoring(st: Store, p: Platform, rnd: seq<byte>, now: int, m: string)
    requires RandomBytesPerMessage <= |rnd|
    requires !Acceptable(m)
    ensures HandleCreateIntended(st, p, rnd, now, JsonBody(Text(m))).0 == st
    ensures HandleCreateIntended(st, p, rnd, now, JsonBody(Text(m))).1.Failure?
    ensures HandleCreateIntended(st, p, rnd, now, JsonBody(Text(m))).1.status in {400, 413}
  {
  }

  /** The size check comes before the content check: an oversized message is refused with
      413 even when it also holds a script marker. */
  lemma SizeCheckedFirst(st: Store, p: Platform, rnd: seq<byte>, now: int, m: string)
    requires RandomBytesPerMessage <= |rnd|
    requires Utf16Length(m) > MaxMessageLength
    ensures HandleCreateIntended(st, p, rnd, now, JsonBody(Text(m))) == (st, Failure(413))
  {
    assert m != "";
  }

  /** A message that begins with a byte order mark passes every check: U+FEFF counts as
      whitespace, but the message holds visible characters after it. Decrypt, as written,
      gives it back without the mark (`Crypto.BomLostInRoundTrip`). */
  lemma BomMessageAccepted(m: string)
    requires m == [Bom] + "hi"
    ensures Validate(JsonBody(Text(m))) == Ok(m)
  {
    assert !IsWhitespace(m[1]);
    assert Utf16Length(m) == 3 by {
      assert forall i :: 0 <= i < |m| ==> m[i] as int < 0x10000;
    }
  }

  /** The message of 100001 copies of 'a' is one code unit over the limit. */
  function OversizedMessage(): (m: string)
    ensures Utf16Length(m) == MaxMessageLength + 1
  {
    var m := seq(MaxMessageLength + 1, _ => 'a');
    assert forall i :: 0 <= i < |m| ==> m[i] as int < 0x10000;
    m
  }

  /** As written, that oversized message is answered 500 instead of the 413 its check throws. */
  lemma OversizedAnswered500(st: Store, p: Platform, rnd: seq<byte>, now: int)
    requires RandomBytesPerMessage <= |rnd|
    ensures HandleCreate(st, p, rnd, now, JsonBody(Text(OversizedMessage()))) == (st, Failure(500))
    ensures HandleCreateIntended(st, p, rnd, now, JsonBody(Text(OversizedMessage()))) == (st, Failure(413))
  {
    SizeCheckedFirst(st, p, rnd, now, OversizedMessage());
  }
}
