# OnlyGhost core in Dafny

OnlyGhost shares one-time secret messages. The server encrypts a message with a fresh random
access key. It stores only the ciphertext, IV, salt and authentication tag under a random id.
It hands back the link `/view/{id}#{accessKey}`, whose key sits in the URL fragment and so never
reaches the server. A message expires 24 hours after creation. Reading it does not delete it: it
is deleted when the reader's client asks for that, or once it has expired.

This project models the server's message pipeline and two small front-end helpers:

- the hex codec of `server/utils/crypto.ts`: `b.toString(16).padStart(2, '0')` and the
  `match(/.{1,2}/g)` / `parseInt(…, 16)` / `Uint8Array` read-back, with ECMAScript's `parseInt`,
  `ToUint8`, `split`, `trim`, `substring`, `slice` and string `length` written out
  (modules `Hex`, `JsNumber`, `JsText`);
- `getRandomBytes`, `generateId`, `deriveKey`, `encrypt` and `decrypt`, including the split of
  the 16-byte AES-GCM tag and its recombination (module `Crypto`);
- `generateSecureUrl` and `parseSecureUrl` (module `ShareUrl`);
- the message table of `server/utils/database.ts` with `storeMessage`,
  `retrieveEncryptedMessage` and `deleteMessage` (module `MessageStore`). The backend is
  explicit: the hub table (`id TEXT PRIMARY KEY`, so a duplicate insert fails) or the in-memory
  fallback `Map` (whose `set` overwrites);
- the expiry sweep of `server/api/cleanup.post.ts` (module `Cleanup`);
- the create endpoint `server/api/create.post.ts` (module `CreateHandler`);
- the fixed-window rate limiter of `server/middleware/rate-limit.ts` (module `RateLimit`);
- `hexToRgb` and the theme choice of `app/composables/useThemeColors.ts` (modules `ColorCodec`
  and `ThemeColors`), and the accordion of `app/composables/about/useFAQ.ts` (module `Faq`);
- the whole life of one secret, from storing it to reading it once (module `Lifecycle`).

Everything the code takes from its environment is a parameter:

- `Date.now()` is `now`.
- `crypto.getRandomValues` is a byte stream `rnd`, consumed in source order: 16 bytes for the id,
  then 32 for the access key, 16 for the salt and 16 for the IV.
- `Math.random()` is a palette index `draw`.
- The Web Crypto primitives (PBKDF2, AES-GCM), `TextEncoder`/`TextDecoder` and the `URL`
  constructor are function-valued parameters.
  - The platform's decoder is plain UTF-8 decoding; the default `TextDecoder`'s removal of a
    leading byte order mark (U+FEFF) is written out as `Crypto.StripBom`.
  - What they guarantee (the AEAD round trip, the 16-byte tag, the UTF-8 round trip,
    authenticity, the two URL Standard facts used) is stated as the predicates `Crypto.SoundPlatform`,
    `Crypto.AuthenticOpen` and `ShareUrl.UrlStandardFacts`.
  - The lemmas that rely on those guarantees require them.

Two behaviours of the code as written are modelled and proved rather than corrected:

- `storeMessage` builds its link with the default empty base, so the link is relative.
  `parseSecureUrl` calls `new URL` without a base, which rejects a relative link
  (`ShareUrl.DefaultBaseLinkDoesNotParse`, `Lifecycle.ReturnedLinkIsRelative`). The round trip
  holds once a browser resolves the link against an origin (`Lifecycle.ShareAndReadOnce`).
- The rate limiter raises the count before testing it, so rejected requests are counted too.

## Model

| member | source | states |
|---|---|---|
| JsText.TrimSlice | server/middleware/rate-limit.ts:32 | `trim()` removes exactly the maximal whitespace runs at both ends: the result is a contiguous slice with only whitespace outside it |
| JsText.TrimmedEnds | server/middleware/rate-limit.ts:32 | a trimmed string is empty or neither begins nor ends with whitespace |
| JsText.TrimEmptyIffBlank | server/api/create.post.ts:37 | `trim().length === 0` holds exactly when every character is whitespace |
| JsText.Split | server/middleware/rate-limit.ts:32 | `split(sep)` gives at least one field, no field holds the separator, and joining the fields with it gives the string back |
| JsText.SplitFieldThenRest | server/middleware/rate-limit.ts:32 | a separator-free field followed by the separator splits off as the first field |
| JsText.SplitWithoutSeparator | server/utils/crypto.ts:243 | a string without the separator splits into itself alone |
| JsText.SplitLastField | server/utils/crypto.ts:243-244 | the last field of a split is the suffix after the last separator (or the whole string) |
| JsText.Substring | server/utils/crypto.ts:245 | `substring(start)` clamps its argument: the suffix from `start`, the empty string past the end, the whole string at or below 0 |
| JsText.PadStart | server/utils/crypto.ts:15 | `padStart(n, fill)` leaves a long-enough string alone and otherwise prefixes fill characters up to length n, keeping the string as suffix |
| JsText.RelativeIndex | server/utils/crypto.ts:129-133 | a `slice` index in 0..len is kept; a negative one counts back from the end, down to 0; one past the end is the end |
| JsText.Slice | server/utils/crypto.ts:129-133 | `slice(start, end)` is the run between the two resolved indices, and empty when the end does not come after the start |
| JsText.Utf16Length | server/api/create.post.ts:18 | the string `length` counts one code unit per character of the Basic Multilingual Plane and two per character above it: a single character gives 1 or 2 accordingly, a string of the first kind has its own length and one of the second kind twice it |
| JsText.Utf16LengthConcat | server/api/create.post.ts:18 | the `length` of a concatenation is the sum of the lengths, so with the one-character case it fixes every length |
| JsNumber.NatToString | server/utils/crypto.ts:15 | `toString(radix)` writes at least one lower-case digit of that radix, without leading zero |
| JsNumber.ParseNatToString | server/utils/crypto.ts:15 | reading back the digits `toString(radix)` wrote gives the number |
| JsNumber.HexPrefixLength | server/utils/crypto.ts:41 | the hexadecimal run `parseInt` reads is the longest prefix of hex digits |
| JsNumber.HexMagnitudeParts | server/utils/crypto.ts:41 | after the sign, `parseInt` skips an optional `0x`/`0X` and reads the digits up to the first non-digit; no digit there gives NaN |
| JsNumber.SignedParts | server/utils/crypto.ts:41 | one leading `+` or `-` is read, and a `-` negates the value of the rest |
| JsNumber.SignedHexParts | server/utils/crypto.ts:41 | a sign, an optional `0x`, a non-empty run of hex digits and a rest that does not continue the run read as the run's value, negated after `-` |
| JsNumber.ParseIntHexParts | server/utils/crypto.ts:41 | `parseInt(s, 16)` of whitespace, a sign, an optional `0x`/`0X`, a non-empty run of hex digits and a rest that does not begin with a hex digit is the value of the run, negated after `-` |
| JsNumber.ParseIntHexNaN | server/utils/crypto.ts:41 | `parseInt(s, 16)` of whitespace, a sign, an optional `0x`/`0X` and a rest that does not begin with a hex digit is NaN |
| JsText.TrimStartAfterBlank | server/utils/crypto.ts:41 | the whitespace `parseInt` skips is exactly the leading run of whitespace characters |
| JsNumber.ParseIntHexOfDigits | server/utils/crypto.ts:41 | `parseInt` of a plain run of hex digits is the value of those digits |
| JsNumber.ToUint8 | server/utils/crypto.ts:40-42 | storing into a `Uint8Array`: NaN becomes 0, every value is kept modulo 256, a byte value is kept as is |
| JsNumber.CeilDiv | server/middleware/rate-limit.ts:73 | `Math.ceil(a / b)` is the least q with a <= q * b |
| Hex.ByteToHexDigits | server/utils/crypto.ts:15 | each byte is written as two digits, high nibble first, zero-padded |
| Hex.EncodeHex | server/utils/crypto.ts:14-16 | n bytes render as 2n lower-case hex digits |
| Hex.PairChunks | server/utils/crypto.ts:41 | every match of `/.{1,2}/g` holds one or two characters, and a string without line terminators yields ceil(len/2) of them |
| Hex.PairChunksConcat | server/utils/crypto.ts:41 | the matches are consecutive pieces of the string: together they are its characters other than line terminators, in order, and so the whole string when it has none |
| Hex.DecodeHex | server/utils/crypto.ts:40-42 | a string without line terminators reads back as ceil(len/2) bytes, and the empty string gives the empty array through the `[]` fallback |
| Hex.ParsePieces | server/utils/crypto.ts:173-175 | each matched piece becomes the `Uint8Array` element of its `parseInt` value, in order |
| Hex.ParseByteToHex | server/utils/crypto.ts:41 | `parseInt(…, 16)` reads back the byte `toString(16).padStart(2, '0')` wrote |
| Hex.PairChunksOfEncoding | server/utils/crypto.ts:173-175 | the matches of an encoding are exactly the two-digit renderings of its bytes, in order |
| Hex.DecodeEncodeHex | server/utils/crypto.ts:169-179 | decoding the hex encoding of bytes returns those bytes |
| Hex.EncodeDecodeHex | server/utils/crypto.ts:14-16 | an even-length lower-case hex string is the encoding of the bytes it decodes to |
| Crypto.GetRandomBytes | server/utils/crypto.ts:6-17 | fails exactly without `getRandomValues`; otherwise 2n lower-case hex digits that decode to the next n bytes of the stream, which is consumed |
| Crypto.GenerateId | server/utils/crypto.ts:210-212 | fails exactly without `getRandomValues`; an id is 32 lower-case hex digits that decode to the first 16 stream bytes, which are consumed |
| Crypto.RandomStreamOrder | server/utils/crypto.ts:96-100 | three successive `getRandomBytes` calls of 32, 16 and 16 bytes decode to the first 32 stream bytes, the next 16 and the 16 after those, and leave the rest |
| Crypto.DeriveKey | server/utils/crypto.ts:26-66 | fails exactly without `crypto.subtle`; otherwise PBKDF2 over the UTF-8 access key and the decoded salt at 100000 iterations |
| Crypto.SplitTag | server/utils/crypto.ts:128-133 | ciphertext and tag concatenate to the sealed bytes; with at least 16 bytes the tag is exactly the last 16 |
| Crypto.SealWith | server/utils/crypto.ts:111-141 | the stored IV and salt are those drawn, every field is lower-case hex, and on a sound platform the tag has 32 digits and the ciphertext two per plaintext byte |
| Crypto.Encrypt | server/utils/crypto.ts:88-150 | succeeds exactly when random bytes and `crypto.subtle` exist; a 64-digit key and 32-digit salt and IV render the first 64 stream bytes in order |
| Crypto.StripBom | server/utils/crypto.ts:202-203 | the default decoder drops one leading U+FEFF and changes nothing else |
| Crypto.OpenSealed | server/utils/crypto.ts:161-199 | without `crypto.subtle` the error is unavailability; otherwise opening succeeds exactly when AES-GCM opens the ciphertext followed by the tag, under the key derived from the access key and salt, and then yields the bytes it opened; any other failure is a rejected decryption |
| Crypto.Decrypt | server/utils/crypto.ts:161-204 | fails exactly when the intended decryption fails, with the same errors; a success is the intended plaintext with a leading U+FEFF dropped |
| Crypto.DecryptIntended | server/utils/crypto.ts:161-204 | decryption with a decoder that keeps a leading U+FEFF: without `crypto.subtle` the error is unavailability; otherwise it succeeds exactly when AES-GCM opens the ciphertext and tag under the derived key, and the result is the UTF-8 decoding of the opened bytes |
| Crypto.SplitRecombine | server/utils/crypto.ts:182-186 | the tag split at encryption, through hex and back, recombines to the sealed bytes |
| Crypto.EncryptDecrypt | server/utils/crypto.ts:189-203 | decrypting what encrypt returned, with its access key, yields the message less a leading U+FEFF, so exactly the message when it does not begin with U+FEFF; the intended decryption yields every message unchanged |
| Crypto.BomLostInRoundTrip | server/utils/crypto.ts:202-203 | the message U+FEFF "hi" is encrypted and decrypted as "hi" |
| Crypto.DecryptOnlySealed | server/utils/crypto.ts:192-203 | a successful decryption means the stored ciphertext and tag are a sealing, under the key from the given access key and salt, of some bytes; the intended decryption returns their UTF-8 decoding and the one as written returns it without a leading U+FEFF |
| ShareUrl.GenerateSecureUrl | server/utils/crypto.ts:225-231 | the link is the base, then `/view/`, then the id, then '#' and the key as the final fragment |
| ShareUrl.ParseSecureUrl | server/utils/crypto.ts:238-248 | fails exactly when `new URL` throws; the id is a '/'-free suffix of the path after its last '/', the key is the hash without its '#' or "" |
| ShareUrl.HexIsPlainSegment | server/utils/crypto.ts:210-212 | hex ids and keys need no percent-encoding in a path or fragment |
| ShareUrl.KeyOnlyInFragment | server/utils/crypto.ts:225-231 | the part of a link sent to a server (before the first '#') holds the base and the id only |
| ShareUrl.ViewPath | server/utils/crypto.ts:230 | the path of a link is `/view/{id}`, which splits into "", "view" and the id |
| ShareUrl.ParseGeneratedUrl | server/utils/crypto.ts:225-248 | on an absolute origin, parsing a generated link returns the id and key it was built from |
| ShareUrl.DefaultBaseLinkDoesNotParse | server/utils/crypto.ts:228-242 | a link built on the default empty base is rejected by `new URL` |
| MessageStore.RowOf | server/utils/database.ts:127-128 | a stored row is created now and expires exactly 24 hours later |
| MessageStore.Insert | server/utils/database.ts:133-142 | the hub table refuses exactly an existing id; otherwise the row is filed under its id and every other row stays |
| MessageStore.DeleteMessage | server/utils/database.ts:204-213 | removes the id if present, does nothing otherwise, and leaves every other row unchanged |
| MessageStore.AccessKeyFromStream | server/utils/database.ts:121-125 | the access key encrypt returns renders stream bytes 16 to 48 |
| MessageStore.StoreMessage | server/utils/database.ts:117-155 | succeeds exactly when crypto is available and the id is new to the hub table; adds one row under the returned 32-digit id, expiring in 24 hours, other rows unchanged, and returns the link `/view/{id}#{key}`; on failure the store is unchanged |
| MessageStore.RetrieveEncryptedMessage | server/utils/database.ts:164-198 | an absent id is NotFound with the store unchanged; an expired row is deleted and reported Expired; any other row is returned as stored and kept |
| MessageStore.RetrieveAndDeleteOnlyRemove | server/utils/database.ts:164-213 | retrieval and deletion only remove rows, leave every other id in place, and change no row |
| MessageStore.OperationsKeepRowsKeyed | server/utils/database.ts:79-93 | every operation keeps each row filed under its own id |
| MessageStore.DuplicateIdInsert | server/utils/database.ts:79-90 | on a duplicate id the hub table refuses while the fallback map replaces the earlier row |
| MessageStore.StoredRowHoldsNoKey | server/utils/database.ts:137-142 | the stored row is built from the id, the stored part of the encryption and the clock; the access key reaches only the link |
| MessageStore.StoredRowDecrypts | server/utils/database.ts:125-149 | the stored row with the key from the link decrypts to the stored message less a leading U+FEFF, and with the intended decryption to the message itself |
| MessageStore.RetrieveDeleteRetrieve | server/utils/database.ts:177-179 | once read and deleted, a message is NotFound at any later time |
| MessageStore.StoredMessageLifetime | server/utils/database.ts:183-191 | a stored message is returned up to and including its expiry instant, and is Expired and removed at any later instant |
| Cleanup.ExpiredIds | server/api/cleanup.post.ts:8-11 | the ids swept are exactly those with `expiresAt < now` |
| Cleanup.Sweep | server/api/cleanup.post.ts:9 | the rows left are exactly the unexpired ones, each unchanged |
| Cleanup.DeletedCount | server/api/cleanup.post.ts:15 | a reported change count is answered as is; a missing one reads as 0 |
| Cleanup.CleanupExpired | server/api/cleanup.post.ts:1-24 | without the hub database the endpoint fails and removes nothing; on the hub it sweeps and answers with the driver's change count, or 0 when that is missing |
| Cleanup.CleanupCountsRemovedRows | server/api/cleanup.post.ts:8-17 | with a driver that reports the rows the DELETE matched, the answered count plus the rows left is the number of rows before |
| Cleanup.CleanupIdempotent | server/api/cleanup.post.ts:8-15 | a second sweep at the same instant finds no expired row and leaves the store; with a report of no change, or none, it answers 0 |
| Cleanup.SweepAgreesWithRetrieve | server/api/cleanup.post.ts:9 | the sweep removes an id exactly when retrieval at the same instant would report it Expired |
| Cleanup.CleanupKeepsLiveRows | server/api/cleanup.post.ts:9 | a live row survives the sweep unchanged |
| CreateHandler.StatusOf | server/api/create.post.ts:10-42 | a server error is 500, an oversized message 413, and a bad format, script content or a blank message 400, each exactly |
| CreateHandler.Acceptable | server/api/create.post.ts:11-42 | an acceptable message has between 1 and 100000 characters and a character that is not whitespace |
| CreateHandler.Validate | server/api/create.post.ts:9-42 | a body passes exactly when its message is a non-empty string of at most 100000 code units, free of script markers and not blank, and the message passes unchanged; otherwise the first failing check names the error: a missing body is a server error, a non-string or "" a bad format, an oversized string too large (and only an oversized string), then script content, then a blank message |
| CreateHandler.Pipeline | server/api/create.post.ts:44-51 | a message is created exactly when validation and storing both succeed, and then the store and the answer are the ones `storeMessage` gives for the validated text; a validation error is passed on unchanged and a storing failure becomes a server error, with the store unchanged |
| CreateHandler.HandleCreate | server/api/create.post.ts:44-60 | as written: every failure is answered 500 and leaves the store unchanged; a success answers with the id and link `storeMessage` created, in the store it left |
| CreateHandler.HandleCreateIntended | server/api/create.post.ts:10-60 | every failure is answered with the status its check throws, and the store is unchanged; a success answers with the id and link `storeMessage` created, in the store it left |
| CreateHandler.CreateAcceptsExactly | server/api/create.post.ts:9-51 | a request creates a message exactly when its text is acceptable and storing succeeds, under the id drawn from the stream |
| CreateHandler.HandlersAgreeOnSuccess | server/api/create.post.ts:44-60 | the two handlers create the same messages and differ only in failure statuses |
| CreateHandler.RejectedBeforeStoring | server/api/create.post.ts:9-45 | in the intended handler: an unacceptable message is refused with 400 or 413 before any storing, whatever the platform |
| CreateHandler.SizeCheckedFirst | server/api/create.post.ts:17-34 | in the intended handler: an oversized message is refused with 413 even when it holds a script marker |
| CreateHandler.BomMessageAccepted | server/api/create.post.ts:11-42 | a message U+FEFF "hi" passes validation unchanged |
| CreateHandler.OversizedMessage | server/api/create.post.ts:18 | a message one code unit over the limit exists |
| CreateHandler.OversizedAnswered500 | server/api/create.post.ts:52-60 | as written the oversized message is answered 500, where its check throws 413 |
| RateLimit.ClientId | server/middleware/rate-limit.ts:30-33 | the id is the trimmed first comma-separated field of a non-empty X-Forwarded-For (so it holds no comma and has no outer whitespace), else the remote address, else "unknown" |
| RateLimit.ForwardedClientIsFirstHop | server/middleware/rate-limit.ts:30-33 | behind proxies the id is the first hop, trimmed |
| RateLimit.ForwardedSingleHop | server/middleware/rate-limit.ts:30-33 | a header naming one hop gives that hop, trimmed |
| RateLimit.CurrentWindow | server/middleware/rate-limit.ts:39-46 | the stored window applies up to and including its reset time; otherwise a fresh window of count 0 ends a minute from now |
| RateLimit.Handle | server/middleware/rate-limit.ts:15-75 | non-API and bypassed requests change nothing; otherwise only this client's count rises by one, a request is rejected exactly when that count exceeds 20, and the headers give limit 20, the remaining count and the reset time in whole seconds rounded up |
| RateLimit.Burst | server/middleware/rate-limit.ts:15-75 | a burst yields one outcome per request |
| RateLimit.BurstWithinWindow | server/middleware/rate-limit.ts:48-61 | inside one window the count grows by one per request and every request past the 20th is rejected |
| RateLimit.TwentyPerWindow | server/middleware/rate-limit.ts:35-61 | a client starting a fresh window gets exactly 20 requests through in that minute |
| RateLimit.NewWindowAfterReset | server/middleware/rate-limit.ts:42-46 | after the window ends the next request opens a new one and is allowed with 19 remaining |
| RateLimit.Purge | server/middleware/rate-limit.ts:6-13 | the purge drops exactly the windows that have ended and keeps the others unchanged |
| RateLimit.PurgeInvisible | server/middleware/rate-limit.ts:8-12 | a purge at any earlier instant does not change the answer to a request |
| ColorCodec.ColorDigits | app/composables/useThemeColors.ts:39 | the digits of a matched colour are its last six characters, all hex digits, after the optional '#' |
| ColorCodec.ChannelIsParseInt | app/composables/useThemeColors.ts:40-44 | each channel is the `parseInt(…, 16)` value of its two digits |
| ColorCodec.RgbText | app/composables/useThemeColors.ts:41-44 | the "r, g, b" text is at least seven characters long |
| ColorCodec.HexToRgb | app/composables/useThemeColors.ts:38-46 | `hexToRgb` returns a text exactly for an optional '#' followed by six hex digits of either case, and null otherwise |
| ColorCodec.HexToRgbReadsPairs | app/composables/useThemeColors.ts:40-44 | each pair of digits goes through `parseInt(…, 16)` to a value in 0..255, written in decimal, in order |
| ColorCodec.HashOptional | app/composables/useThemeColors.ts:39 | the leading '#' is optional |
| ColorCodec.HexToRgbOfEncoding | app/composables/useThemeColors.ts:38-46 | `hexToRgb` reads back the three channels of a colour written as '#' and six lower-case hex digits |
| ColorCodec.BlueRgb | app/composables/useThemeColors.ts:65 | the default colour "#3b82f6" reads as "59, 130, 246" |
| ColorCodec.EmeraldRgb | app/composables/useThemeColors.ts:67 | the default accent "#10b981" reads as "16, 185, 129" |
| ThemeColors.AccentIndex | app/composables/useThemeColors.ts:59 | the accent index is a valid palette index different from the primary one |
| ThemeColors.ChooseTheme | app/composables/useThemeColors.ts:53-68 | in random mode both colours come from the palette at the drawn and accent indices; otherwise the given or default colours; each "r, g, b" is read from its colour when `hexToRgb` accepts it and is otherwise the fallback of its branch |
| ThemeColors.OrElse | app/composables/useThemeColors.ts:57-67 | the JavaScript `or` of an `hexToRgb` result and a fallback is that result when it is a non-empty text and the fallback otherwise, so it is empty only if the fallback is |
| ThemeColors.UseState | app/composables/useThemeColors.ts:70-73 | a value already stored under a key wins and stays; otherwise the initial value is stored and returned |
| ThemeColors.UseThemeColors | app/composables/useThemeColors.ts:30-81 | the shared state ends holding the returned theme; each of the four keys keeps an earlier value when it has one and otherwise takes the value chosen now |
| ThemeColors.PaletteIsHex | app/composables/useThemeColors.ts:1-19 | every palette entry is a colour `hexToRgb` reads |
| ThemeColors.PaletteDistinct | app/composables/useThemeColors.ts:1-19 | no palette colour appears twice |
| ThemeColors.RandomThemeFromPalette | app/composables/useThemeColors.ts:53-61 | in random mode the fallbacks are never used and the accent differs from the primary colour |
| ThemeColors.DefaultTheme | app/composables/useThemeColors.ts:31-35 | without options the theme is the default blue and emerald, and an unreadable fixed colour gets the "r, g, b" of its default |
| Faq.Toggle | app/composables/about/useFAQ.ts:5-7 | toggling closes everything exactly when the question was the open one; otherwise the clicked question is the open one |
| Faq.OpenSet | app/composables/about/useFAQ.ts:3 | at most one answer is open, and -1 means none |
| Faq.ToggleShowsOrHides | app/composables/about/useFAQ.ts:6 | a click shows the question alone when it was hidden and hides everything when it was shown |
| Faq.ToggleTwice | app/composables/about/useFAQ.ts:6 | clicking the same question twice restores an open question and otherwise closes everything |
| Faq.ToggleAll | app/composables/about/useFAQ.ts:5-7 | no clicks leave the state as it was |
| Faq.LastClickedIsOpen | app/composables/about/useFAQ.ts:5-7 | after a run of clicks the open answer, if any, is the last one clicked |
| Faq.RepeatedClicks | app/composables/about/useFAQ.ts:3-7 | from the closed state, n clicks on one question leave it open exactly when n is odd |
| Lifecycle.ResolvedLink | server/utils/crypto.ts:225-231 | a link on the empty base, resolved against an origin, is the link built on that origin |
| Lifecycle.ShareAndReadOnce | server/utils/database.ts:117-213 | the stored message's link, resolved on an origin, names its row and carries the key; the row is returned until it expires, decrypts to the message less a leading U+FEFF (to the message itself with the intended decoder), and is NotFound once deleted |
| Lifecycle.ReturnedLinkIsRelative | server/utils/database.ts:149 | the link as `storeMessage` returns it is not one `parseSecureUrl` reads |

## Left out

- The Web Crypto primitives (PBKDF2, AES-GCM, `getRandomValues`), `TextEncoder`/`TextDecoder` and the `URL` constructor are foreign. Their outputs are parameters, and their guarantees are stated as predicates, not proved.
- `deriveKey`'s `iterations` argument is always its default 100000 in the code, so the model fixes it. The `importKey`/`deriveKey` call shape is part of the abstract `derive`.
- `getDatabase`'s environment sniffing (server/utils/database.ts:20-67) is not modelled. Which backend answers is the `Backend` field of the store.
- SQL string dispatch and `CREATE TABLE IF NOT EXISTS` are not modelled. The table is taken to exist.
- Storage I/O failures other than the duplicate id are not modelled, so `deleteMessage`'s "Failed to delete" and the retrieve catch-all "Failed to retrieve" have no error paths here.
- Concurrency is not modelled: races between two reads of one message, and limiter state seen across processes. The model is sequential.
- The `setInterval` purge timer is not modelled. `RateLimit.PurgeInvisible` covers a purge at any instant.
- The production/Cloudflare bypass of the limiter is the `edgeLimiting` flag.
- `getHeader` may return an array, whose `toString()` joins with commas. The header is modelled as one string, which is what that join yields.
- Header values are kept as numbers rather than their decimal strings.
- Error messages, `statusMessage` texts, `console` logging and the cleanup endpoint's `timestamp` field are left out. Errors are tagged variants.
- `readBody` JSON parsing is not modelled. The body is either absent or a value whose `message` is missing, not a string, or a string.
- `Math.floor(Math.random() * 17)` is the `draw` index parameter.
- Vue refs, Nuxt's server/client hydration of `useState` and the other front-end composables are left out.
- Strings are sequences of Unicode scalar values, so lone UTF-16 surrogates cannot be expressed. `Utf16Length` counts code units from them.
- Hex.PairChunks: `.` is matched per character, not per UTF-16 code unit. On a string holding characters above U+FFFF the matches differ: "😀😀" is one match here and two (of two surrogates each) in ECMAScript. Every hex string the code writes or reads back is ASCII, where the two agree.
- ShareUrl.ParseGeneratedUrl: the base URL is limited to `IsOrigin`: http or https, a host of lower-case letters, digits, hyphens and dots whose last label begins with a letter, and an optional port. That covers `http://localhost:3000` and `https://only-ghost.app` (`ShareUrl.LocalOriginExample`, `ShareUrl.HyphenatedOriginExample`). IP-address hosts, internationalized names, upper case, user info and a base with a path are not covered, because the URL Standard facts assumed are stated only for these origins.
- Lifecycle.ShareAndReadOnce: the origin the link is resolved against is limited to `IsOrigin`, as for `ShareUrl.ParseGeneratedUrl`.
- `parseInt`, `trim`, `toString(16).padStart(2, '0')` and `match` are definitions (`JsNumber.ParseIntHex`, `JsText.Trim`, `Hex.ByteToHex`, `Hex.MatchPairs`) whose meaning is stated by the lemmas about them: `JsNumber.ParseIntHexParts`, `JsNumber.ParseIntHexNaN` and `JsNumber.ParseIntHexOfDigits`, `JsText.TrimSlice` and `JsText.TrimEmptyIffBlank`, `Hex.ByteToHexDigits` and `Hex.ParseByteToHex`, and `Hex.DecodeHex`.
- Crypto.Decrypt: its own contract relates it to `Crypto.DecryptIntended` and states the error cases. What a successful decryption means is stated by `Crypto.EncryptDecrypt` and `Crypto.DecryptOnlySealed`, because the plaintext depends on the abstract AES-GCM.
- Cleanup.CleanupExpired: the change count the database driver reports is a parameter. The count equals the rows removed only under `Cleanup.CleanupCountsRemovedRows`'s assumption that the driver reports the rows the DELETE matched.
- Faq.ToggleAll: its own contract covers only the empty run of clicks. The other runs are stated by `Faq.LastClickedIsOpen` and `Faq.RepeatedClicks`.
- RateLimit.Burst: its own contract states only the number of outcomes. Their values are stated by `RateLimit.BurstWithinWindow` and `RateLimit.TwentyPerWindow`.
- ColorCodec.RgbText: its own contract bounds only the length. The digits are stated by `ColorCodec.HexToRgbReadsPairs` and `ColorCodec.HexToRgbOfEncoding`.
- The endpoints `server/api/retrieve/[id].get.ts` and `server/api/delete/[id].delete.ts` are not part of this model. Their store operations are.

## Findings

| source | as written | input that shows it | evidently intended | confidence | as-written member | corrected member |
|---|---|---|---|---|---|---|
| server/api/create.post.ts:52-60 | the outer `catch` replaces every error thrown in the handler, including the 400 and 413 validation errors, by a 500 | a body whose message is 100001 copies of 'a' is answered 500 | a validation error keeps its status (413 here, 400 for a bad format, script content or a blank message), and only storing failures are 500 | not executed | CreateHandler.HandleCreate, CreateHandler.OversizedAnswered500 | CreateHandler.HandleCreateIntended |
| server/utils/crypto.ts:202-203 | `new TextDecoder()` keeps its default `ignoreBOM: false`, so decrypting drops a leading U+FEFF of the plaintext | the message U+FEFF "hi" passes every check of the create endpoint and is read back as "hi" | decrypt returns exactly the message that was encrypted (`new TextDecoder('utf-8', { ignoreBOM: true })`) | not executed | Crypto.Decrypt, Crypto.BomLostInRoundTrip, CreateHandler.BomMessageAccepted | Crypto.DecryptIntended, Crypto.EncryptDecrypt |
