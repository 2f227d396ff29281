# Token ring and AES message protection — a Dafny model

This project models the two parts of the Azos security services that carry
the logic:

- **`TokenRing`** (`Tokens` module, `token_ring.dfy`). It generates new ring
  tokens: a 16-byte GUID pad followed by a random buffer. That buffer comes from
  the platform generator and is XOR-mixed, from index 1 on, with bytes from the OS
  crypto generator. It resolves an opaque access token into the subject's
  authentication token through a cache table. That table remembers tokens the
  backing store confirmed absent, so the store is asked at most once per key
  while that key's entry stays in the table; eviction by age and concurrent
  misses, which the model leaves out, can cause a second fetch. It
  also publishes the type-to-table-name map by replacing it, and starts and stops
  its pile and cache in a fixed order.
- **`AESCryptoMessageAlgorithm`** (`CryptoMessage` module, `crypto_message.dfy`).
  This is the byte framing of protected messages: `[IV][HMAC tag][ciphertext]`.
  It covers the length guards, which bytes each primitive receives, the header
  slicing on the way back, and the rule that accepts or rejects a message by
  comparing tags. The primitives stay abstract, as functions in `Primitives`:
  AES-256 in CBC mode (FIPS 197, section 6.2 of NIST SP 800-38A) with PKCS #7
  padding (section 6.3 of RFC 5652), and HMAC (RFC 2104) over MD5 (RFC 1321).

`common.dfy` (`Common` module) holds the shared vocabulary:
- bytes (`bv8`);
- nullable values (`Option`);
- the exceptions the code throws (`Outcome`/`Error`);
- the .NET rule for "null or white space".

Parameters stand for everything outside this code:
- the clock (`utcNow`);
- the GUID bytes;
- the two random generators;
- the Base64 encoder;
- the backing-store fetch hook `DoFetchAccessToken`;
- the content decoder `MapSubjectAuthenticationTokenFromContent`;
- the IV source `GenerateRandomBytes`.

A .NET `DateTime` is modelled as its tick count, between `DateTime.MinValue`
and `DateTime.MaxValue`. A thrown exception is a `Fail` outcome. A returned
`null` is `None`.

## Model

| member | source | states |
|---|---|---|
| `CryptoMessage.Bytes` | src/Azos/Security/cryptography/AESCryptoMessageAlgorithm.cs:71 | a segment designates exactly the `Count` bytes from `Offset` on |
| `CryptoMessage.Whole` | src/Azos/Security/cryptography/AESCryptoMessageAlgorithm.cs:102 | a segment over a whole buffer designates that buffer |
| `CryptoMessage.Protect` | src/Azos/Security/cryptography/AESCryptoMessageAlgorithm.cs:55-79 | null array → guard failure; `Count < 1` → SecurityException; for a non-empty message the call succeeds exactly when the library's encryption succeeds, and any failure is a cipher failure. A successful output is the IV, then the HMAC of IV ++ message, then the CBC ciphertext under that IV, and its length is 16 + tag + ciphertext |
| `CryptoMessage.Unprotect` | src/Azos/Security/cryptography/AESCryptoMessageAlgorithm.cs:81-108 | SecurityException exactly when `Count < HDR_LEN + 1` (49). Otherwise the cipher gets bytes [48, Count), with bytes [16, 48) as its IV. The data is returned exactly when the HMAC of bytes [0, 16) ++ plaintext equals bytes [16, 48). The result is null exactly when they differ |
| `CryptoMessage.ProtectReadsOnlySegment` | src/Azos/Security/cryptography/AESCryptoMessageAlgorithm.cs:71-73 | Protect depends only on the segment's bytes, not on the rest of the array |
| `CryptoMessage.UnprotectReadsOnlySegment` | src/Azos/Security/cryptography/AESCryptoMessageAlgorithm.cs:87-99 | Unprotect depends only on the segment's bytes |
| `CryptoMessage.IncrementalHmac.constructor` | src/Azos/Security/cryptography/AESCryptoMessageAlgorithm.cs:164 | a fresh incremental HMAC has the given key and nothing fed yet |
| `CryptoMessage.IncrementalHmac.AppendData` | src/Azos/Security/cryptography/AESCryptoMessageAlgorithm.cs:166-167 | appending feeds exactly the given array range after what was fed before |
| `CryptoMessage.IncrementalHmac.GetHashAndReset` | src/Azos/Security/cryptography/AESCryptoMessageAlgorithm.cs:168 | returns the keyed hash of everything fed and empties the buffer |
| `CryptoMessage.Hmac` | src/Azos/Security/cryptography/AESCryptoMessageAlgorithm.cs:162-170 | the tag is the keyed hash of the nonce bytes followed by the data bytes. With HMAC-MD5 it is 16 bytes long |
| `CryptoMessage.GetHmac` | src/Azos/Security/cryptography/AESCryptoMessageAlgorithm.cs:162-170 | the tag is the HMAC of the nonce range followed by the data range, in that order |
| `CryptoMessage.CopyToNew` | src/Azos/Security/cryptography/AESCryptoMessageAlgorithm.cs:87-90 | a newly allocated header buffer filled by `Array.Copy` holds exactly the copied range of the protected message |
| `CryptoMessage.ArrayCopy` | src/Azos/Security/cryptography/AESCryptoMessageAlgorithm.cs:89-90 | `Array.Copy` puts the source range at the destination index and leaves the other destination bytes as they were |
| `CryptoMessage.SegmentOf` | src/Azos/Security/cryptography/AESCryptoMessageAlgorithm.cs:81 | the segment over a null array has no buffer |
| `CryptoMessage.UnprotectArray` | src/Azos/Security/cryptography/AESCryptoMessageAlgorithm.cs:81-108 | copying the header into fresh 16- and 32-byte buffers, decrypting and re-hashing gives exactly `Unprotect` of the segment |
| `CryptoMessage.ProtectHeaderIsShorterThanHdrLen` | src/Azos/Security/cryptography/AESCryptoMessageAlgorithm.cs:73-75 | with HMAC-MD5 tags, Protect writes a 16 + 16 byte header, shorter than `HDR_LEN` |
| `CryptoMessage.UnprotectNeverAccepts` | src/Azos/Security/cryptography/AESCryptoMessageAlgorithm.cs:87-103 | with HMAC-MD5 tags, Unprotect never returns data, for any input |
| `CryptoMessage.ProtectThenUnprotectFails` | src/Azos/Security/cryptography/AESCryptoMessageAlgorithm.cs:55-108 | with HMAC-MD5 tags, Unprotect never gives back the message Protect protected |
| `CryptoMessage.ShortProtectedMessageHitsLengthGuard` | src/Azos/Security/cryptography/AESCryptoMessageAlgorithm.cs:55-85 | a message shorter than one AES block protects to exactly 48 bytes, and Unprotect rejects that with the length-guard SecurityException before any decryption |
| `CryptoMessage.UnprotectCorrected` | src/Azos/Security/cryptography/AESCryptoMessageAlgorithm.cs:81-108 | the intended reading: a 16 + 16 byte header, decryption with the transmitted IV, data returned exactly when the tags match, and null exactly when decryption succeeds but the tags differ |
| `CryptoMessage.CorrectedRoundTrip` | src/Azos/Security/cryptography/AESCryptoMessageAlgorithm.cs:55-108 | the corrected unprotect recovers every message Protect protects. This assumes HMAC-MD5 tags, that CBC decryption inverts encryption, and PKCS #7 block padding |
| `CryptoMessage.CorrectedRejectsForgedTag` | src/Azos/Security/cryptography/AESCryptoMessageAlgorithm.cs:102-103 | the corrected unprotect returns null when the tag does not match the plaintext |
| `Tokens.AddSeconds` | src/Azos/Security/Services/TokenRing.cs:91 | adding seconds throws exactly when the tick count leaves the `DateTime` range; otherwise the result is the original ticks plus seconds × 10,000,000; a non-negative lifetime never moves the time back |
| `Tokens.ExpireOrMin` | src/Azos/Security/Services/TokenRing.cs:123 | a missing expiry reads as `DateTime.MinValue`; a present one is used as is |
| `Tokens.Admit` | src/Azos/Security/Services/TokenRing.cs:123-128 | null when `ExpireUtc` (null read as `MinValue`) is strictly before now, or when the content is null or white space. Otherwise the result is the decoding of the content, so a token expiring exactly now is live |
| `Tokens.EntryFor` | src/Azos/Security/Services/TokenRing.cs:118 | after a fetch the cache records the fetched token, or the absent marker exactly when the fetch returned null |
| `Tokens.Resolve` | src/Azos/Security/Services/TokenRing.cs:106-129 | not running → null, nothing touched. Blank argument → guard failure before the table is read. Absent marker → null, no fetch, table unchanged. Cached token → checked, table unchanged. Miss → exactly one fetch with (token, now), and the key then maps to the token or the absent marker. No other key changes, and the key is in the table afterwards |
| `Tokens.NegativeCachingFetchesOnce` | src/Azos/Security/Services/TokenRing.cs:113-120 | two lookups of an unknown token fetch once; the second answers null from the cache and leaves it unchanged |
| `Tokens.RepeatedLookupNeverFetches` | src/Azos/Security/Services/TokenRing.cs:112-120 | whatever the first lookup found, a second lookup of the same key does not call the fetch hook and does not change the table |
| `Tokens.CachedKeyIsNeverFetched` | src/Azos/Security/Services/TokenRing.cs:112-116 | once a key is in the table (token or absent marker), any number of further lookups make no fetch and leave its entry as it was |
| `Tokens.FetchedAtMostOnce` | src/Azos/Security/Services/TokenRing.cs:112-120 | however many times a token is looked up in a row, the fetch hook is called at most once. It is called at the first lookup if the key was unknown, and never if the key was already cached |
| `Tokens.ExpiredTokenIsNotEvicted` | src/Azos/Security/Services/TokenRing.cs:123 | an expired cached token resolves to null and stays in the table |
| `Tokens.ExpiryInstantIsLive` | src/Azos/Security/Services/TokenRing.cs:123 | `ExpireUtc == now` is not expired |
| `Tokens.Mixed` | src/Azos/Security/Services/TokenRing.cs:80-83 | same length; byte 0 is the first buffer's; every byte from index 1 on is the XOR of both buffers |
| `Tokens.MixedTwiceRestores` | src/Azos/Security/Services/TokenRing.cs:83 | mixing again with the same second buffer restores the first buffer |
| `Tokens.TokenPayload` | src/Azos/Security/Services/TokenRing.cs:83-86 | the token bytes are the 16-byte GUID pad followed by the mixed random buffer, with length 16 + the buffer's length |
| `Tokens.PayloadLayout` | src/Azos/Security/Services/TokenRing.cs:74-86 | the payload is the 16-byte GUID pad, then the mixed buffer: length 16 + buffer length, byte 16 unmixed, the rest XORed |
| `Tokens.PayloadLengthWithinStrength` | src/Azos/Security/Services/TokenRing.cs:70-86 | a buffer within the kind's byte strength gives a payload between 16 + min and 16 + max bytes |
| `Tokens.TableNameRegistry.constructor` | src/Azos/Security/Services/TokenRing.cs:171 | the registry starts empty |
| `Tokens.TokenRing.constructor` | src/Azos/Security/Services/TokenRing.cs:25-34 | a new ring is not running, has an empty cache, no issuer configured, the 37-second cache age and the 64 MiB pile segment size |
| `Tokens.TokenRing.IssuerName` | src/Azos/Security/Services/TokenRing.cs:58-62 | the configured issuer unless it is null or white space, else the default host name |
| `Tokens.TokenRing.SetIssuerName` | src/Azos/Security/Services/TokenRing.cs:61 | the setter stores the value and changes nothing else |
| `Tokens.TokenRing.GenerateNewToken` | src/Azos/Security/Services/TokenRing.cs:67-94 | the value is the Base64 of the GUID pad ++ the mixed buffer, with the buffer drawn with the kind's (min, max). `IssuedBy` is `IssuerName`, `IssueUtc` is now, and `ExpireUtc` is now + the default lifetime. It throws exactly when that sum leaves the `DateTime` range |
| `Tokens.TokenRing.GetCacheTableOf` | src/Azos/Security/Services/TokenRing.cs:173-184 | returns the kind's table name. A new kind publishes the old map plus one entry. A known kind leaves the map as it is, without publishing. The cache table is created when missing |
| `Tokens.TokenRing.MapAccessToken` | src/Azos/Security/Services/TokenRing.cs:106-129 | a ring that is not running returns null and changes nothing. A running ring first resolves the table name, then returns what `Resolve` returns on the access-token table. The table-name map is republished only the first time the access-token type is seen. That table becomes `Resolve`'s table, and the fetch log grows by `Resolve`'s fetches |
| `Tokens.TokenRing.Start` | src/Azos/Security/Services/TokenRing.cs:149-154 | starting runs `DoStart` and leaves the ring running |
| `Tokens.TokenRing.DoStart` | src/Azos/Security/Services/TokenRing.cs:149-154 | the pile is started, then the cache |
| `Tokens.TokenRing.SignalStop` | src/Azos/Security/Services/TokenRing.cs:156-161 | the ring stops running and `DoSignalStop` runs |
| `Tokens.TokenRing.DoSignalStop` | src/Azos/Security/Services/TokenRing.cs:156-161 | the cache is signalled, then the pile |
| `Tokens.TokenRing.DoWaitForCompleteStop` | src/Azos/Security/Services/TokenRing.cs:163-169 | the ring waits for the cache, then for the pile |
| `Tokens.LifecycleOrder` | src/Azos/Security/Services/TokenRing.cs:149-169 | a start/stop cycle orders the calls as pile start, cache start, cache signal, pile signal, cache wait, pile wait |
| `Tokens.NegativeCachingOnRing` | src/Azos/Security/Services/TokenRing.cs:112-120 | on a running ring, including one whose access-token table does not exist yet, two lookups of an unknown token both answer null, call the hook once, and leave the absent marker cached |

## Left out

- Cryptography and entropy are uninterpreted parameters:
  - AES, HMAC-MD5, `RNGCryptoServiceProvider`, `Platform.RandomGenerator`, `Guid.NewGuid`/`ToNetworkByteOrder`, Base64 encoding (section 4 of RFC 4648).
  - The round-trip lemma assumes, as explicit predicates, that decryption inverts encryption, that tags are 16 bytes and that PKCS #7 pads to whole blocks.
  - No confidentiality or unforgeability is proved.
- `MemBufferEquals` is not part of this model. It is read as byte-sequence equality, so buffers of different lengths are unequal.
- The decrypting library receives the whole 32-byte tag slot as its IV. How the library treats an IV that is not one block long is its own business. The model lets the decryptor fail there.
- `LocalCache`/`DefaultPile` internals: the cache is a plain map from table name to table.
  - Per-entry TTL eviction (default maximum age 37 seconds) is not modelled; entries stay until replaced.
  - The table is only ever written with access tokens or the absent marker, so a cached object of another type (which the source's `as AccessToken` would treat as a miss) is not represented.
- `Tokens.TokenRing.MapAccessToken`: the "called exactly once" property is stated on a ghost log of fetch calls, not on the hook itself.
- The daemon base class is not part of this model:
  - `Start` and `SignalStop` reduce its status machine to the `running` flag.
  - `base.DoStart`/`base.DoSignalStop`/`base.DoWaitForCompleteStop` are taken to have no effect on the pile or cache.
  - Instrumentation is left out.
- Concurrency is not modelled: the `volatile` publication race on `s_TableNames` and every thread-safety claim. The registry's "publication" is the replacement of the map value, counted by a ghost counter.
- Token objects are values. The field assignments at TokenRing.cs:87-91 build one value, and `Activator.CreateInstance` is replaced by a `TokenKind` descriptor carrying the class constants (byte strength, default lifetime, schema table name).
- The schema lookup `Schema.GetForTypedDoc(...).GetTableAttrForTarget(null).Name` is the `tableName` field of `TokenKind`.
- Abstract members have no bodies and are parameters or absent: `InvalidateAccessToken`, `InvalidateClient`, `InvalidateSubject`, `IssueAccessToken`, `LookupClientAccessCodeAsync`, `MapSubjectAuthenticationTokenToContent`.
- Configuration loading (`DoConfigure`, `[Config]` fields), `Destructor` disposal, and the `Flags` property are not modelled.
- The class comment at AESCryptoMessageAlgorithm.cs:16-28 describes an older 8-byte-nonce layout; the model follows the code, which uses `IV_LEN`/`HMAC_LEN` as written.

## Findings

| source | as written | input that shows it | evidently intended | confidence | as-written member | corrected member |
|---|---|---|---|---|---|---|
| src/Azos/Security/cryptography/AESCryptoMessageAlgorithm.cs:84-103 | Unprotect reads a 32-byte tag slot (`HMAC_LEN = 256/8`). It compares that slot with a re-computed HMAC-MD5 tag, which is 16 bytes. It also decrypts with the tag slot as the CBC IV instead of the IV Protect used | any message that passes the length guard, e.g. the output of Protect for a 16-byte message: 16 + 16 + 32 = 64 bytes. The 32-byte slot never equals a 16-byte tag, so the data is never returned: the result is null, or an exception from the decryptor rejecting the 32-byte IV. A message shorter than 16 bytes protects to 48 bytes and is turned away by the length guard with a SecurityException | read the 16 + 16 byte header Protect writes, decrypt with the transmitted IV, and compare 16-byte tags | high, not executed; assumes `MemBufferEquals` is false for buffers of different lengths | `CryptoMessage.UnprotectNeverAccepts` | `CryptoMessage.CorrectedRoundTrip` |
