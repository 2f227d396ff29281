/**
 * The token ring: generation of new ring tokens, and resolution of opaque
 * access tokens into authentication tokens through a cache table that also
 * remembers tokens confirmed absent from the backing store.
 *
 * The clock, the two random generators, the GUID source, Base64 encoding,
 * the backing-store fetch hook and the content decoder are parameters.
 */
module Tokens {
  import opened Common

  // ---------------------------------------------------------------------
  // Time: a .NET DateTime is its tick count (100 ns units).
  // ---------------------------------------------------------------------

  /** `DateTime.MinValue.Ticks` and `DateTime.MaxValue.Ticks`. */
  const MIN_TICKS: int := 0
  const MAX_TICKS: int := 3_155_378_975_999_999_999
  const TICKS_PER_SECOND: int := 10_000_000

  type DateTime = t: int | MIN_TICKS <= t <= MAX_TICKS

  /** `DateTime.AddSeconds` for a whole number of seconds: throws when leaving the range. */
  function AddSeconds(t: DateTime, seconds: int): (r: Outcome<DateTime>)
    ensures r.Ok? <==> MIN_TICKS <= t + seconds * TICKS_PER_SECOND <= MAX_TICKS
    ensures r.Fail? ==> r.error == ArgumentOutOfRange
    ensures r.Ok? ==> r.value == t + seconds * TICKS_PER_SECOND
    ensures r.Ok? && seconds >= 0 ==> t <= r.value
  {
    var ticks := t + seconds * TICKS_PER_SECOND;
    if MIN_TICKS <= ticks <= MAX_TICKS then Ok(ticks) else Fail(ArgumentOutOfRange)
  }

  // ---------------------------------------------------------------------
  // Tokens and the cache table.
  // ---------------------------------------------------------------------

  /** Age limit, in seconds, the ring gives its cache tables by default. */
  const DEFAULT_CACHE_MAX_AGE_SEC: int := 37
  /** Segment size of the ring's object pile. */
  const PILE_SEGMENT_SIZE: int := 64 * 1024 * 1024
  /** Length of a GUID in network byte order. */
  const GUID_LEN: nat := 16

  /**
   * The type-level constants of a token class: its name, the table name its
   * schema declares, its byte strength range and default lifetime.
   */
  datatype TokenKind = TokenKind(
    typeName: string,
    tableName: string,
    byteStrengthMin: nat,
    byteStrengthMax: nat,
    defaultExpirationSeconds: int)

  /** The fields every ring token carries; each is null until set. */
  datatype RingToken = RingToken(
    value: Option<string>,
    issuedBy: Option<string>,
    issueUtc: Option<DateTime>,
    expireUtc: Option<DateTime>)

  /** An access token: a ring token with the content of its subject's authentication token. */
  datatype AccessToken = AccessToken(ring: RingToken, subjectAuthenticationToken: Option<string>)

  /** The internal identity an access token resolves to. */
  datatype AuthenticationToken = AuthenticationToken(realm: string, data: string)

  /** A value in the access-token cache table: the absent marker or a token. */
  datatype CacheEntry = Absent | Cached(token: AccessToken)

  /** One call of the backing-store fetch hook, with its arguments. */
  datatype FetchCall = FetchCall(accessToken: string, utcNow: DateTime)

  /** `DoFetchAccessToken`: the physical store lookup; `None` is "no such live token". */
  type FetchHook = (string, DateTime) -> Option<AccessToken>

  /** `MapSubjectAuthenticationTokenFromContent`. */
  type ContentDecoder = string -> AuthenticationToken

  // ---------------------------------------------------------------------
  // Resolution of an access token.
  // ---------------------------------------------------------------------

  /** A token's expiry, with a null expiry read as `DateTime.MinValue`. */
  function ExpireOrMin(t: AccessToken): (r: DateTime)
    ensures t.ring.expireUtc.None? ==> r == MIN_TICKS
    ensures t.ring.expireUtc.Some? ==> r == t.ring.expireUtc.value
  {
    match t.ring.expireUtc
    case None => MIN_TICKS
    case Some(e) => e
  }

  /**
   * The checks applied once a token is in hand: expired tokens and tokens
   * with blank content resolve to nothing, any other token to the decoding
   * of its content.
   */
  function Admit(t: AccessToken, utcNow: DateTime, decode: ContentDecoder): (r: Option<AuthenticationToken>)
    ensures ExpireOrMin(t) < utcNow ==> r == None
    ensures IsNullOrWhiteSpace(t.subjectAuthenticationToken) ==> r == None
    ensures (utcNow <= ExpireOrMin(t) && !IsNullOrWhiteSpace(t.subjectAuthenticationToken))
              ==> r == Some(decode(t.subjectAuthenticationToken.value))
  {
    if ExpireOrMin(t) < utcNow then None
    else if IsNullOrWhiteSpace(t.subjectAuthenticationToken) then None
    else Some(decode(t.subjectAuthenticationToken.value))
  }

  /** What one resolution returns, the access-token table after it, and the fetches it made. */
  datatype Resolution = Resolution(
    result: Outcome<Option<AuthenticationToken>>,
    table: map<string, CacheEntry>,
    fetches: seq<FetchCall>)

  /** The cache entry written after a fetch: the token, or the absent marker. */
  function EntryFor(fetched: Option<AccessToken>): (e: CacheEntry)
    ensures e.Absent? <==> fetched.None?
    ensures e.Cached? ==> e.token == fetched.value
  {
    match fetched
    case None => Absent
    case Some(t) => Cached(t)
  }

  /**
   * MapAccessToken on the access-token table `table`, for a ring that is
   * `running` or not, at time `utcNow`.
   */
  function Resolve(running: bool, table: map<string, CacheEntry>, accessToken: Option<string>,
                   utcNow: DateTime, fetch: FetchHook, decode: ContentDecoder): (r: Resolution)
    // a ring that is not running answers null and touches nothing
    ensures !running ==> r.result == Ok(None) && r.table == table && r.fetches == []
    // a blank argument is refused before the table is read
    ensures running && IsNullOrWhiteSpace(accessToken) ==>
              r.result == Fail(CallGuard("accessToken")) && r.table == table && r.fetches == []
    // the absent marker answers null without fetching
    ensures running && !IsNullOrWhiteSpace(accessToken) && accessToken.value in table
              && table[accessToken.value] == Absent ==>
              r.result == Ok(None) && r.table == table && r.fetches == []
    // a cached token is used as is, and the table is left alone
    ensures running && !IsNullOrWhiteSpace(accessToken) && accessToken.value in table
              && table[accessToken.value].Cached? ==>
              r.result == Ok(Admit(table[accessToken.value].token, utcNow, decode))
              && r.table == table && r.fetches == []
    // a miss fetches once and records the token or the absent marker
    ensures running && !IsNullOrWhiteSpace(accessToken) && accessToken.value !in table ==>
              var fetched := fetch(accessToken.value, utcNow);
              && r.fetches == [FetchCall(accessToken.value, utcNow)]
              && r.table == table[accessToken.value := EntryFor(fetched)]
              && r.result == Ok(if fetched.None? then None else Admit(fetched.value, utcNow, decode))
    // no other key changes, and after a looked-up key is remembered
    ensures forall k :: k in table ==> k in r.table && (accessToken != Some(k) ==> r.table[k] == table[k])
    ensures forall k :: k in r.table ==> k in table || accessToken == Some(k)
    ensures running && !IsNullOrWhiteSpace(accessToken) ==> accessToken.value in r.table
  {
    if !running then Resolution(Ok(None), table, [])
    else if IsNullOrWhiteSpace(accessToken) then Resolution(Fail(CallGuard("accessToken")), table, [])
    else
      var key := accessToken.value;
      if key in table then
        match table[key]
        case Absent => Resolution(Ok(None), table, [])
        case Cached(t) => Resolution(Ok(Admit(t, utcNow, decode)), table, [])
      else
        var fetched := fetch(key, utcNow);
        var result := if fetched.None? then None else Admit(fetched.value, utcNow, decode);
        Resolution(Ok(result), table[key := EntryFor(fetched)], [FetchCall(key, utcNow)])
  }

  /**
   * Negative caching: looking up an unknown token twice calls the fetch hook
   * once; the second lookup answers null from the absent marker.
   */
  lemma NegativeCachingFetchesOnce(table: map<string, CacheEntry>, key: string, now1: DateTime, now2: DateTime,
                                   fetch: FetchHook, decode: ContentDecoder)
    requires !IsNullOrWhiteSpace(Some(key)) && key !in table && fetch(key, now1).None?
    ensures var first := Resolve(true, table, Some(key), now1, fetch, decode);
            var second := Resolve(true, first.table, Some(key), now2, fetch, decode);
            && first.fetches == [FetchCall(key, now1)] && first.result == Ok(None)
            && second.fetches == [] && second.result == Ok(None) && second.table == first.table
  {
  }

  /** Any key that has been looked up once is never fetched again while it stays in the table. */
  lemma RepeatedLookupNeverFetches(table: map<string, CacheEntry>, key: string,
                                    now1: DateTime, now2: DateTime, fetch: FetchHook, decode: ContentDecoder)
    requires !IsNullOrWhiteSpace(Some(key))
    ensures var first := Resolve(true, table, Some(key), now1, fetch, decode);
            var second := Resolve(true, first.table, Some(key), now2, fetch, decode);
            |first.fetches| <= 1 && second.fetches == [] && second.table == first.table
  {
  }

  /**
   * The same access token looked up at each time in `times`, each lookup on
   * the table the previous one left: the final table and every fetch made.
   */
  function ResolveRepeatedly(table: map<string, CacheEntry>, key: string, times: seq<DateTime>,
                             fetch: FetchHook, decode: ContentDecoder): (map<string, CacheEntry>, seq<FetchCall>)
    decreases |times|
  {
    if times == [] then (table, [])
    else
      var first := Resolve(true, table, Some(key), times[0], fetch, decode);
      var rest := ResolveRepeatedly(first.table, key, times[1..], fetch, decode);
      (rest.0, first.fetches + rest.1)
  }

  /** Once a key is in the table, no number of further lookups fetches it or changes its entry. */
  lemma {:induction false} CachedKeyIsNeverFetched(table: map<string, CacheEntry>, key: string, times: seq<DateTime>,
                                                   fetch: FetchHook, decode: ContentDecoder)
    requires !IsNullOrWhiteSpace(Some(key)) && key in table
    ensures var r := ResolveRepeatedly(table, key, times, fetch, decode);
            r.1 == [] && key in r.0 && r.0[key] == table[key]
    decreases |times|
  {
    if times != [] {
      var first := Resolve(true, table, Some(key), times[0], fetch, decode);
      CachedKeyIsNeverFetched(first.table, key, times[1..], fetch, decode);
    }
  }

  /**
   * Negative and positive caching together: however many times a token is
   * looked up, the fetch hook is called at most once, at the first lookup.
   */
  lemma {:induction false} FetchedAtMostOnce(table: map<string, CacheEntry>, key: string, times: seq<DateTime>,
                                             fetch: FetchHook, decode: ContentDecoder)
    requires !IsNullOrWhiteSpace(Some(key))
    ensures var fetches := ResolveRepeatedly(table, key, times, fetch, decode).1;
            && |fetches| <= 1
            && (key in table ==> fetches == [])
            && (key !in table && times != [] ==> fetches == [FetchCall(key, times[0])])
  {
    if times != [] {
      var first := Resolve(true, table, Some(key), times[0], fetch, decode);
      CachedKeyIsNeverFetched(first.table, key, times[1..], fetch, decode);
    }
  }

  /** Expiry is checked on read: an expired token resolves to null and stays in the table. */
  lemma ExpiredTokenIsNotEvicted(table: map<string, CacheEntry>, key: string, utcNow: DateTime,
                                 fetch: FetchHook, decode: ContentDecoder)
    requires !IsNullOrWhiteSpace(Some(key)) && key in table && table[key].Cached?
    requires ExpireOrMin(table[key].token) < utcNow
    ensures var r := Resolve(true, table, Some(key), utcNow, fetch, decode);
            r.result == Ok(None) && key in r.table && r.table[key] == table[key]
  {
  }

  /** A token whose expiry equals the current time is still live. */
  lemma ExpiryInstantIsLive(t: AccessToken, utcNow: DateTime, decode: ContentDecoder)
    requires t.ring.expireUtc == Some(utcNow)
    requires t.subjectAuthenticationToken.Some? && !IsNullOrWhiteSpace(t.subjectAuthenticationToken)
    ensures Admit(t, utcNow, decode) == Some(decode(t.subjectAuthenticationToken.value))
  {
  }

  // ---------------------------------------------------------------------
  // Token payload.
  // ---------------------------------------------------------------------

  /**
   * The two random buffers combined by XOR from index 1 on; index 0 keeps
   * the first buffer's byte.
   */
  function Mixed(a: seq<byte>, b: seq<byte>): (r: seq<byte>)
    requires |a| == |b|
    ensures |r| == |a|
    ensures |a| > 0 ==> r[0] == a[0]
    ensures forall i :: 1 <= i < |a| ==> r[i] == a[i] ^ b[i]
  {
    seq(|a|, i requires 0 <= i < |a| => if i == 0 then a[0] else a[i] ^ b[i])
  }

  /** Mixing twice with the same second buffer gives back the first buffer. */
  lemma MixedTwiceRestores(a: seq<byte>, b: seq<byte>)
    requires |a| == |b|
    ensures Mixed(Mixed(a, b), b) == a
  {
    var m := Mixed(Mixed(a, b), b);
    forall i | 0 <= i < |a| ensures m[i] == a[i] {
      if i > 0 {
        assert m[i] == (a[i] ^ b[i]) ^ b[i];
      }
    }
  }

  /** The token's byte payload: the GUID pad, then the mixed random buffer. */
  function TokenPayload(guidPad: seq<byte>, rnd: seq<byte>, rnd2: seq<byte>): (r: seq<byte>)
    requires |guidPad| == GUID_LEN && |rnd| == |rnd2|
    ensures |r| == GUID_LEN + |rnd| && r[..GUID_LEN] == guidPad && r[GUID_LEN..] == Mixed(rnd, rnd2)
  {
    guidPad + Mixed(rnd, rnd2)
  }

  /** Layout of the payload: pad, the unmixed first byte, then the XOR of both buffers. */
  lemma PayloadLayout(guidPad: seq<byte>, rnd: seq<byte>, rnd2: seq<byte>)
    requires |guidPad| == GUID_LEN && |rnd| == |rnd2|
    ensures var p := TokenPayload(guidPad, rnd, rnd2);
            && |p| == GUID_LEN + |rnd|
            && p[..GUID_LEN] == guidPad
            && (|rnd| > 0 ==> p[GUID_LEN] == rnd[0])
            && forall i :: 1 <= i < |rnd| ==> p[GUID_LEN + i] == rnd[i] ^ rnd2[i]
  {
  }

  /** A buffer drawn within a kind's byte strength gives a payload 16 bytes longer. */
  lemma PayloadLengthWithinStrength(kind: TokenKind, guidPad: seq<byte>, rnd: seq<byte>, rnd2: seq<byte>)
    requires |guidPad| == GUID_LEN && |rnd| == |rnd2|
    requires kind.byteStrengthMin <= |rnd| <= kind.byteStrengthMax
    ensures GUID_LEN + kind.byteStrengthMin <= |TokenPayload(guidPad, rnd, rnd2)| <= GUID_LEN + kind.byteStrengthMax
  {
  }

  // ---------------------------------------------------------------------
  // The ring.
  // ---------------------------------------------------------------------

  /**
   * The process-wide map from token type to cache table name. It is never
   * changed in place: a new map is published whenever a type is added.
   */
  class TableNameRegistry {
    var names: map<TokenKind, string>
    ghost var publications: nat

    ghost predicate Valid()
      reads this
    {
      forall k :: k in names ==> names[k] == k.tableName
    }

    constructor ()
      ensures Valid() && names == map[] && publications == 0
    {
      names := map[];
      publications := 0;
    }
  }

  /** The start and stop calls the ring makes on its pile and its cache. */
  datatype LifecycleEvent =
    | PileStart | CacheStart
    | CacheSignalStop | PileSignalStop
    | CacheWaitForCompleteStop | PileWaitForCompleteStop

  class TokenRing {
    /** The shared type-to-table-name registry. */
    const registry: TableNameRegistry
    /** The descriptor of the access-token type. */
    const accessTokenKind: TokenKind
    /** The host name the log uses when no issuer is configured. */
    const defaultHostName: string
    /** The maximum entry age the cache is configured with; eviction is not modelled. */
    const cacheDefaultMaxAgeSec: int
    /** The segment size the pile is configured with; the pile's storage is not modelled. */
    const pileSegmentSize: int

    /** The daemon is in the Running state. */
    var running: bool
    /** The configured issuer name; null when not configured. */
    var issuerName: Option<string>
    /** The cache: table name to the table's entries. */
    var tables: map<string, map<string, CacheEntry>>
    /** The start/stop calls made on the pile and cache so far. */
    var events: seq<LifecycleEvent>
    /** The calls made to the fetch hook so far. */
    ghost var fetches: seq<FetchCall>

    ghost predicate Valid()
      reads this, registry
    {
      registry.Valid()
    }

    constructor (registry: TableNameRegistry, accessTokenKind: TokenKind, defaultHostName: string)
      requires registry.Valid()
      ensures Valid()
      ensures this.registry == registry && this.accessTokenKind == accessTokenKind
      ensures this.defaultHostName == defaultHostName
      ensures cacheDefaultMaxAgeSec == DEFAULT_CACHE_MAX_AGE_SEC && pileSegmentSize == PILE_SEGMENT_SIZE
      ensures !running && issuerName == None && tables == map[] && events == [] && fetches == []
    {
      this.registry := registry;
      this.accessTokenKind := accessTokenKind;
      this.defaultHostName := defaultHostName;
      cacheDefaultMaxAgeSec := DEFAULT_CACHE_MAX_AGE_SEC;
      pileSegmentSize := PILE_SEGMENT_SIZE;
      running := false;
      issuerName := None;
      tables := map[];
      events := [];
      fetches := [];
    }

    /** The issuer name for new tokens: the configured one unless blank, else the host name. */
    function IssuerName(): (r: string)
      reads this
      ensures !IsNullOrWhiteSpace(issuerName) ==> r == issuerName.value && !IsNullOrWhiteSpace(Some(r))
      ensures IsNullOrWhiteSpace(issuerName) ==> r == defaultHostName
    {
      if !IsNullOrWhiteSpace(issuerName) then issuerName.value else defaultHostName
    }

    /** The IssuerName setter. */
    method SetIssuerName(value: Option<string>)
      modifies this
      ensures issuerName == value
      ensures running == old(running) && tables == old(tables) && events == old(events) && fetches == old(fetches)
    {
      issuerName := value;
    }

    /**
     * A new token of `kind`. `guidPad` is the new GUID in network byte
     * order, `nextRandomBytes(min, max)` the platform generator's buffer,
     * `cryptoGetBytes(n)` the n bytes the OS generator writes, `toBase64` the
     * encoder and `utcNow` the time source's reading.
     */
    method GenerateNewToken(kind: TokenKind, guidPad: seq<byte>,
                            nextRandomBytes: (nat, nat) -> seq<byte>, cryptoGetBytes: nat -> seq<byte>,
                            toBase64: seq<byte> -> string, utcNow: DateTime)
      returns (r: Outcome<RingToken>)
      requires |guidPad| == GUID_LEN
      requires forall n :: |cryptoGetBytes(n)| == n
      ensures var rnd := nextRandomBytes(kind.byteStrengthMin, kind.byteStrengthMax);
              var payload := TokenPayload(guidPad, rnd, cryptoGetBytes(|rnd|));
              var expire := AddSeconds(utcNow, kind.defaultExpirationSeconds);
              && (r.Ok? <==> expire.Ok?)
              && (r.Fail? ==> r.error == ArgumentOutOfRange)
              && (r.Ok? ==> r.value == RingToken(Some(toBase64(payload)), Some(IssuerName()), Some(utcNow), Some(expire.value)))
    {
      var rndBytes := nextRandomBytes(kind.byteStrengthMin, kind.byteStrengthMax);
      var rnd := new byte[|rndBytes|](i requires 0 <= i < |rndBytes| => rndBytes[i]);
      var rnd2 := cryptoGetBytes(rnd.Length);
      var i := 1;
      while i < rnd.Length
        invariant 1 <= i && (rnd.Length > 0 ==> i <= rnd.Length)
        invariant forall j :: 0 <= j < rnd.Length ==> rnd[j] == (if 1 <= j < i then rndBytes[j] ^ rnd2[j] else rndBytes[j])
      {
        rnd[i] := rnd[i] ^ rnd2[i];
        i := i + 1;
      }
      assert rnd[..] == Mixed(rndBytes, rnd2);
      var btoken := guidPad + rnd[..];
      var token := RingToken(None, None, None, None);
      token := token.(value := Some(toBase64(btoken)));
      token := token.(issuedBy := Some(IssuerName()));
      token := token.(issueUtc := Some(utcNow));
      var expire := AddSeconds(utcNow, kind.defaultExpirationSeconds);
      if expire.Fail? {
        return Fail(expire.error);
      }
      token := token.(expireUtc := Some(expire.value));
      return Ok(token);
    }

    /**
     * GetCacheTableOf: the table name of `kind`, publishing an extended
     * registry the first time the kind is seen; the cache table is created
     * when missing.
     */
    method GetCacheTableOf(kind: TokenKind) returns (name: string)
      requires Valid()
      modifies registry, this`tables
      ensures Valid()
      ensures name == kind.tableName && name in tables
      ensures kind in old(registry.names) ==>
                registry.names == old(registry.names) && registry.publications == old(registry.publications)
      ensures kind !in old(registry.names) ==>
                registry.names == old(registry.names)[kind := kind.tableName]
                && registry.publications == old(registry.publications) + 1
      ensures tables == if name in old(tables) then old(tables) else old(tables)[name := map[]]
    {
      if kind !in registry.names {
        var dict := registry.names[kind := kind.tableName];
        registry.names := dict;
        registry.publications := registry.publications + 1;
      }
      name := registry.names[kind];
      if name !in tables {
        tables := tables[name := map[]];
      }
    }

    /**
     * MapAccessToken: resolves an opaque access token into the subject's
     * authentication token, or null.
     */
    method MapAccessToken(accessToken: Option<string>, utcNow: DateTime, fetch: FetchHook, decode: ContentDecoder)
      returns (r: Outcome<Option<AuthenticationToken>>)
      requires Valid()
      modifies this, registry
      ensures Valid()
      ensures running == old(running) && issuerName == old(issuerName) && events == old(events)
      ensures !old(running) ==>
                r == Ok(None) && tables == old(tables) && fetches == old(fetches)
                && registry.names == old(registry.names) && registry.publications == old(registry.publications)
      ensures old(running) ==>
                var name := accessTokenKind.tableName;
                var table := if name in old(tables) then old(tables)[name] else map[];
                var res := Resolve(true, table, accessToken, utcNow, fetch, decode);
                && registry.names == old(registry.names)[accessTokenKind := name]
                && registry.publications
                     == old(registry.publications) + (if accessTokenKind in old(registry.names) then 0 else 1)
                && r == res.result
                && tables == old(tables)[name := res.table]
                && fetches == old(fetches) + res.fetches
    {
      if !running {
        return Ok(None);
      }
      var name := GetCacheTableOf(accessTokenKind);
      if IsNullOrWhiteSpace(accessToken) {
        return Fail(CallGuard("accessToken"));
      }
      var key := accessToken.value;
      var tbl := tables[name];
      if key in tbl && tbl[key].Absent? {
        return Ok(None);
      }
      var access := if key in tbl then Some(tbl[key].token) else None;
      if access.None? {
        access := fetch(key, utcNow);
        fetches := fetches + [FetchCall(key, utcNow)];
        tables := tables[name := tbl[key := EntryFor(access)]];
        if access.None? {
          return Ok(None);
        }
      }
      var token := access.value;
      if ExpireOrMin(token) < utcNow {
        return Ok(None);
      }
      var content := token.subjectAuthenticationToken;
      if IsNullOrWhiteSpace(content) {
        return Ok(None);
      }
      return Ok(Some(decode(content.value)));
    }

    /** Start: the pile is started, then the cache, then the ring runs. */
    method Start()
      modifies this
      ensures running
      ensures events == old(events) + [PileStart, CacheStart]
      ensures issuerName == old(issuerName) && tables == old(tables) && fetches == old(fetches)
    {
      DoStart();
      running := true;
    }

    method DoStart()
      modifies this`events
      ensures events == old(events) + [PileStart, CacheStart]
    {
      events := events + [PileStart];
      events := events + [CacheStart];
    }

    /** SignalStop: the ring stops running, then the cache and the pile are signalled, in that order. */
    method SignalStop()
      modifies this
      ensures !running
      ensures events == old(events) + [CacheSignalStop, PileSignalStop]
      ensures issuerName == old(issuerName) && tables == old(tables) && fetches == old(fetches)
    {
      running := false;
      DoSignalStop();
    }

    method DoSignalStop()
      modifies this`events
      ensures events == old(events) + [CacheSignalStop, PileSignalStop]
    {
      events := events + [CacheSignalStop];
      events := events + [PileSignalStop];
    }

    method DoWaitForCompleteStop()
      modifies this`events
      ensures events == old(events) + [CacheWaitForCompleteStop, PileWaitForCompleteStop]
    {
      events := events + [CacheWaitForCompleteStop];
      events := events + [PileWaitForCompleteStop];
    }
  }

  /**
   * A start/stop cycle of a fresh ring: the pile starts before the cache,
   * and the cache is signalled and awaited before the pile.
   */
  method LifecycleOrder(registry: TableNameRegistry, kind: TokenKind, host: string)
    returns (trace: seq<LifecycleEvent>)
    requires registry.Valid()
    ensures trace == [PileStart, CacheStart, CacheSignalStop, PileSignalStop,
                      CacheWaitForCompleteStop, PileWaitForCompleteStop]
  {
    var ring := new TokenRing(registry, kind, host);
    ring.Start();
    ring.SignalStop();
    ring.DoWaitForCompleteStop();
    trace := ring.events;
  }

  /**
   * Two lookups of the same unknown token on a running ring: the store is
   * asked once, and both answers are null.
   */
  method NegativeCachingOnRing(ring: TokenRing, key: string, now1: DateTime, now2: DateTime,
                               fetch: FetchHook, decode: ContentDecoder)
    returns (r1: Outcome<Option<AuthenticationToken>>, r2: Outcome<Option<AuthenticationToken>>)
    requires ring.Valid() && ring.running
    requires !IsNullOrWhiteSpace(Some(key)) && fetch(key, now1).None?
    requires ring.accessTokenKind.tableName in ring.tables ==>
               key !in ring.tables[ring.accessTokenKind.tableName]
    modifies ring, ring.registry
    ensures r1 == Ok(None) && r2 == Ok(None)
    ensures ring.fetches == old(ring.fetches) + [FetchCall(key, now1)]
    ensures ring.accessTokenKind.tableName in ring.tables
    ensures var table := ring.tables[ring.accessTokenKind.tableName]; key in table && table[key] == Absent
  {
    r1 := ring.MapAccessToken(Some(key), now1, fetch, decode);
    r2 := ring.MapAccessToken(Some(key), now2, fetch, decode);
  }
}
