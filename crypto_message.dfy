/**
 * The byte framing of AESCryptoMessageAlgorithm: a message is protected as
 * `[IV][HMAC tag][AES-256-CBC ciphertext]` and unprotected by slicing that
 * header back off, decrypting, re-hashing and comparing tags.
 *
 * The cipher (AES-256 in CBC mode, FIPS 197 and section 6.2 of NIST SP 800-38A,
 * with PKCS #7 padding from section 6.3 of RFC 5652) and the keyed hash
 * (HMAC, RFC 2104, over MD5, RFC 1321) are library calls and stay abstract:
 * they are functions carried by `Primitives`.
 */
module CryptoMessage {
  import opened Common

  /** Length of the random IV at the head of a protected message. */
  const IV_LEN: nat := 128 / 8
  /** Length of the tag slot the unprotect side reads after the IV. */
  const HMAC_LEN: nat := 256 / 8
  /** Header length the unprotect side assumes. */
  const HDR_LEN: nat := IV_LEN + HMAC_LEN
  /** Length of an HMAC-MD5 tag: one 128-bit MD5 digest. */
  const HMAC_MD5_LEN: nat := 128 / 8

  /**
   * The library primitives. The ciphers take (key, iv, input) and return
   * `None` when the library throws (a bad key or IV size, bad padding on
   * decryption); the keyed hash takes (key, data) and never throws.
   */
  datatype Primitives = Primitives(
    aesCbcEncrypt: (seq<byte>, seq<byte>, seq<byte>) -> Option<seq<byte>>,
    aesCbcDecrypt: (seq<byte>, seq<byte>, seq<byte>) -> Option<seq<byte>>,
    hmacMd5: (seq<byte>, seq<byte>) -> seq<byte>)

  /** The algorithm instance: its two configured secret keys and the library. */
  datatype AesMessageAlgorithm = AesMessageAlgorithm(aesKey: seq<byte>, hmacKey: seq<byte>, crypto: Primitives)

  /** An `ArraySegment<byte>`; `buffer == None` is the default segment over a null array. */
  datatype ArraySegment = ArraySegment(buffer: Option<seq<byte>>, offset: nat, count: nat)

  /** The segments .NET can construct: inside their array, or empty over null. */
  type Segment = s: ArraySegment
    | (s.buffer.Some? ==> s.offset + s.count <= |s.buffer.value|)
      && (s.buffer.None? ==> s.offset == 0 && s.count == 0)
    witness ArraySegment(None, 0, 0)

  /** The bytes a segment designates: `[Offset, Offset + Count)` of its array. */
  function Bytes(s: Segment): (r: seq<byte>)
    requires s.buffer.Some?
    ensures |r| == s.count
    ensures forall i :: 0 <= i < s.count ==> r[i] == s.buffer.value[s.offset + i]
  {
    s.buffer.value[s.offset..s.offset + s.count]
  }

  /** `new ArraySegment<byte>(b)`: the whole of a buffer. */
  function Whole(b: seq<byte>): (s: Segment)
    ensures s.buffer == Some(b) && Bytes(s) == b
  {
    ArraySegment(Some(b), 0, |b|)
  }

  /** The keyed hash over a nonce followed by data, as getHMAC computes it. */
  function Hmac(alg: AesMessageAlgorithm, nonce: seq<byte>, data: seq<byte>): (r: seq<byte>)
    ensures TagsAreMd5Sized(alg.crypto) ==> |r| == HMAC_MD5_LEN
  {
    alg.crypto.hmacMd5(alg.hmacKey, nonce + data)
  }

  /** The header slices the unprotect side reads from a protected message. */
  function IvSlice(b: seq<byte>): seq<byte> requires |b| >= HDR_LEN { b[..IV_LEN] }
  function TagSlice(b: seq<byte>): seq<byte> requires |b| >= HDR_LEN { b[IV_LEN..HDR_LEN] }
  function CipherSlice(b: seq<byte>): seq<byte> requires |b| >= HDR_LEN { b[HDR_LEN..] }

  /**
   * Protect: `iv` is the 16 fresh random bytes the crypto director supplies.
   * The output is the IV, then the tag of (IV ++ message), then the AES-CBC
   * encryption of the message under that IV.
   */
  function Protect(alg: AesMessageAlgorithm, msg: Segment, iv: seq<byte>): (r: Outcome<seq<byte>>)
    requires |iv| == IV_LEN
    ensures msg.buffer.None? ==> r == Fail(CallGuard("originalMessage"))
    ensures msg.buffer.Some? && msg.count < 1 ==> r == Fail(Security)
    ensures msg.buffer.Some? && msg.count >= 1 ==>
              && (r.Ok? <==> alg.crypto.aesCbcEncrypt(alg.aesKey, iv, Bytes(msg)).Some?)
              && (r.Fail? ==> r.error == Cryptographic)
    ensures r.Ok? ==>
              var tag := Hmac(alg, iv, Bytes(msg));
              var ct := alg.crypto.aesCbcEncrypt(alg.aesKey, iv, Bytes(msg));
              && ct.Some?
              && |r.value| == IV_LEN + |tag| + |ct.value|
              && r.value[..IV_LEN] == iv
              && r.value[IV_LEN..IV_LEN + |tag|] == tag
              && r.value[IV_LEN + |tag|..] == ct.value
  {
    if msg.buffer.None? then Fail(CallGuard("originalMessage"))
    else if msg.count < 1 then Fail(Security)
    else
      match alg.crypto.aesCbcEncrypt(alg.aesKey, iv, Bytes(msg))
      case None => Fail(Cryptographic)
      case Some(encrypted) =>
        var header := iv + Hmac(alg, iv, Bytes(msg));
        Ok(header + encrypted)
  }

  /**
   * Unprotect as written: a 16-byte IV, a 32-byte tag slot, the rest is
   * ciphertext; the ciphertext is decrypted with the TAG SLOT as the CBC IV;
   * the result is `Ok(None)` (the source's `null`) when the re-computed tag
   * of (IV ++ plaintext) differs from the tag slot.
   */
  function Unprotect(alg: AesMessageAlgorithm, msg: Segment): (r: Outcome<Option<seq<byte>>>)
    ensures msg.buffer.None? ==> r == Fail(CallGuard("protectedMessage"))
    ensures msg.buffer.Some? ==> (r == Fail(Security) <==> msg.count < HDR_LEN + 1)
    ensures msg.buffer.Some? && msg.count >= HDR_LEN + 1 ==>
              var b := Bytes(msg);
              var plain := alg.crypto.aesCbcDecrypt(alg.aesKey, TagSlice(b), CipherSlice(b));
              && (r == Fail(Cryptographic) <==> plain.None?)
              && (r.Ok? && r.value.Some? <==> plain.Some? && Hmac(alg, IvSlice(b), plain.value) == TagSlice(b))
              && (r.Ok? && r.value.Some? ==> r.value.value == plain.value)
              && (r == Ok(None) <==> plain.Some? && Hmac(alg, IvSlice(b), plain.value) != TagSlice(b))
  {
    if msg.buffer.None? then Fail(CallGuard("protectedMessage"))
    else if msg.count < HDR_LEN + 1 then Fail(Security)
    else
      var b := Bytes(msg);
      match alg.crypto.aesCbcDecrypt(alg.aesKey, TagSlice(b), CipherSlice(b))
      case None => Fail(Cryptographic)
      case Some(decrypted) =>
        if TagSlice(b) != Hmac(alg, IvSlice(b), decrypted) then Ok(None) else Ok(Some(decrypted))
  }

  /** Protect depends on the segment's bytes only, not on the rest of its array. */
  lemma ProtectReadsOnlySegment(alg: AesMessageAlgorithm, m1: Segment, m2: Segment, iv: seq<byte>)
    requires |iv| == IV_LEN
    requires m1.buffer.Some? && m2.buffer.Some? && Bytes(m1) == Bytes(m2)
    ensures Protect(alg, m1, iv) == Protect(alg, m2, iv)
  {
  }

  /** Unprotect depends on the segment's bytes only, not on the rest of its array. */
  lemma UnprotectReadsOnlySegment(alg: AesMessageAlgorithm, m1: Segment, m2: Segment)
    requires m1.buffer.Some? && m2.buffer.Some? && Bytes(m1) == Bytes(m2)
    ensures Unprotect(alg, m1) == Unprotect(alg, m2)
  {
  }

  // ---------------------------------------------------------------------
  // The array-level code: getHMAC over an incremental hash, and Unprotect
  // copying the header into fresh buffers.
  // ---------------------------------------------------------------------

  /** The library's incremental HMAC: data is appended, then hashed at once. */
  class IncrementalHmac {
    const hash: (seq<byte>, seq<byte>) -> seq<byte>
    const key: seq<byte>
    var pending: seq<byte>

    constructor (hash: (seq<byte>, seq<byte>) -> seq<byte>, key: seq<byte>)
      ensures this.hash == hash && this.key == key && pending == []
    {
      this.hash := hash;
      this.key := key;
      pending := [];
    }

    method AppendData(a: array<byte>, offset: nat, count: nat)
      requires offset + count <= a.Length
      modifies this
      ensures pending == old(pending) + a[offset..offset + count]
    {
      pending := pending + a[offset..offset + count];
    }

    method GetHashAndReset() returns (tag: seq<byte>)
      modifies this
      ensures tag == hash(key, old(pending)) && pending == []
    {
      tag := hash(key, pending);
      pending := [];
    }
  }

  /** getHMAC: the nonce segment is fed first, then the data segment. */
  method GetHmac(alg: AesMessageAlgorithm, nonce: array<byte>, nonceOffset: nat, nonceCount: nat,
                 data: array<byte>, dataOffset: nat, dataCount: nat) returns (tag: seq<byte>)
    requires nonceOffset + nonceCount <= nonce.Length
    requires dataOffset + dataCount <= data.Length
    ensures tag == alg.crypto.hmacMd5(alg.hmacKey,
                     nonce[nonceOffset..nonceOffset + nonceCount] + data[dataOffset..dataOffset + dataCount])
  {
    var ihash := new IncrementalHmac(alg.crypto.hmacMd5, alg.hmacKey);
    ihash.AppendData(nonce, nonceOffset, nonceCount);
    ihash.AppendData(data, dataOffset, dataCount);
    assert ihash.pending == nonce[nonceOffset..nonceOffset + nonceCount] + data[dataOffset..dataOffset + dataCount];
    tag := ihash.GetHashAndReset();
  }

  /** `Array.Copy(src, srcIndex, dst, dstIndex, length)`, element by element. */
  method ArrayCopy(src: array<byte>, srcIndex: nat, dst: array<byte>, dstIndex: nat, length: nat)
    requires srcIndex + length <= src.Length && dstIndex + length <= dst.Length
    modifies dst
    ensures dst[..] == old(dst[..dstIndex]) + old(src[srcIndex..srcIndex + length]) + old(dst[dstIndex + length..])
  {
    var chunk := src[srcIndex..srcIndex + length];
    var i := 0;
    while i < length
      invariant 0 <= i <= length
      invariant dst[..dstIndex] == old(dst[..dstIndex])
      invariant dst[dstIndex..dstIndex + i] == chunk[..i]
      invariant dst[dstIndex + length..] == old(dst[dstIndex + length..])
      invariant dst[dstIndex + i..dstIndex + length] == old(dst[dstIndex + i..dstIndex + length])
    {
      dst[dstIndex + i] := chunk[i];
      i := i + 1;
    }
    assert dst[..] == dst[..dstIndex] + dst[dstIndex..dstIndex + length] + dst[dstIndex + length..];
  }

  /** A fresh buffer of `length` bytes filled by `Array.Copy` from `src` at `srcIndex`. */
  method CopyToNew(src: array<byte>, srcIndex: nat, length: nat) returns (dst: array<byte>)
    requires srcIndex + length <= src.Length
    ensures fresh(dst) && dst[..] == src[srcIndex..srcIndex + length]
  {
    dst := new byte[length];
    ArrayCopy(src, srcIndex, dst, 0, length);
  }

  /** The segment over `a` that `UnprotectArray` receives. */
  function SegmentOf(a: array?<byte>, offset: nat, count: nat): (s: ArraySegment)
    reads a
    ensures (s.buffer == None) == (a == null)
  {
    if a == null then ArraySegment(None, offset, count) else ArraySegment(Some(a[..]), offset, count)
  }

  /**
   * Unprotect on arrays: the header is copied into freshly allocated IV and
   * tag buffers, the ciphertext range is decrypted, and the tag is compared
   * with getHMAC of the IV buffer and the plaintext buffer.
   */
  method UnprotectArray(alg: AesMessageAlgorithm, a: array?<byte>, offset: nat, count: nat)
    returns (r: Outcome<Option<seq<byte>>>)
    requires a != null ==> offset + count <= a.Length
    requires a == null ==> offset == 0 && count == 0
    ensures r == Unprotect(alg, SegmentOf(a, offset, count))
  {
    if a == null {
      return Fail(CallGuard("protectedMessage"));
    }
    if count < HDR_LEN + 1 {
      return Fail(Security);
    }
    ghost var seg: Segment := SegmentOf(a, offset, count);
    ghost var b := Bytes(seg);
    assert b == a[offset..offset + count];
    var iv := CopyToNew(a, offset, IV_LEN);
    assert iv[..] == IvSlice(b);
    var hmac := CopyToNew(a, offset + IV_LEN, HMAC_LEN);
    assert hmac[..] == TagSlice(b);
    var cipher := a[offset + HDR_LEN..offset + count];
    assert cipher == CipherSlice(b);
    var plain := alg.crypto.aesCbcDecrypt(alg.aesKey, hmac[..], cipher);
    if plain.None? {
      return Fail(Cryptographic);
    }
    var decrypted := new byte[|plain.value|](i requires 0 <= i < |plain.value| => plain.value[i]);
    var rehmac := GetHmac(alg, iv, 0, iv.Length, decrypted, 0, decrypted.Length);
    assert iv[0..iv.Length] == IvSlice(b);
    assert decrypted[0..decrypted.Length] == decrypted[..] == plain.value;
    assert rehmac == Hmac(alg, IvSlice(b), plain.value);
    if hmac[..] != rehmac {
      return Ok(None);
    }
    return Ok(Some(decrypted[..]));
  }

  // ---------------------------------------------------------------------
  // What the two sides do together.
  // ---------------------------------------------------------------------

  /** The keyed hash yields HMAC-MD5's 16-byte tags. */
  ghost predicate TagsAreMd5Sized(c: Primitives) {
    forall k, d :: |c.hmacMd5(k, d)| == HMAC_MD5_LEN
  }

  /** CBC decryption under the same key and IV undoes CBC encryption. */
  ghost predicate DecryptInvertsEncrypt(c: Primitives) {
    forall k, iv, m :: c.aesCbcEncrypt(k, iv, m).Some? ==> c.aesCbcDecrypt(k, iv, c.aesCbcEncrypt(k, iv, m).value) == Some(m)
  }

  /** AES block length; PKCS #7 pads every plaintext to a whole, non-zero number of blocks. */
  const AES_BLOCK_LEN: nat := 16

  ghost predicate PaddedToBlocks(c: Primitives) {
    forall k, iv, m :: c.aesCbcEncrypt(k, iv, m).Some? ==>
      |c.aesCbcEncrypt(k, iv, m).value| == AES_BLOCK_LEN * (|m| / AES_BLOCK_LEN + 1)
  }

  /** With HMAC-MD5, Protect writes a 32-byte header, not the HDR_LEN Unprotect reads. */
  lemma ProtectHeaderIsShorterThanHdrLen(alg: AesMessageAlgorithm, msg: Segment, iv: seq<byte>)
    requires TagsAreMd5Sized(alg.crypto) && |iv| == IV_LEN
    requires Protect(alg, msg, iv).Ok?
    ensures var out := Protect(alg, msg, iv).value;
            |out| == IV_LEN + HMAC_MD5_LEN + |alg.crypto.aesCbcEncrypt(alg.aesKey, iv, Bytes(msg)).value|
            && IV_LEN + HMAC_MD5_LEN < HDR_LEN
  {
    assert |Hmac(alg, iv, Bytes(msg))| == HMAC_MD5_LEN;
  }

  /**
   * As written, Unprotect accepts nothing when the hash is HMAC-MD5: the
   * 32-byte tag slot is compared with a 16-byte re-computed tag.
   */
  lemma UnprotectNeverAccepts(alg: AesMessageAlgorithm, msg: Segment)
    requires TagsAreMd5Sized(alg.crypto)
    ensures !(Unprotect(alg, msg).Ok? && Unprotect(alg, msg).value.Some?)
  {
    if msg.buffer.Some? && msg.count >= HDR_LEN + 1 {
      var b := Bytes(msg);
      var plain := alg.crypto.aesCbcDecrypt(alg.aesKey, TagSlice(b), CipherSlice(b));
      if plain.Some? {
        assert |Hmac(alg, IvSlice(b), plain.value)| == HMAC_MD5_LEN;
        assert |TagSlice(b)| == HMAC_LEN;
      }
    }
  }

  /** In particular no protected message is ever recovered by Unprotect. */
  lemma ProtectThenUnprotectFails(alg: AesMessageAlgorithm, msg: Segment, iv: seq<byte>)
    requires TagsAreMd5Sized(alg.crypto) && |iv| == IV_LEN
    requires Protect(alg, msg, iv).Ok?
    ensures Unprotect(alg, Whole(Protect(alg, msg, iv).value)) != Ok(Some(Bytes(msg)))
  {
    UnprotectNeverAccepts(alg, Whole(Protect(alg, msg, iv).value));
  }

  /**
   * A message shorter than one AES block protects to exactly 48 bytes, which
   * the length guard of Unprotect turns away before any decryption.
   */
  lemma ShortProtectedMessageHitsLengthGuard(alg: AesMessageAlgorithm, msg: Segment, iv: seq<byte>)
    requires TagsAreMd5Sized(alg.crypto) && PaddedToBlocks(alg.crypto) && |iv| == IV_LEN
    requires Protect(alg, msg, iv).Ok? && msg.count < AES_BLOCK_LEN
    ensures |Protect(alg, msg, iv).value| == HDR_LEN
    ensures Unprotect(alg, Whole(Protect(alg, msg, iv).value)) == Fail(Security)
  {
    assert |Hmac(alg, iv, Bytes(msg))| == HMAC_MD5_LEN;
  }

  /** Header length of the corrected framing: IV then the 16-byte tag Protect writes. */
  const CORRECTED_HDR_LEN: nat := IV_LEN + HMAC_MD5_LEN

  /**
   * Unprotect as evidently intended: read the 16-byte tag Protect wrote,
   * decrypt with the transmitted IV, accept exactly when the re-computed tag
   * of (IV ++ plaintext) matches.
   */
  function UnprotectCorrected(alg: AesMessageAlgorithm, msg: Segment): (r: Outcome<Option<seq<byte>>>)
    ensures msg.buffer.None? ==> r == Fail(CallGuard("protectedMessage"))
    ensures msg.buffer.Some? ==> (r == Fail(Security) <==> msg.count < CORRECTED_HDR_LEN + 1)
    ensures msg.buffer.Some? && msg.count >= CORRECTED_HDR_LEN + 1 ==>
              var b := Bytes(msg);
              var plain := alg.crypto.aesCbcDecrypt(alg.aesKey, b[..IV_LEN], b[CORRECTED_HDR_LEN..]);
              && (r == Fail(Cryptographic) <==> plain.None?)
              && (r.Ok? && r.value.Some? <==>
                    plain.Some? && Hmac(alg, b[..IV_LEN], plain.value) == b[IV_LEN..CORRECTED_HDR_LEN])
              && (r.Ok? && r.value.Some? ==> r.value.value == plain.value)
              && (r == Ok(None) <==>
                    plain.Some? && Hmac(alg, b[..IV_LEN], plain.value) != b[IV_LEN..CORRECTED_HDR_LEN])
  {
    if msg.buffer.None? then Fail(CallGuard("protectedMessage"))
    else if msg.count < CORRECTED_HDR_LEN + 1 then Fail(Security)
    else
      var b := Bytes(msg);
      match alg.crypto.aesCbcDecrypt(alg.aesKey, b[..IV_LEN], b[CORRECTED_HDR_LEN..])
      case None => Fail(Cryptographic)
      case Some(decrypted) =>
        if b[IV_LEN..CORRECTED_HDR_LEN] != Hmac(alg, b[..IV_LEN], decrypted) then Ok(None) else Ok(Some(decrypted))
  }

  /** The corrected framing recovers every message Protect protects. */
  lemma CorrectedRoundTrip(alg: AesMessageAlgorithm, msg: Segment, iv: seq<byte>)
    requires TagsAreMd5Sized(alg.crypto) && DecryptInvertsEncrypt(alg.crypto) && PaddedToBlocks(alg.crypto)
    requires |iv| == IV_LEN
    requires Protect(alg, msg, iv).Ok?
    ensures UnprotectCorrected(alg, Whole(Protect(alg, msg, iv).value)) == Ok(Some(Bytes(msg)))
  {
    var out := Protect(alg, msg, iv).value;
    var tag := Hmac(alg, iv, Bytes(msg));
    var ct := alg.crypto.aesCbcEncrypt(alg.aesKey, iv, Bytes(msg)).value;
    assert |tag| == HMAC_MD5_LEN;
    assert |ct| >= AES_BLOCK_LEN;
    assert out[..IV_LEN] == iv;
    assert out[IV_LEN..CORRECTED_HDR_LEN] == tag;
    assert out[CORRECTED_HDR_LEN..] == ct;
    assert alg.crypto.aesCbcDecrypt(alg.aesKey, iv, ct) == Some(Bytes(msg));
  }

  /** The corrected framing turns away a message whose tag does not match its plaintext. */
  lemma CorrectedRejectsForgedTag(alg: AesMessageAlgorithm, b: seq<byte>, plain: seq<byte>)
    requires |b| >= CORRECTED_HDR_LEN + 1
    requires alg.crypto.aesCbcDecrypt(alg.aesKey, b[..IV_LEN], b[CORRECTED_HDR_LEN..]) == Some(plain)
    requires Hmac(alg, b[..IV_LEN], plain) != b[IV_LEN..CORRECTED_HDR_LEN]
    ensures UnprotectCorrected(alg, Whole(b)) == Ok(None)
  {
  }
}
