/** Headers, dispatch and whole-file laws of the DBENC formats (src/dbenc/mod.rs,
    src/dbenc/aead.rs, src/dbenc/argon2.rs, src/dbenc/pqe.rs). */
module Dbenc {
  import opened Prelude
  import opened Disk
  import opened Primitives
  import opened Formats
  import opened FramedAead
  import Pbkdf2
  import Legacy

  const PASSWORD_HEADER_LEN: nat := 64
  const PQE_HEADER_LEN: nat := 1124
  const ROUNDS: nat := 600_000
  const ARGON2_M: nat := 65536
  const ARGON2_T: nat := 3
  const ARGON2_P: nat := 4

  /** The credential a file is encrypted with (`EncKey` in src/bin/direnc.rs). */
  datatype EncKey = Password(password: Bytes) | PublicKey(ek: Bytes)

  /** The credentials available to a decryptor. */
  datatype Secret = Secret(password: Option<Bytes>, privateKey: Option<Bytes>)

  ghost predicate Matches(c: Crypto, key: EncKey, secret: Secret) {
    match key
    case Password(p) => secret.password == Some(p)
    case PublicKey(ek) => secret.privateKey.Some? && c.kemPublic(secret.privateKey.value) == ek
  }

  /** The format a key and a requested format lead to: a public key always means
      DBENC005, and a password cannot produce it. */
  function EffectiveFormat(key: EncKey, format: Format): Option<Format> {
    match key
    case PublicKey(_) => Some(DbEnc005)
    case Password(_) => if format == DbEnc005 then None else Some(format)
  }

  /** When encryption succeeds at all (files themselves never fail to open here). */
  predicate CanEncrypt(c: Crypto, key: EncKey, format: Format, salt: Bytes, kemCoins: Bytes) {
    match key
    case PublicKey(ek) => c.kemEncapsulate(ek, kemCoins).Some?
    case Password(p) =>
      && format != DbEnc005
      && (format == DbEnc004 ==> c.argon2id(p, salt, ARGON2_M, ARGON2_T, ARGON2_P).Some?)
  }

  // ── Headers ─────────────────────────────────────────────────────────────────

  function HeaderLen(f: Format): nat {
    match f
    case DbEnc001 => Legacy.HEADER_LEN
    case DbEnc005 => PQE_HEADER_LEN
    case _ => PASSWORD_HEADER_LEN
  }

  /** Where the ciphertext the encryptors report starts. */
  function BodyOffset(f: Format): nat {
    if f == DbEnc001 then Legacy.BODY_OFFSET else HeaderLen(f)
  }

  function AeadTag(f: Format): Byte {
    if f == DbEnc002 then 2 else 3
  }

  /** `build_aead_header`. */
  function AeadHeader(f: Format, salt: Bytes, prefix: Bytes): (h: Bytes)
    requires |salt| == 16 && |prefix| == PREFIX_LEN
    ensures |h| == PASSWORD_HEADER_LEN
  {
    Magic(f) + salt + prefix + Le(ROUNDS, 4) + Le(CHUNK_SIZE, 4) + [AeadTag(f)] + Zeros(7)
  }

  /** `build_argon2id_header`. */
  function Argon2Header(salt: Bytes, prefix: Bytes): (h: Bytes)
    requires |salt| == 16 && |prefix| == PREFIX_LEN
    ensures |h| == PASSWORD_HEADER_LEN
  {
    Magic(DbEnc004) + salt + prefix + Le(ARGON2_M, 4) + Le(ARGON2_T, 4) + Le(ARGON2_P, 4) + Le(CHUNK_SIZE, 4)
  }

  /** The header `encrypt_file_pqe` writes. */
  function PqeHeader(kemCt: Bytes, prefix: Bytes): (h: Bytes)
    requires |kemCt| == KEM_CT_LEN && |prefix| == PREFIX_LEN
    ensures |h| == PQE_HEADER_LEN
  {
    Magic(DbEnc005) + kemCt + prefix + Le(CHUNK_SIZE, 4)
  }

  /** `parse_aead_header`. */
  function ParseAead(c: Crypto, h: Bytes, password: Bytes): (r: Result<BodyKey>)
    requires |h| == PASSWORD_HEADER_LEN
    ensures r.Ok? ==> r.value.Valid()
  {
    if h[..8] != Magic(DbEnc002) && h[..8] != Magic(DbEnc003) then Err(Failed)
    else
      var f := if h[..8] == Magic(DbEnc002) then DbEnc002 else DbEnc003;
      var rounds := FromLe(h[48..52]);
      if rounds != ROUNDS || h[56] != AeadTag(f) then Err(Failed)
      else Ok(BodyKey(f, Pbkdf2.Derive(c, password, h[8..24], rounds, 32), h[24..48]))
  }

  /** `parse_argon2id_header_from_file`: the cost parameters are taken as found. */
  function ParseArgon2(c: Crypto, h: Bytes, password: Bytes): (r: Result<BodyKey>)
    requires |h| == PASSWORD_HEADER_LEN
    ensures r.Ok? ==> r.value.Valid()
  {
    if h[..8] != Magic(DbEnc004) then Err(Failed)
    else
      var key := c.argon2id(password, h[8..24], FromLe(h[48..52]), FromLe(h[52..56]), FromLe(h[56..60]));
      if key.None? then Err(Failed) else Ok(BodyKey(DbEnc004, key.value, h[24..48]))
  }

  function ParsePqe(c: Crypto, h: Bytes, dk: Bytes): (r: Result<BodyKey>)
    requires |h| == PQE_HEADER_LEN
    ensures r.Ok? ==> r.value.Valid()
  {
    if h[..8] != Magic(DbEnc005) then Err(Failed)
    else
      var key := c.kemDecapsulate(dk, h[8..8 + KEM_CT_LEN]);
      if key.None? then Err(Failed) else Ok(BodyKey(DbEnc005, key.value, h[1096..1120]))
  }

  /** The body key a header yields under the credential its format asks for. */
  function ParseHeader(c: Crypto, f: Format, h: Bytes, secret: Secret): (r: Result<BodyKey>)
    requires f != DbEnc001 && |h| == HeaderLen(f)
    ensures r.Ok? ==> r.value.Valid()
  {
    if f == DbEnc005 then
      if secret.privateKey.None? then Err(Failed) else ParsePqe(c, h, secret.privateKey.value)
    else if secret.password.None? then Err(Failed)
    else if f == DbEnc004 then ParseArgon2(c, h, secret.password.value)
    else ParseAead(c, h, secret.password.value)
  }

  lemma ParseInvertsAeadHeader(c: Crypto, f: Format, salt: Bytes, prefix: Bytes, password: Bytes)
    requires (f == DbEnc002 || f == DbEnc003) && |salt| == 16 && |prefix| == PREFIX_LEN
    ensures ParseAead(c, AeadHeader(f, salt, prefix), password)
         == Ok(BodyKey(f, Pbkdf2.Derive(c, password, salt, FromLe(Le(ROUNDS, 4)), 32), prefix))
    ensures FromLe(Le(ROUNDS, 4)) == ROUNDS
  {
    hide Le, FromLe, Pbkdf2.Derive;
    var h := AeadHeader(f, salt, prefix);
    assert h[..8] == Magic(f) && h[8..24] == salt && h[24..48] == prefix && h[48..52] == Le(ROUNDS, 4);
    assert h[56] == AeadTag(f);
    RoundsFit();
    if f == DbEnc003 && Magic(DbEnc003) == Magic(DbEnc002) {
      MagicIsInjective(DbEnc003, DbEnc002);
    }
  }

  /** A header is accepted exactly when it is the one written for the salt and prefix
      it carries, up to the chunk size and its reserved bytes. */
  lemma AcceptedAeadHeaderIff(c: Crypto, f: Format, h: Bytes, password: Bytes)
    requires (f == DbEnc002 || f == DbEnc003) && |h| == PASSWORD_HEADER_LEN
    ensures ParseAead(c, h, password).Ok? && ParseAead(c, h, password).value.format == f
            <==> h[..52] == AeadHeader(f, h[8..24], h[24..48])[..52] && h[56] == AeadTag(f)
  {
    hide Pbkdf2.Derive, Le, FromLe, Magic;
    var w := AeadHeader(f, h[8..24], h[24..48]);
    assert w[..52] == Magic(f) + h[8..24] + h[24..48] + Le(ROUNDS, 4);
    assert h[..52] == h[..8] + h[8..24] + h[24..48] + h[48..52];
    assert h[..52][..8] == h[..8] && w[..52][..8] == Magic(f);
    assert h[..52][48..] == h[48..52] && w[..52][48..] == Le(ROUNDS, 4);
    Legacy.RoundsField(h[48..52]);
    if Magic(DbEnc002) == Magic(DbEnc003) {
      MagicIsInjective(DbEnc002, DbEnc003);
    }
  }

  lemma RoundsFit()
    ensures FromLe(Le(ROUNDS, 4)) == ROUNDS
  {
    Pow256Values();
    LeRoundTrip(ROUNDS, 4);
  }

  lemma CostsFit()
    ensures FromLe(Le(ARGON2_M, 4)) == ARGON2_M && FromLe(Le(ARGON2_T, 4)) == ARGON2_T
    ensures FromLe(Le(ARGON2_P, 4)) == ARGON2_P
  {
    Pow256Values();
    LeRoundTrip(ARGON2_M, 4);
    LeRoundTrip(ARGON2_T, 4);
    LeRoundTrip(ARGON2_P, 4);
  }

  lemma ParseInvertsArgon2Header(c: Crypto, salt: Bytes, prefix: Bytes, password: Bytes)
    requires |salt| == 16 && |prefix| == PREFIX_LEN
    ensures var key := c.argon2id(password, salt, ARGON2_M, ARGON2_T, ARGON2_P);
            ParseArgon2(c, Argon2Header(salt, prefix), password)
            == if key.None? then Err(Failed) else Ok(BodyKey(DbEnc004, key.value, prefix))
  {
    hide Le, FromLe;
    var h := Argon2Header(salt, prefix);
    assert h[..8] == Magic(DbEnc004) && h[8..24] == salt && h[24..48] == prefix;
    assert h[48..52] == Le(ARGON2_M, 4) && h[52..56] == Le(ARGON2_T, 4) && h[56..60] == Le(ARGON2_P, 4);
    CostsFit();
  }

  lemma ParseInvertsPqeHeader(c: Crypto, kemCt: Bytes, prefix: Bytes, dk: Bytes)
    requires |kemCt| == KEM_CT_LEN && |prefix| == PREFIX_LEN
    ensures var key := c.kemDecapsulate(dk, kemCt);
            ParsePqe(c, PqeHeader(kemCt, prefix), dk)
            == if key.None? then Err(Failed) else Ok(BodyKey(DbEnc005, key.value, prefix))
  {
    var h := PqeHeader(kemCt, prefix);
    assert h[..8] == Magic(DbEnc005) && h[8..8 + KEM_CT_LEN] == kemCt && h[1096..1120] == prefix;
  }

  // ── Documented layouts ──────────────────────────────────────────────────────

  /** 600000, 1048576, 65536, 3 and 4, least significant byte first. */
  lemma FieldBytes()
    ensures Le(ROUNDS, 4) == [0xc0, 0x27, 0x09, 0x00] && Le(CHUNK_SIZE, 4) == [0x00, 0x00, 0x10, 0x00]
    ensures Le(ARGON2_M, 4) == [0x00, 0x00, 0x01, 0x00]
    ensures Le(ARGON2_T, 4) == [0x03, 0x00, 0x00, 0x00] && Le(ARGON2_P, 4) == [0x04, 0x00, 0x00, 0x00]
  {
    Legacy.RoundsBytes();
    assert Le(0, 0) == [] && Le(0, 1) == [0x00] && Le(0, 2) == [0x00, 0x00] && Le(0, 3) == [0x00, 0x00, 0x00];
    assert Le(0x10, 2) == [0x10, 0x00] && Le(0x1000, 3) == [0x00, 0x10, 0x00];
    assert Le(0x1, 2) == [0x01, 0x00] && Le(0x100, 3) == [0x00, 0x01, 0x00];
  }

  lemma AeadHeaderLayout(f: Format, salt: Bytes, prefix: Bytes)
    requires (f == DbEnc002 || f == DbEnc003) && |salt| == 16 && |prefix| == PREFIX_LEN
    ensures var h := AeadHeader(f, salt, prefix);
            && h[..8] == [0x44, 0x42, 0x45, 0x4e, 0x43, 0x30, 0x30, if f == DbEnc002 then 0x32 else 0x33]
            && h[8..24] == salt && h[24..48] == prefix
            && h[48..56] == [0xc0, 0x27, 0x09, 0x00, 0x00, 0x00, 0x10, 0x00]
            && h[56] == (if f == DbEnc002 then 2 else 3) && h[57..64] == [0, 0, 0, 0, 0, 0, 0]
  {
    hide Le, Magic;
    FieldBytes();
    MagicSpells(f);
    var h := AeadHeader(f, salt, prefix);
    assert h[..8] == Magic(f) && h[8..24] == salt && h[24..48] == prefix;
  }

  lemma Argon2HeaderLayout(salt: Bytes, prefix: Bytes)
    requires |salt| == 16 && |prefix| == PREFIX_LEN
    ensures var h := Argon2Header(salt, prefix);
            && h[..8] == [0x44, 0x42, 0x45, 0x4e, 0x43, 0x30, 0x30, 0x34]
            && h[8..24] == salt && h[24..48] == prefix
            && h[48..56] == [0x00, 0x00, 0x01, 0x00, 0x03, 0x00, 0x00, 0x00]
            && h[56..64] == [0x04, 0x00, 0x00, 0x00, 0x00, 0x00, 0x10, 0x00]
  {
    hide Le, Magic;
    FieldBytes();
    MagicSpells(DbEnc004);
    var h := Argon2Header(salt, prefix);
    assert h[..8] == Magic(DbEnc004) && h[8..24] == salt && h[24..48] == prefix;
  }

  lemma PqeHeaderLayout(kemCt: Bytes, prefix: Bytes)
    requires |kemCt| == KEM_CT_LEN && |prefix| == PREFIX_LEN
    ensures var h := PqeHeader(kemCt, prefix);
            && h[..8] == [0x44, 0x42, 0x45, 0x4e, 0x43, 0x30, 0x30, 0x35]
            && h[8..1096] == kemCt && h[1096..1120] == prefix && h[1120..1124] == [0x00, 0x00, 0x10, 0x00]
  {
    hide Le, Magic;
    FieldBytes();
    MagicSpells(DbEnc005);
    var h := PqeHeader(kemCt, prefix);
    assert h[..8] == Magic(DbEnc005) && h[8..1096] == kemCt && h[1096..1120] == prefix;
  }

  /** Whatever costs a DBENC004 header stores are the costs its key is derived with. */
  lemma StoredCostsAreUsed(c: Crypto, h: Bytes, m: nat, t: nat, lanes: nat, password: Bytes)
    requires |h| == PASSWORD_HEADER_LEN && h[..8] == Magic(DbEnc004) && m < TWO32 && t < TWO32 && lanes < TWO32
    requires h[48..52] == Le(m, 4) && h[52..56] == Le(t, 4) && h[56..60] == Le(lanes, 4)
    ensures var key := c.argon2id(password, h[8..24], m, t, lanes);
            ParseArgon2(c, h, password) ==
              if key.None? then Err(Failed) else Ok(BodyKey(DbEnc004, key.value, h[24..48]))
  {
    hide Le, FromLe;
    Pow256Values();
    LeRoundTrip(m, 4);
    LeRoundTrip(t, 4);
    LeRoundTrip(lanes, 4);
  }

  // ── What a format depends on ────────────────────────────────────────────────

  /** Two libraries agree on the primitives a format is made of. */
  ghost predicate SamePrimitives(c: Crypto, d: Crypto, f: Format) {
    match f
    case DbEnc001 => c.hmac == d.hmac && c.blockDecrypt == d.blockDecrypt
    case DbEnc002 => c.hmac == d.hmac && c.gcm == d.gcm
    case DbEnc003 => c.hmac == d.hmac && c.xchacha == d.xchacha
    case DbEnc004 => c.argon2id == d.argon2id && c.xchacha == d.xchacha
    case DbEnc005 => c.kemDecapsulate == d.kemDecapsulate && c.xchacha == d.xchacha
  }

  /** Files of a format mean the same under both: an encryption opens although every
      other primitive was replaced. */
  lemma OnlyItsPrimitivesMatter(c: Crypto, d: Crypto, f: Format, bytes: Bytes, secret: Secret)
    requires Detect(bytes) == Some(f) && SamePrimitives(c, d, f)
    ensures DecodeFile(c, bytes, secret) == DecodeFile(d, bytes, secret)
  {
    hide Detect, Legacy.Decode, Lawful;
    if f == DbEnc001 {
      if secret.password.Some? {
        Legacy.OnlyMacAndCipherMatter(c, d, bytes, secret.password.value);
      }
    } else {
      SameFramedMeaning(c, d, f, bytes, secret);
    }
  }

  lemma SameFramedMeaning(c: Crypto, d: Crypto, f: Format, bytes: Bytes, secret: Secret)
    requires f != DbEnc001 && Detect(bytes) == Some(f) && SamePrimitives(c, d, f)
    ensures DecodeFramed(c, f, bytes, secret) == DecodeFramed(d, f, bytes, secret)
  {
    hide Detect, Lawful, FramedAead.Decode, Flatten, ParseHeader;
    if |bytes| >= HeaderLen(f) {
      var h := bytes[..HeaderLen(f)];
      DetectIffMagic(bytes, f);
      assert h[..8] == Magic(f);
      SameKey(c, d, f, h, secret);
      var key := ParseHeader(c, f, h, secret);
      if key.Ok? {
        OnlyItsCipherReads(c, d, key.value, 0, bytes[HeaderLen(f)..]);
      }
    }
  }

  lemma SameKey(c: Crypto, d: Crypto, f: Format, h: Bytes, secret: Secret)
    requires f != DbEnc001 && |h| == HeaderLen(f) && h[..8] == Magic(f) && SamePrimitives(c, d, f)
    ensures ParseHeader(c, f, h, secret) == ParseHeader(d, f, h, secret)
    ensures ParseHeader(c, f, h, secret).Ok? ==> ParseHeader(c, f, h, secret).value.format == f
  {
    hide Magic, Pbkdf2.Derive, Lawful;
    if (f == DbEnc002 || f == DbEnc003) && secret.password.Some? {
      Pbkdf2.OnlyKeyedPrfMatters(c, d, secret.password.value, h[8..24], ROUNDS, 32);
      if Magic(DbEnc002) == Magic(DbEnc003) {
        MagicIsInjective(DbEnc002, DbEnc003);
      }
    }
  }

  // ── Whole files ─────────────────────────────────────────────────────────────

  /** What decrypting a file with the given credentials yields. */
  function DecodeFile(c: Crypto, bytes: Bytes, secret: Secret): Result<Bytes> {
    match Detect(bytes)
    case None => Err(Failed)
    case Some(DbEnc001) =>
      if secret.password.None? then Err(Failed) else Legacy.Decode(c, bytes, secret.password.value)
    case Some(f) => DecodeFramed(c, f, bytes, secret)
  }

  function DecodeFramed(c: Crypto, f: Format, bytes: Bytes, secret: Secret): Result<Bytes>
    requires f != DbEnc001
  {
    if |bytes| < HeaderLen(f) then Err(Failed)
    else
      var key := ParseHeader(c, f, bytes[..HeaderLen(f)], secret);
      if key.Err? then Err(Failed)
      else
        var chunks := FramedAead.Decode(c, key.value, 0, bytes[HeaderLen(f)..]);
        if chunks.Err? then Err(Failed) else Ok(Flatten(chunks.value))
  }

  /** The number of frames of an accepted framed file. */
  function FrameCountOf(c: Crypto, f: Format, bytes: Bytes, secret: Secret): nat
    requires f != DbEnc001 && DecodeFramed(c, f, bytes, secret).Ok?
  {
    var key := ParseHeader(c, f, bytes[..HeaderLen(f)], secret);
    |FramedAead.Decode(c, key.value, 0, bytes[HeaderLen(f)..]).value|
  }

  /** The ciphertext bytes a decryptor reports for an accepted file. */
  function CipherBytes(c: Crypto, bytes: Bytes, secret: Secret): nat
    requires DecodeFile(c, bytes, secret).Ok?
  {
    var f, plain := Detect(bytes).value, DecodeFile(c, bytes, secret).value;
    if f == DbEnc001 then |bytes| - Legacy.BODY_OFFSET
    else |plain| + OVERHEAD * FrameCountOf(c, f, bytes, secret)
  }

  /** How far decrypting a framed file gets into its body. */
  function FramedTrail(c: Crypto, f: Format, bytes: Bytes, secret: Secret): (t: Trail)
    requires f != DbEnc001
    ensures |bytes| < HeaderLen(f) ==> t == Trail(0, 0)
    ensures |bytes| >= HeaderLen(f) ==> t.unsealed + t.unread <= |bytes| - HeaderLen(f)
  {
    if |bytes| < HeaderLen(f) then Trail(0, 0)
    else
      var key := ParseHeader(c, f, bytes[..HeaderLen(f)], secret);
      if key.Err? then Trail(0, |bytes| - HeaderLen(f)) else TrailOf(c, key.value, 0, bytes[HeaderLen(f)..])
  }

  function FramedProgress(c: Crypto, f: Format, bytes: Bytes, secret: Secret): nat
    requires f != DbEnc001
  {
    var t := FramedTrail(c, f, bytes, secret);
    if |bytes| < HeaderLen(f) then 0 else |bytes| - HeaderLen(f) - t.unread + t.unsealed
  }

  /** The progress of decrypting a file to its end, successfully or not. */
  function DecryptProgress(c: Crypto, bytes: Bytes, secret: Secret): nat {
    match Detect(bytes)
    case None => 0
    case Some(DbEnc001) =>
      if secret.password.None? then 0 else Legacy.DecryptProgress(c, bytes, secret.password.value)
    case Some(f) => FramedProgress(c, f, bytes, secret)
  }

  /** `header` parses to a key of format `f` under `secret`. */
  ghost predicate Unlocks(c: Crypto, f: Format, header: Bytes, secret: Secret, k: BodyKey) {
    && f != DbEnc001 && |header| == HeaderLen(f) && Magic(f) <= header
    && ParseHeader(c, f, header, secret) == Ok(k) && k.format == f
  }

  /** A framed file: a header that parses, then the frames of some chunking. */
  ghost predicate IsFramed(c: Crypto, f: Format, secret: Secret, plain: Bytes, bytes: Bytes,
                           header: Bytes, k: BodyKey, chunks: seq<Bytes>)
  {
    && Unlocks(c, f, header, secret, k) && k.Valid()
    && IsChunking(chunks, plain)
    && bytes == header + FramedAead.Encode(c, k, 0, chunks)
  }

  /** `bytes` is an encryption of `plain` that `secret` opens. Which one depends on
      the random salt and nonce and, for the framed formats, on how reads split. */
  ghost predicate EncodedBy(c: Crypto, f: Format, secret: Secret, plain: Bytes, bytes: Bytes) {
    if f == DbEnc001 then
      secret.password.Some? && exists h ::
        Legacy.IsHeaderFor(c, h, secret.password.value) && bytes == Legacy.Encode(c, h, plain)
    else
      exists header, k, chunks :: IsFramed(c, f, secret, plain, bytes, header, k, chunks)
  }

  /** Every encryption is recognised and decrypts to the plaintext. */
  lemma DecodeInvertsEncryption(c: Crypto, f: Format, secret: Secret, plain: Bytes, bytes: Bytes)
    requires EncodedBy(c, f, secret, plain, bytes)
    ensures Detect(bytes) == Some(f)
    ensures DecodeFile(c, bytes, secret) == Ok(plain)
  {
    if f == DbEnc001 {
      var h :| Legacy.IsHeaderFor(c, h, secret.password.value) && bytes == Legacy.Encode(c, h, plain);
      Legacy.DecodeInvertsEncode(c, h, plain, secret.password.value);
    } else {
      var header, k, chunks :| IsFramed(c, f, secret, plain, bytes, header, k, chunks);
      var body := FramedAead.Encode(c, k, 0, chunks);
      assert bytes[..HeaderLen(f)] == header && bytes[HeaderLen(f)..] == body;
      DetectIffMagic(bytes, f);
      assert body + [] == body;
      FramedAead.DecodeInvertsEncode(c, k, 0, chunks, []);
    }
  }

  /** Unique decoding of framed files: whatever is accepted is the header it carries,
      the frames of the returned chunks counted from zero, and fewer than four bytes. */
  lemma AcceptedFramedFile(c: Crypto, f: Format, bytes: Bytes, secret: Secret)
    returns (k: BodyKey, chunks: seq<Bytes>, leftover: Bytes)
    requires f != DbEnc001 && DecodeFramed(c, f, bytes, secret).Ok?
    ensures k.Valid() && ParseHeader(c, f, bytes[..HeaderLen(f)], secret) == Ok(k)
    ensures Flatten(chunks) == DecodeFramed(c, f, bytes, secret).value
    ensures bytes == bytes[..HeaderLen(f)] + FramedAead.Encode(c, k, 0, chunks) + leftover && |leftover| < 4
    ensures |chunks| == FrameCountOf(c, f, bytes, secret)
    ensures |bytes| == HeaderLen(f) + |Flatten(chunks)| + OVERHEAD * |chunks| + |leftover|
  {
    hide FramedAead.Decode, FramedAead.Encode, Flatten, ParseHeader, Lawful;
    k := ParseHeader(c, f, bytes[..HeaderLen(f)], secret).value;
    var body := bytes[HeaderLen(f)..];
    chunks := FramedAead.Decode(c, k, 0, body).value;
    FramedAead.EncodeInvertsDecode(c, k, 0, body);
    EncodedLength(c, k, 0, chunks);
    leftover := body[|FramedAead.Encode(c, k, 0, chunks)|..];
    assert body == FramedAead.Encode(c, k, 0, chunks) + leftover;
    assert bytes == bytes[..HeaderLen(f)] + body;
    ConcatAssociates(bytes[..HeaderLen(f)], FramedAead.Encode(c, k, 0, chunks), leftover);
  }

  /** On an accepted file the progress is ciphertext plus plaintext. */
  lemma AcceptedProgress(c: Crypto, bytes: Bytes, secret: Secret)
    requires DecodeFile(c, bytes, secret).Ok?
    ensures DecryptProgress(c, bytes, secret) == CipherBytes(c, bytes, secret) + |DecodeFile(c, bytes, secret).value|
  {
    hide FramedAead.Decode, Flatten, ParseHeader, TrailOf, Lawful, Legacy.Mac, Legacy.CbcDecode, Legacy.ParseHeader,
         Pbkdf2.Derive;
    var f := Detect(bytes).value;
    if f == DbEnc001 {
      Legacy.AcceptedProgress(c, bytes, secret.password.value);
    } else {
      AcceptedFramedTrail(c, f, bytes, secret);
    }
  }

  /** A plaintext is always shorter than the file it came from. */
  lemma PlaintextIsShorter(c: Crypto, bytes: Bytes, secret: Secret)
    requires DecodeFile(c, bytes, secret).Ok?
    ensures |DecodeFile(c, bytes, secret).value| < |bytes|
  {
    hide FramedAead.Decode, FramedAead.Encode, FramedAead.Flatten, Legacy.Decode, ParseHeader;
    var f := Detect(bytes).value;
    if f == DbEnc001 {
      Legacy.PlaintextIsShorter(c, bytes, secret.password.value);
    } else {
      var k, chunks, leftover := AcceptedFramedFile(c, f, bytes, secret);
    }
  }

  lemma CipherBytesBound(c: Crypto, bytes: Bytes, secret: Secret)
    requires DecodeFile(c, bytes, secret).Ok?
    ensures CipherBytes(c, bytes, secret) <= |bytes|
  {
    hide FramedAead.Decode, Flatten, ParseHeader, TrailOf, Lawful, Legacy.Mac, Legacy.CbcDecode, Legacy.ParseHeader;
    var f := Detect(bytes).value;
    if f != DbEnc001 {
      AcceptedFramedTrail(c, f, bytes, secret);
    }
  }

  lemma ProgressBound(c: Crypto, bytes: Bytes, secret: Secret)
    ensures DecryptProgress(c, bytes, secret) <= 2 * |bytes|
  {
    hide FramedTrail, Legacy.DecryptProgress, Detect;
    if secret.password.Some? {
      Legacy.ProgressBound(c, bytes, secret.password.value);
    }
  }

  /** An accepted framed file is opened throughout, but for fewer than four bytes. */
  lemma AcceptedFramedTrail(c: Crypto, f: Format, bytes: Bytes, secret: Secret)
    requires f != DbEnc001 && DecodeFramed(c, f, bytes, secret).Ok?
    ensures var t := FramedTrail(c, f, bytes, secret);
            && t.unsealed == |DecodeFramed(c, f, bytes, secret).value| && t.unread < 4
            && |bytes| == HeaderLen(f) + t.unsealed + OVERHEAD * FrameCountOf(c, f, bytes, secret) + t.unread
  {
    hide FramedAead.Decode, Flatten, ParseHeader, TrailOf, Lawful, FramedAead.Encode;
    var k, chunks, leftover := AcceptedFramedFile(c, f, bytes, secret);
    AcceptedTrail(c, k, 0, bytes[HeaderLen(f)..]);
  }

  // ── The code ────────────────────────────────────────────────────────────────

  /** `detect_format`: a single read decides, so the format is found exactly if that
      read returns the whole magic. */
  method DetectFormat(file: DiskFile, mayFallShort: bool) returns (r: Option<Format>, ghost read: nat)
    ensures read <= Min(MAGIC_LEN, |file.bytes|) && (read == 0 ==> file.bytes == [])
    ensures r == if read == MAGIC_LEN then Detect(file.bytes) else None
    ensures r == Detect(file.bytes) || (mayFallShort && r == None)
  {
    hide Detect;
    var handle := new Handle.Open(file);
    assert handle.Rest() == file.bytes;
    var magic := handle.ReadOnce(MAGIC_LEN, mayFallShort);
    read := |magic|;
    ShortFilesHaveNoMagic(file.bytes);
    if |magic| < MAGIC_LEN {
      return None, read;
    }
    assert magic == file.bytes[..MAGIC_LEN];
    DetectReadsMagic(file.bytes);
    return Detect(magic), read;
  }

  lemma ShortFilesHaveNoMagic(bytes: Bytes)
    ensures |bytes| < MAGIC_LEN ==> Detect(bytes) == None
  {
  }

  lemma DetectReadsMagic(bytes: Bytes)
    requires |bytes| >= MAGIC_LEN
    ensures Detect(bytes[..MAGIC_LEN]) == Detect(bytes)
  {
    assert bytes[..MAGIC_LEN][..MAGIC_LEN] == bytes[..MAGIC_LEN];
  }

  /** Header, then the encryption loop: the tail shared by the framed formats. */
  method EncryptFramed(c: Crypto, source: DiskFile, destination: DiskFile, header: Bytes, k: BodyKey)
    returns (total: nat, ghost chunks: seq<Bytes>)
    requires k.Valid() && source != destination
    modifies destination
    ensures IsChunking(chunks, source.bytes)
    ensures destination.bytes == header + FramedAead.Encode(c, k, 0, chunks)
    ensures total == |source.bytes| + OVERHEAD * |chunks|
  {
    destination.bytes := [];
    var input := new Handle.Open(source);
    var output := new Handle.Open(destination);
    output.WriteAll(header);
    assert input.Rest() == source.bytes && destination.bytes == header;
    total, chunks := EncryptBody(c, k, input, output);
    EncodedLength(c, k, 0, chunks);
  }

  /** `derive` for DBENC002 and DBENC003, through the PBKDF2 loop. */
  method DeriveKey(c: Crypto, password: Bytes, salt: Bytes, rounds: nat) returns (key: Bytes)
    requires rounds >= 1
    ensures key == Pbkdf2.Derive(c, password, salt, rounds, 32)
  {
    var buffer := new Byte[32];
    Pbkdf2.Pbkdf2HmacSha256(c, password, salt, rounds, buffer);
    return buffer[..];
  }

  /** `encrypt_file_to_path` and `encrypt_file_pqe`, chosen as direnc chooses them.
      The random inputs are parameters; how reads split is left open. */
  method EncryptFile(c: Crypto, source: DiskFile, destination: DiskFile, key: EncKey, format: Format,
                     salt: Bytes, prefix: Bytes, kemCoins: Bytes)
    returns (r: Result<nat>)
    requires source != destination && |salt| == 16 && |prefix| == PREFIX_LEN
    modifies destination
    ensures r.Ok? <==> CanEncrypt(c, key, format, salt, kemCoins)
    ensures r.Ok? ==> EffectiveFormat(key, format).Some?
    ensures r.Ok? ==> forall secret :: Matches(c, key, secret) ==>
              EncodedBy(c, EffectiveFormat(key, format).value, secret, source.bytes, destination.bytes)
    ensures r.Ok? ==> |destination.bytes| == r.value + BodyOffset(EffectiveFormat(key, format).value)
  {
    match key {
      case PublicKey(ek) =>
        r := EncryptPqe(c, source, destination, ek, prefix, kemCoins);
      case Password(password) =>
        match format {
          case DbEnc005 => return Err(Failed);
          case DbEnc001 =>
            var h;
            r, h := Legacy.EncryptFile(c, source, destination, password, salt, prefix[..16]);
            Legacy.DecodeInvertsEncode(c, h, source.bytes, password);
          case DbEnc004 => r := EncryptArgon2(c, source, destination, password, salt, prefix);
          case _ => r := EncryptAead(c, source, destination, password, format, salt, prefix);
        }
    }
  }

  /** The slice copies of `build_aead_header`. */
  method BuildAeadHeader(f: Format, salt: Bytes, prefix: Bytes) returns (header: Bytes)
    requires |salt| == 16 && |prefix| == PREFIX_LEN
    ensures header == AeadHeader(f, salt, prefix)
  {
    hide Le, Magic;
    var buf := new Byte[PASSWORD_HEADER_LEN](_ => 0);
    assert buf[..0] == [];
    CopyInto(buf, 0, Magic(f));
    CopyInto(buf, 8, salt);
    CopyInto(buf, 24, prefix);
    CopyInto(buf, 48, Le(ROUNDS, 4));
    CopyInto(buf, 52, Le(CHUNK_SIZE, 4));
    CopyInto(buf, 56, [AeadTag(f)]);
    assert buf[57..] == Zeros(7);
    header := buf[..];
    assert header == buf[..57] + buf[57..];
  }

  /** The slice copies of `build_argon2id_header`. */
  method BuildArgon2Header(salt: Bytes, prefix: Bytes) returns (header: Bytes)
    requires |salt| == 16 && |prefix| == PREFIX_LEN
    ensures header == Argon2Header(salt, prefix)
  {
    hide Le, Magic;
    var buf := new Byte[PASSWORD_HEADER_LEN](_ => 0);
    assert buf[..0] == [];
    CopyInto(buf, 0, Magic(DbEnc004));
    CopyInto(buf, 8, salt);
    CopyInto(buf, 24, prefix);
    CopyInto(buf, 48, Le(ARGON2_M, 4));
    CopyInto(buf, 52, Le(ARGON2_T, 4));
    CopyInto(buf, 56, Le(ARGON2_P, 4));
    CopyInto(buf, 60, Le(CHUNK_SIZE, 4));
    header := buf[..];
    assert header == buf[..64];
  }

  /** The slice copies of `encrypt_file_pqe`. */
  method BuildPqeHeader(kemCt: Bytes, prefix: Bytes) returns (header: Bytes)
    requires |kemCt| == KEM_CT_LEN && |prefix| == PREFIX_LEN
    ensures header == PqeHeader(kemCt, prefix)
  {
    hide Le, Magic;
    var buf := new Byte[PQE_HEADER_LEN](_ => 0);
    assert buf[..0] == [];
    CopyInto(buf, 0, Magic(DbEnc005));
    CopyInto(buf, 8, kemCt);
    CopyInto(buf, 8 + KEM_CT_LEN, prefix);
    CopyInto(buf, 8 + KEM_CT_LEN + PREFIX_LEN, Le(CHUNK_SIZE, 4));
    header := buf[..];
    assert header == buf[..PQE_HEADER_LEN];
  }

  method EncryptAead(c: Crypto, source: DiskFile, destination: DiskFile, password: Bytes, format: Format,
                     salt: Bytes, prefix: Bytes)
    returns (r: Result<nat>)
    requires source != destination && |salt| == 16 && |prefix| == PREFIX_LEN
    requires format == DbEnc002 || format == DbEnc003
    modifies destination
    ensures r.Ok? && |destination.bytes| == r.value + PASSWORD_HEADER_LEN
    ensures AeadHeader(format, salt, prefix) <= destination.bytes
    ensures forall secret :: Matches(c, Password(password), secret) ==>
              EncodedBy(c, format, secret, source.bytes, destination.bytes)
  {
    hide Le, FromLe, Pbkdf2.Derive, AeadHeader, ParseAead, IsChunking;
    ParseInvertsAeadHeader(c, format, salt, prefix, password);
    var keyBytes := DeriveKey(c, password, salt, FromLe(Le(ROUNDS, 4)));
    var k := BodyKey(format, keyBytes, prefix);
    var header := BuildAeadHeader(format, salt, prefix);
    HeaderStartsWithMagic(format, salt, prefix);
    var total;
    ghost var chunks;
    total, chunks := EncryptFramed(c, source, destination, header, k);
    EncodedLength(c, k, 0, chunks);
    forall secret | Matches(c, Password(password), secret)
      ensures EncodedBy(c, format, secret, source.bytes, destination.bytes)
    {
      assert IsFramed(c, format, secret, source.bytes, destination.bytes, header, k, chunks);
    }
    FlattenOf(chunks, source.bytes);
    r := Ok(total);
  }

  lemma FlattenOf(chunks: seq<Bytes>, plain: Bytes)
    requires IsChunking(chunks, plain)
    ensures Flatten(chunks) == plain
  {
  }

  lemma HeaderStartsWithMagic(f: Format, salt: Bytes, prefix: Bytes)
    requires |salt| == 16 && |prefix| == PREFIX_LEN
    ensures Magic(f) <= AeadHeader(f, salt, prefix) && Magic(DbEnc004) <= Argon2Header(salt, prefix)
  {
  }

  method EncryptArgon2(c: Crypto, source: DiskFile, destination: DiskFile, password: Bytes, salt: Bytes, prefix: Bytes)
    returns (r: Result<nat>)
    requires source != destination && |salt| == 16 && |prefix| == PREFIX_LEN
    modifies destination
    ensures r.Ok? <==> c.argon2id(password, salt, ARGON2_M, ARGON2_T, ARGON2_P).Some?
    ensures r.Ok? ==> |destination.bytes| == r.value + PASSWORD_HEADER_LEN
    ensures r.Ok? ==> Argon2Header(salt, prefix) <= destination.bytes
    ensures r.Ok? ==> forall secret :: Matches(c, Password(password), secret) ==>
              EncodedBy(c, DbEnc004, secret, source.bytes, destination.bytes)
  {
    hide Argon2Header, ParseArgon2, IsChunking;
    var keyBytes := c.argon2id(password, salt, ARGON2_M, ARGON2_T, ARGON2_P);
    if keyBytes.None? {
      return Err(Failed);
    }
    ParseInvertsArgon2Header(c, salt, prefix, password);
    var k := BodyKey(DbEnc004, keyBytes.value, prefix);
    var header := BuildArgon2Header(salt, prefix);
    HeaderStartsWithMagic(DbEnc004, salt, prefix);
    var total;
    ghost var chunks;
    total, chunks := EncryptFramed(c, source, destination, header, k);
    EncodedLength(c, k, 0, chunks);
    forall secret | Matches(c, Password(password), secret)
      ensures EncodedBy(c, DbEnc004, secret, source.bytes, destination.bytes)
    {
      assert IsFramed(c, DbEnc004, secret, source.bytes, destination.bytes, header, k, chunks);
    }
    FlattenOf(chunks, source.bytes);
    r := Ok(total);
  }

  method EncryptPqe(c: Crypto, source: DiskFile, destination: DiskFile, ek: Bytes, prefix: Bytes, kemCoins: Bytes)
    returns (r: Result<nat>)
    requires source != destination && |prefix| == PREFIX_LEN
    modifies destination
    ensures r.Ok? <==> c.kemEncapsulate(ek, kemCoins).Some?
    ensures r.Ok? ==> |destination.bytes| == r.value + PQE_HEADER_LEN
    ensures r.Ok? ==> PqeHeader(c.kemEncapsulate(ek, kemCoins).value.0, prefix) <= destination.bytes
    ensures r.Ok? ==> forall secret :: Matches(c, PublicKey(ek), secret) ==>
              EncodedBy(c, DbEnc005, secret, source.bytes, destination.bytes)
  {
    hide IsChunking, ParsePqe;
    var encapsulated := c.kemEncapsulate(ek, kemCoins);
    if encapsulated.None? {
      return Err(Failed);
    }
    var (kemCt, shared) := encapsulated.value;
    var k := BodyKey(DbEnc005, shared, prefix);
    var header := BuildPqeHeader(kemCt, prefix);
    var total;
    ghost var chunks;
    total, chunks := EncryptFramed(c, source, destination, header, k);
    EncodedLength(c, k, 0, chunks);
    forall secret | Matches(c, PublicKey(ek), secret)
      ensures EncodedBy(c, DbEnc005, secret, source.bytes, destination.bytes)
    {
      ParseInvertsPqeHeader(c, kemCt, prefix, secret.privateKey.value);
      assert IsFramed(c, DbEnc005, secret, source.bytes, destination.bytes, header, k, chunks);
    }
    FlattenOf(chunks, source.bytes);
    r := Ok(total);
  }

  /** Reads and parses the header of a framed file. */
  method ReadHeader(c: Crypto, f: Format, reader: Handle, secret: Secret) returns (r: Result<BodyKey>)
    requires f != DbEnc001
    modifies reader
    ensures |old(reader.Rest())| < HeaderLen(f) ==> r == Err(Failed)
    ensures |old(reader.Rest())| >= HeaderLen(f) ==>
              var p := ParseHeader(c, f, old(reader.Rest())[..HeaderLen(f)], secret);
              r == if p.Ok? then p else Err(Failed)
    ensures r.Ok? ==> reader.Rest() == old(reader.Rest())[HeaderLen(f)..]
  {
    var header := reader.ReadExact(HeaderLen(f));
    if header.None? {
      return Err(Failed);
    }
    r := ParseHeader(c, f, header.value, secret);
    if r.Err? {
      return Err(Failed);
    }
  }

  /** `decrypt_aead_file_to_temp`, `decrypt_argon2id_file_to_temp` and
      `decrypt_file_pqe_to_temp_with_cancel`. */
  method DecryptFramedToTemp(c: Crypto, f: Format, file: DiskFile, secret: Secret, mayAbort: bool)
    returns (r: Result<DecryptedTemp>, progress: nat)
    requires f != DbEnc001
    ensures r == Err(Aborted) ==> mayAbort
    ensures r.Err? && r != Err(Aborted) ==> DecodeFramed(c, f, file.bytes, secret) == Err(Failed)
    ensures r.Ok? ==> DecodeFramed(c, f, file.bytes, secret) == Ok(r.value.contents)
    ensures r.Ok? ==> r.value.sha256 == c.sha256(r.value.contents) && r.value.plaintextBytes == |r.value.contents|
    ensures r.Ok? ==> progress == r.value.cipherBytes + r.value.plaintextBytes
    ensures r.Ok? ==> r.value.plaintextBytes <= r.value.cipherBytes <= |file.bytes| - HeaderLen(f)
    ensures r.Ok? ==> r.value.cipherBytes == r.value.plaintextBytes + OVERHEAD * FrameCountOf(c, f, file.bytes, secret)
    ensures r != Err(Aborted) ==> progress == FramedProgress(c, f, file.bytes, secret)
    ensures progress <= 2 * |file.bytes|
  {
    hide FramedAead.Decode, Flatten, ParseHeader, TrailOf;
    var reader := new Handle.Open(file);
    assert reader.Rest() == file.bytes;
    var key := ReadHeader(c, f, reader, secret);
    if key.Err? {
      return Err(Failed), 0;
    }
    r, progress := DecryptBody(c, key.value, reader, mayAbort);
  }

  /** `decrypt_file_to_temp_with_cancel`: a password-protected file, by the format its
      detection read finds. If that read falls short the call fails and does nothing. */
  method DecryptToTemp(c: Crypto, file: DiskFile, password: Bytes, mayAbort: bool, mayFallShort: bool)
    returns (r: Result<DecryptedTemp>, progress: nat)
    ensures r == Err(Aborted) ==> mayAbort
    ensures var secret := Secret(Some(password), None);
            && (r.Ok? ==>
                  && DecodeFile(c, file.bytes, secret) == Ok(r.value.contents)
                  && r.value.sha256 == c.sha256(r.value.contents) && r.value.plaintextBytes == |r.value.contents|
                  && r.value.cipherBytes == CipherBytes(c, file.bytes, secret)
                  && r.value.plaintextBytes <= r.value.cipherBytes <= |file.bytes|
                  && progress == r.value.cipherBytes + r.value.plaintextBytes)
            && (r.Err? && r != Err(Aborted) ==>
                  DecodeFile(c, file.bytes, secret).Err? || (mayFallShort && progress == 0))
            && (r != Err(Aborted) ==>
                  progress == DecryptProgress(c, file.bytes, secret) || (mayFallShort && r.Err? && progress == 0))
    ensures progress <= 2 * |file.bytes|
  {
    var f, _ := DetectFormat(file, mayFallShort);
    if f == None || f == Some(DbEnc005) {
      PasswordsOpenNoPqe(c, file.bytes, password);
      return Err(Failed), 0;
    } else if f == Some(DbEnc001) {
      Legacy.PlaintextIsShorter(c, file.bytes, password);
      r, progress := Legacy.DecryptFileToTemp(c, file, password, mayAbort);
    } else {
      r, progress := DecryptFramedToTemp(c, f.value, file, Secret(Some(password), None), mayAbort);
    }
  }

  /** A password opens no DBENC005 file, and the attempt reads no body. */
  lemma PasswordsOpenNoPqe(c: Crypto, bytes: Bytes, password: Bytes)
    ensures var secret := Secret(Some(password), None);
            Detect(bytes) == None || Detect(bytes) == Some(DbEnc005) ==>
              DecodeFile(c, bytes, secret).Err? && DecryptProgress(c, bytes, secret) == 0
  {
    hide Detect;
  }

  /** `decrypt_file`: into memory, with a password only. DBENC001 takes the
      in-memory decoder, the framed password formats go through a temporary file,
      and DBENC005 is refused. */
  method DecryptFile(c: Crypto, file: DiskFile, password: Bytes, mayFallShort: bool)
    returns (r: Result<Bytes>, cipherBytes: nat)
    ensures var d := DecodeFile(c, file.bytes, Secret(Some(password), None));
            r == (if d.Ok? then d else Err(Failed)) || (mayFallShort && r == Err(Failed))
    ensures r.Ok? ==> cipherBytes == CipherBytes(c, file.bytes, Secret(Some(password), None)) <= |file.bytes|
  {
    cipherBytes := 0;
    var f, _ := DetectFormat(file, mayFallShort);
    if f == Some(DbEnc001) {
      r := Legacy.DecryptBytes(c, file.bytes, password);
      if r.Ok? {
        Legacy.PlaintextIsShorter(c, file.bytes, password);
        return r, |file.bytes| - Legacy.BODY_OFFSET;
      }
      return Err(Failed), 0;
    } else if f == None || f == Some(DbEnc005) {
      return Err(Failed), 0;
    }
    var temp, _ := DecryptToTemp(c, file, password, false, mayFallShort);
    if temp.Err? {
      return Err(Failed), 0;
    }
    return Ok(temp.value.contents), temp.value.cipherBytes;
  }

  /** Any file with the credential its format needs, as its callers choose: DBENC005
      with the private key, whose decryptor does not detect again, the others with the
      password. */
  method DecryptWithSecret(c: Crypto, f: Format, file: DiskFile, secret: Secret, mayAbort: bool, mayFallShort: bool)
    returns (r: Result<DecryptedTemp>, progress: nat)
    requires Detect(file.bytes) == Some(f)
    requires if f == DbEnc005 then secret.privateKey.Some? else secret.password.Some?
    ensures r == Err(Aborted) ==> mayAbort
    ensures r.Ok? ==>
              && DecodeFile(c, file.bytes, secret) == Ok(r.value.contents)
              && r.value.sha256 == c.sha256(r.value.contents) && r.value.plaintextBytes == |r.value.contents|
              && r.value.cipherBytes == CipherBytes(c, file.bytes, secret)
              && r.value.plaintextBytes <= r.value.cipherBytes <= |file.bytes|
              && progress == r.value.cipherBytes + r.value.plaintextBytes
    ensures r.Err? && r != Err(Aborted) ==>
              DecodeFile(c, file.bytes, secret).Err? || (mayFallShort && f != DbEnc005 && progress == 0)
    ensures r != Err(Aborted) ==>
              progress == DecryptProgress(c, file.bytes, secret) ||
              (mayFallShort && f != DbEnc005 && r.Err? && progress == 0)
    ensures progress <= 2 * |file.bytes|
  {
    if f == DbEnc005 {
      r, progress := DecryptFramedToTemp(c, f, file, secret, mayAbort);
    } else {
      OnlyPasswordMatters(c, f, file.bytes, secret);
      r, progress := DecryptToTemp(c, file, secret.password.value, mayAbort, mayFallShort);
    }
  }

  /** A private key makes no difference to password formats. */
  lemma OnlyPasswordMatters(c: Crypto, f: Format, bytes: Bytes, secret: Secret)
    requires Detect(bytes) == Some(f) && f != DbEnc005 && secret.password.Some?
    ensures var only := Secret(secret.password, None);
            && DecodeFile(c, bytes, secret) == DecodeFile(c, bytes, only)
            && DecryptProgress(c, bytes, secret) == DecryptProgress(c, bytes, only)
            && (DecodeFile(c, bytes, secret).Ok? ==> CipherBytes(c, bytes, secret) == CipherBytes(c, bytes, only))
  {
    hide Detect, Legacy.Decode, FramedAead.Decode, Flatten, TrailOf, ParseAead, ParseArgon2, Legacy.DecryptProgress;
  }

  /** Encrypt, then decrypt, with independently split reads: the plaintext comes
      back, by the streaming decoder and, for passwords, by `decrypt_file` too. A
      detection read that falls short can make decryption fail but not go wrong. */
  method RoundTrip(c: Crypto, plain: Bytes, key: EncKey, format: Format, secret: Secret,
                   salt: Bytes, prefix: Bytes, kemCoins: Bytes, mayFallShort: bool)
    returns (encrypted: Result<nat>, streamed: Result<Bytes>, inMemory: Result<Bytes>)
    requires Matches(c, key, secret) && |salt| == 16 && |prefix| == PREFIX_LEN
    ensures encrypted.Ok? <==> CanEncrypt(c, key, format, salt, kemCoins)
    ensures encrypted.Ok? ==> streamed == Ok(plain) || (mayFallShort && key.Password? && streamed.Err?)
    ensures encrypted.Ok? && key.Password? ==> inMemory == Ok(plain) || (mayFallShort && inMemory.Err?)
  {
    hide DecodeFile, DecryptProgress, CipherBytes, EncodedBy, Lawful, Detect;
    var source := new DiskFile(plain);
    var destination := new DiskFile([]);
    encrypted := EncryptFile(c, source, destination, key, format, salt, prefix, kemCoins);
    if encrypted.Err? {
      return encrypted, Err(Failed), Err(Failed);
    }
    ghost var f := EffectiveFormat(key, format).value;
    DecodeInvertsEncryption(c, f, secret, plain, destination.bytes);
    var temp, _ := DecryptWithSecret(c, EffectiveFormat(key, format).value, destination, secret, false, mayFallShort);
    streamed := if temp.Ok? then Ok(temp.value.contents) else Err(Failed);
    inMemory := Err(Failed);
    if key.Password? {
      ghost var only := Secret(Some(key.password), None);
      assert Matches(c, key, only);
      DecodeInvertsEncryption(c, f, only, plain, destination.bytes);
      var size;
      inMemory, size := DecryptFile(c, destination, key.password, mayFallShort);
    }
  }
}
