/** DBENC001 (src/dbenc/legacy.rs): AES-CBC (section 6.2 of NIST SP 800-38A) with
    the padding of section 6.3 of RFC 5652, authenticated by a MAC that is patched
    in by seeking back. */
module Legacy {
  import opened Prelude
  import opened Disk
  import opened Primitives
  import opened Formats
  import Pbkdf2

  const HEADER_LEN: nat := 48
  const MAC_LEN: nat := 32
  const BODY_OFFSET: nat := 80
  const ROUNDS: nat := 600_000

  type Block = b: Bytes | |b| == BLOCK witness Zeros(BLOCK)

  datatype LegacyHeader = LegacyHeader(header: Bytes, mac: Bytes, encKey: Bytes, macKey: Bytes, iv: Block)

  // ── What the format means ───────────────────────────────────────────────────

  function PadLen(n: nat): (k: nat)
    ensures 1 <= k <= BLOCK && (n + k) % BLOCK == 0
  {
    BLOCK - n % BLOCK
  }

  function Pad(p: Bytes): (q: Bytes)
    ensures |q| % BLOCK == 0 && p <= q && |p| < |q| <= |p| + BLOCK
    ensures forall i :: |p| <= i < |q| ==> q[i] as int == |q| - |p|
  {
    p + Filled(PadLen(|p|), PadLen(|p|) as Byte)
  }

  function Unpad(q: Bytes): Result<Bytes>
    requires |q| >= BLOCK
  {
    var k := q[|q| - 1] as int;
    if 1 <= k <= BLOCK && forall i :: |q| - k <= i < |q| ==> q[i] as int == k
    then Ok(q[..|q| - k])
    else Err(Failed)
  }

  function CbcEncrypt(c: Crypto, key: Bytes, prev: Block, p: Bytes): (ct: Bytes)
    requires |p| % BLOCK == 0
    ensures |ct| == |p|
    decreases |p|
  {
    if p == [] then []
    else
      var b := c.blockEncrypt(key, Xor(p[..BLOCK], prev));
      b + CbcEncrypt(c, key, b, p[BLOCK..])
  }

  function CbcDecrypt(c: Crypto, key: Bytes, prev: Block, ct: Bytes): (p: Bytes)
    requires |ct| % BLOCK == 0
    ensures |p| == |ct|
    decreases |ct|
  {
    if ct == [] then []
    else DecryptBlock(c, key, prev, ct[..BLOCK]) + CbcDecrypt(c, key, ct[..BLOCK], ct[BLOCK..])
  }

  function DecryptBlock(c: Crypto, key: Bytes, prev: Block, b: Block): Block {
    Xor(c.blockDecrypt(key, b), prev)
  }

  /** The whole-message decoder: length check, CBC, padding check. */
  function CbcDecode(c: Crypto, key: Bytes, iv: Block, ct: Bytes): Result<Bytes> {
    if ct == [] || |ct| % BLOCK != 0 then Err(Failed)
    else Unpad(CbcDecrypt(c, key, iv, ct))
  }

  /** The streaming decoder's view: emit a block whenever more than one block is
      pending; the block held back at the end carries the padding. */
  function HoldBack(c: Crypto, key: Bytes, prev: Block, q: Bytes): Result<Bytes>
    decreases |q|
  {
    if |q| > BLOCK then Prefixed(DecryptBlock(c, key, prev, q[..BLOCK]), HoldBack(c, key, q[..BLOCK], q[BLOCK..]))
    else if |q| == BLOCK then Unpad(DecryptBlock(c, key, prev, q))
    else Err(Failed)
  }

  function Prefixed(head: Bytes, r: Result<Bytes>): Result<Bytes> {
    match r
    case Ok(tail) => Ok(head + tail)
    case Err(e) => Err(e)
  }

  function ParseHeader(c: Crypto, header: Bytes, mac: Bytes, password: Bytes): Result<LegacyHeader>
    requires |header| == HEADER_LEN && |mac| == MAC_LEN
  {
    if header[..8] != Magic(DbEnc001) then Err(Failed)
    else
      var rounds := FromLe(header[40..44]);
      if rounds != ROUNDS then Err(Failed)
      else
        var km := Pbkdf2.Derive(c, password, header[8..24], rounds, 64);
        Ok(LegacyHeader(header, mac, km[..32], km[32..], header[24..40]))
  }

  function HeaderBytes(salt: Block, iv: Block): (h: Bytes)
    ensures |h| == HEADER_LEN
  {
    Magic(DbEnc001) + salt + iv + Le(ROUNDS, 4) + Zeros(4)
  }

  function Body(c: Crypto, h: LegacyHeader, plain: Bytes): (ct: Bytes)
    ensures |ct| == BLOCK * (|plain| / BLOCK + 1)
  {
    CbcEncrypt(c, h.encKey, h.iv, Pad(plain))
  }

  function Mac(c: Crypto, h: LegacyHeader, ct: Bytes): (m: Bytes)
    ensures |m| == MAC_LEN
  {
    c.hmac(h.macKey, h.header + ct)
  }

  /** The file DBENC001 encryption leaves behind. */
  function Encode(c: Crypto, h: LegacyHeader, plain: Bytes): Bytes {
    h.header + Mac(c, h, Body(c, h, plain)) + Body(c, h, plain)
  }

  function Decode(c: Crypto, bytes: Bytes, password: Bytes): Result<Bytes> {
    if |bytes| < BODY_OFFSET then Err(Failed)
    else match ParseHeader(c, bytes[..HEADER_LEN], bytes[HEADER_LEN..BODY_OFFSET], password)
      case Err(e) => Err(e)
      case Ok(h) =>
        if Mac(c, h, bytes[BODY_OFFSET..]) != h.mac then Err(Failed)
        else CbcDecode(c, h.encKey, h.iv, bytes[BODY_OFFSET..])
  }

  /** The progress of decrypting a file: nothing for a bad header, one pass for a bad
      MAC or length, all but the last block of the second for bad padding. */
  function DecryptProgress(c: Crypto, bytes: Bytes, password: Bytes): nat {
    if |bytes| < BODY_OFFSET then 0
    else
      var h := ParseHeader(c, bytes[..HEADER_LEN], bytes[HEADER_LEN..BODY_OFFSET], password);
      var n := |bytes| - BODY_OFFSET;
      if h.Err? then 0
      else if Mac(c, h.value, bytes[BODY_OFFSET..]) != h.value.mac || n == 0 || n % BLOCK != 0 then n
      else
        match CbcDecode(c, h.value.encKey, h.value.iv, bytes[BODY_OFFSET..])
        case Ok(plain) => n + |plain|
        case Err(_) => n + n - BLOCK
  }

  // ── Laws ────────────────────────────────────────────────────────────────────

  /** The first block of a long message is encrypted independently of the padding. */
  lemma EncryptStep(c: Crypto, key: Bytes, prev: Block, p: Bytes)
    requires |p| >= BLOCK
    ensures var b := c.blockEncrypt(key, Xor(p[..BLOCK], prev));
            CbcEncrypt(c, key, prev, Pad(p)) == b + CbcEncrypt(c, key, b, Pad(p[BLOCK..]))
  {
    PadStep(p);
    hide Pad, Lawful;
  }

  lemma PadStep(p: Bytes)
    requires |p| >= BLOCK
    ensures Pad(p)[..BLOCK] == p[..BLOCK] && Pad(p)[BLOCK..] == Pad(p[BLOCK..])
  {
    assert PadLen(|p|) == PadLen(|p[BLOCK..]|);
  }

  lemma {:induction false} CbcRoundTrip(c: Crypto, key: Bytes, prev: Block, p: Bytes)
    requires |p| % BLOCK == 0
    ensures CbcDecrypt(c, key, prev, CbcEncrypt(c, key, prev, p)) == p
    decreases |p|
  {
    if p != [] {
      var b := c.blockEncrypt(key, Xor(p[..BLOCK], prev));
      CbcRoundTrip(c, key, b, p[BLOCK..]);
      XorCancels(p[..BLOCK], prev);
      var ct := CbcEncrypt(c, key, prev, p);
      assert ct[..BLOCK] == b && ct[BLOCK..] == CbcEncrypt(c, key, b, p[BLOCK..]);
    }
  }

  lemma UnpadInvertsPad(p: Bytes)
    ensures |Pad(p)| >= BLOCK && Unpad(Pad(p)) == Ok(p)
  {
    assert Pad(p)[..|p|] == p;
  }

  /** Only paddings are accepted: an unpadded message pads back to the same blocks. */
  lemma PadInvertsUnpad(q: Bytes)
    requires |q| >= BLOCK && |q| % BLOCK == 0 && Unpad(q).Ok?
    ensures Pad(Unpad(q).value) == q
  {
    var k := q[|q| - 1] as int;
    assert PadLen(|q| - k) == k;
    assert q == q[..|q| - k] + q[|q| - k..];
    assert q[|q| - k..] == Filled(k, k as Byte);
  }

  /** Holding back one block decides and yields exactly what the whole-message
      decoder does, on every byte string. */
  lemma {:induction false} HoldBackAgrees(c: Crypto, key: Bytes, prev: Block, q: Bytes)
    ensures HoldBack(c, key, prev, q) == CbcDecode(c, key, prev, q)
    decreases |q|
  {
    if |q| == BLOCK {
      assert q[..BLOCK] == q && q[BLOCK..] == [];
      assert CbcDecrypt(c, key, q, []) == [];
      assert CbcDecrypt(c, key, prev, q) == DecryptBlock(c, key, prev, q) + [];
      assert DecryptBlock(c, key, prev, q) + [] == DecryptBlock(c, key, prev, q);
    } else if |q| > BLOCK {
      HoldBackAgrees(c, key, q[..BLOCK], q[BLOCK..]);
      if |q| % BLOCK == 0 {
        var head := DecryptBlock(c, key, prev, q[..BLOCK]);
        var tail := CbcDecrypt(c, key, q[..BLOCK], q[BLOCK..]);
        UnpadIgnoresFront(head, tail);
      }
    }
  }

  lemma BadLengthIsRejected(c: Crypto, key: Bytes, iv: Block, ct: Bytes)
    ensures |ct| == 0 || |ct| % BLOCK != 0 ==> CbcDecode(c, key, iv, ct) == Err(Failed)
  {
  }

  lemma UnpadIgnoresFront(head: Bytes, tail: Bytes)
    requires |tail| >= BLOCK
    ensures Unpad(head + tail) == Prefixed(head, Unpad(tail))
  {
    var q := head + tail;
    var k := q[|q| - 1] as int;
    assert forall i :: |tail| - k <= i < |tail| && 0 <= i ==> tail[i] == q[i + |head|];
    if 1 <= k <= BLOCK {
      assert (forall i :: |q| - k <= i < |q| ==> q[i] as int == k)
        <==> (forall i :: |tail| - k <= i < |tail| ==> tail[i] as int == k) by {
        assert forall i :: |q| - k <= i < |q| ==> q[i] == tail[i - |head|];
      }
      assert q[..|q| - k] == head + tail[..|tail| - k];
    }
  }

  lemma ParseInvertsHeaderBytes(c: Crypto, salt: Block, iv: Block, mac: Bytes, password: Bytes)
    requires |mac| == MAC_LEN
    ensures var r := ParseHeader(c, HeaderBytes(salt, iv), mac, password);
            r.Ok? && r.value.header == HeaderBytes(salt, iv) && r.value.mac == mac && r.value.iv == iv
    ensures var h := ParseHeader(c, HeaderBytes(salt, iv), mac, password).value;
            && h.encKey == Pbkdf2.Derive(c, password, salt, 600_000, 32)
            && h.encKey == Pbkdf2.F(c, password, salt, 600_000, 1)
            && h.macKey == Pbkdf2.F(c, password, salt, 600_000, 2)
  {
    hide Pbkdf2.F;
    TwoBlocks(c, password, salt, ROUNDS);
    var h := HeaderBytes(salt, iv);
    assert h[..8] == Magic(DbEnc001) && h[8..24] == salt && h[24..40] == iv && h[40..44] == Le(ROUNDS, 4);
    Pow256Values();
    LeRoundTrip(ROUNDS, 4);
  }

  /** The 64 derived bytes are two blocks, and the shorter key is the first. */
  lemma TwoBlocks(c: Crypto, password: Bytes, salt: Bytes, rounds: nat)
    requires rounds >= 1
    ensures var km := Pbkdf2.Derive(c, password, salt, rounds, 64);
            && km[..32] == Pbkdf2.F(c, password, salt, rounds, 1)
            && km[32..] == Pbkdf2.F(c, password, salt, rounds, 2)
            && Pbkdf2.Derive(c, password, salt, rounds, 32) == km[..32]
  {
    hide Pbkdf2.F;
    Pbkdf2.NoKey(c, password, salt, rounds);
    Pbkdf2.DeriveStep(c, password, salt, rounds, 0, 32);
    Pbkdf2.DeriveStep(c, password, salt, rounds, 1, 32);
  }

  lemma RoundsBytes()
    ensures Le(ROUNDS, 4) == [0xc0, 0x27, 0x09, 0x00]
  {
    assert Le(0, 0) == [] && Le(0, 1) == [0x00] && Le(0x09, 2) == [0x09, 0x00];
    assert Le(0x927, 3) == [0x27, 0x09, 0x00];
  }

  /** The documented layout of the file that encryption leaves behind, byte positions,
      keys and the message of the MAC included. */
  lemma DocumentedLayout(c: Crypto, salt: Block, iv: Block, h: LegacyHeader, plain: Bytes, password: Bytes)
    requires IsHeaderFor(c, h, password) && h.header == HeaderBytes(salt, iv)
    ensures var file := Encode(c, h, plain);
            && |file| == 80 + 16 * (|plain| / 16 + 1)
            && file[..8] == [0x44, 0x42, 0x45, 0x4e, 0x43, 0x30, 0x30, 0x31]
            && file[8..24] == salt && file[24..40] == iv
            && file[40..48] == [0xc0, 0x27, 0x09, 0x00, 0, 0, 0, 0]
            && file[48..80] == c.hmac(Pbkdf2.F(c, password, salt, 600_000, 2), file[..48] + file[80..])
            && file[80..] == CbcEncrypt(c, Pbkdf2.F(c, password, salt, 600_000, 1), iv, Pad(plain))
  {
    hide Pbkdf2.F, CbcEncrypt, Pad, ParseHeader, Lawful;
    ParseInvertsHeaderBytes(c, salt, iv, h.mac, password);
    RoundsBytes();
    MagicSpells(DbEnc001);
    var head, ct := HeaderBytes(salt, iv), Body(c, h, plain);
    assert head[..8] == Magic(DbEnc001) && head[8..24] == salt && head[24..40] == iv;
    assert head[40..48] == [0xc0, 0x27, 0x09, 0x00, 0, 0, 0, 0];
    var file := Encode(c, h, plain);
    assert file[..48] == head && file[48..80] == Mac(c, h, ct) && file[80..] == ct;
    SliceOfSlice(file, 0, 48, 0, 8);
    SliceOfSlice(file, 0, 48, 8, 24);
    SliceOfSlice(file, 0, 48, 24, 40);
    SliceOfSlice(file, 0, 48, 40, 48);
  }

  function BlockAt(s: Bytes, i: nat): Block
    requires BLOCK * (i + 1) <= |s|
  {
    s[BLOCK * i..BLOCK * (i + 1)]
  }

  /** Section 6.2 of NIST SP 800-38A, encryption: block i is the cipher applied to the
      plaintext block and the ciphertext block before it. */
  lemma {:induction false} CbcBlock(c: Crypto, key: Bytes, iv: Block, p: Bytes, i: nat)
    requires |p| % BLOCK == 0 && BLOCK * (i + 1) <= |p|
    ensures var ct := CbcEncrypt(c, key, iv, p);
            BlockAt(ct, i) == c.blockEncrypt(key, Xor(BlockAt(p, i), if i == 0 then iv else BlockAt(ct, i - 1)))
    decreases i
  {
    hide Xor, Lawful;
    var b := c.blockEncrypt(key, Xor(p[..BLOCK], iv));
    var ct, rest := CbcEncrypt(c, key, iv, p), CbcEncrypt(c, key, b, p[BLOCK..]);
    assert ct == b + rest && BlockAt(ct, 0) == b && BlockAt(p, 0) == p[..BLOCK];
    if i > 0 {
      CbcBlock(c, key, b, p[BLOCK..], i - 1);
      LaterBlock(b, rest, i);
      LaterBlock(p[..BLOCK], p[BLOCK..], i);
      assert p[..BLOCK] + p[BLOCK..] == p;
      if i > 1 {
        LaterBlock(b, rest, i - 1);
      }
    }
  }

  lemma LaterBlock(b: Block, rest: Bytes, i: nat)
    requires i > 0 && BLOCK * i <= |rest|
    ensures BlockAt(b + rest, i) == BlockAt(rest, i - 1)
  {
  }

  /** The same section, decryption. */
  lemma CbcPlainBlock(c: Crypto, key: Bytes, iv: Block, ct: Bytes, i: nat)
    requires |ct| % BLOCK == 0 && BLOCK * (i + 1) <= |ct|
    ensures BlockAt(CbcDecrypt(c, key, iv, ct), i) ==
            Xor(c.blockDecrypt(key, BlockAt(ct, i)), if i == 0 then iv else BlockAt(ct, i - 1))
  {
    hide Xor, Lawful, CbcEncrypt, CbcDecrypt, BlockAt;
    var p := CbcDecrypt(c, key, iv, ct);
    CbcInverse(c, key, iv, ct);
    CbcBlock(c, key, iv, p, i);
    XorCancels(BlockAt(p, i), if i == 0 then iv else BlockAt(ct, i - 1));
    Deciphers(c, key, Xor(BlockAt(p, i), if i == 0 then iv else BlockAt(ct, i - 1)));
  }

  /** DBENC001 depends on the MAC and the block cipher and on nothing else. */
  lemma OnlyMacAndCipherMatter(c: Crypto, d: Crypto, bytes: Bytes, password: Bytes)
    requires c.hmac == d.hmac && c.blockDecrypt == d.blockDecrypt
    ensures Decode(c, bytes, password) == Decode(d, bytes, password)
  {
    hide Pbkdf2.Derive, CbcDecrypt, Unpad, Lawful;
    if |bytes| >= BODY_OFFSET {
      var header, ct := bytes[..HEADER_LEN], bytes[BODY_OFFSET..];
      Pbkdf2.OnlyKeyedPrfMatters(c, d, password, header[8..24], ROUNDS, 64);
      var h := ParseHeader(c, header, bytes[HEADER_LEN..BODY_OFFSET], password);
      if h.Ok? && |ct| % BLOCK == 0 {
        SameDecryption(c, d, h.value.encKey, h.value.iv, ct);
      }
    }
  }

  lemma {:induction false} SameDecryption(c: Crypto, d: Crypto, key: Bytes, prev: Block, ct: Bytes)
    requires c.blockDecrypt == d.blockDecrypt && |ct| % BLOCK == 0
    ensures CbcDecrypt(c, key, prev, ct) == CbcDecrypt(d, key, prev, ct)
    decreases |ct|
  {
    hide Xor, Lawful;
    if ct != [] {
      SameDecryption(c, d, key, ct[..BLOCK], ct[BLOCK..]);
    }
  }

  lemma Deciphers(c: Crypto, key: Bytes, b: Block)
    ensures c.blockDecrypt(key, c.blockEncrypt(key, b)) == b
  {
  }

  /** A header is accepted exactly when it is the one written for the salt and IV it
      carries, up to its four reserved bytes. */
  lemma AcceptedHeaderIff(c: Crypto, header: Bytes, mac: Bytes, password: Bytes)
    requires |header| == HEADER_LEN && |mac| == MAC_LEN
    ensures ParseHeader(c, header, mac, password).Ok?
            <==> header[..44] == HeaderBytes(header[8..24], header[24..40])[..44]
  {
    hide Pbkdf2.Derive, Le, FromLe;
    var h := HeaderBytes(header[8..24], header[24..40]);
    assert h[..44] == Magic(DbEnc001) + header[8..24] + header[24..40] + Le(ROUNDS, 4);
    assert header[..44] == header[..8] + header[8..24] + header[24..40] + header[40..44];
    assert header[..44][..8] == header[..8] && h[..44][..8] == Magic(DbEnc001);
    assert header[..44][40..] == header[40..44] && h[..44][40..] == Le(ROUNDS, 4);
    RoundsField(header[40..44]);
  }

  lemma RoundsField(field: Bytes)
    requires |field| == 4
    ensures FromLe(field) == ROUNDS <==> field == Le(ROUNDS, 4)
  {
    Pow256Values();
    FromLeRoundTrip(field);
    LeRoundTrip(ROUNDS, 4);
  }

  /** Parsing depends on the MAC field only by carrying it along. */
  lemma ParseCarriesMac(c: Crypto, header: Bytes, mac: Bytes, other: Bytes, password: Bytes)
    requires |header| == HEADER_LEN && |mac| == |other| == MAC_LEN
    ensures ParseHeader(c, header, mac, password).Ok? ==>
              ParseHeader(c, header, other, password)
              == Ok(ParseHeader(c, header, mac, password).value.(mac := other))
  {
  }

  ghost predicate IsHeaderFor(c: Crypto, h: LegacyHeader, password: Bytes) {
    |h.header| == HEADER_LEN && |h.mac| == MAC_LEN && ParseHeader(c, h.header, h.mac, password) == Ok(h)
  }

  lemma HeaderHasMagic(c: Crypto, h: LegacyHeader, password: Bytes)
    requires IsHeaderFor(c, h, password)
    ensures h.header[..8] == Magic(DbEnc001)
  {
  }

  /** Decoding inverts encoding, and the file has the documented length and magic. */
  lemma DecodeInvertsEncode(c: Crypto, h: LegacyHeader, plain: Bytes, password: Bytes)
    requires IsHeaderFor(c, h, password)
    ensures Decode(c, Encode(c, h, plain), password) == Ok(plain)
    ensures |Encode(c, h, plain)| == 80 + 16 * (|plain| / 16 + 1)
    ensures Detect(Encode(c, h, plain)) == Some(DbEnc001)
  {
    hide ParseHeader, Pad, Unpad, Lawful, Detect, Magic, CbcEncrypt, CbcDecrypt;
    var ct := Body(c, h, plain);
    var mac := Mac(c, h, ct);
    var file := Encode(c, h, plain);
    assert file[..HEADER_LEN] == h.header && file[HEADER_LEN..BODY_OFFSET] == mac && file[BODY_OFFSET..] == ct;
    ParseCarriesMac(c, h.header, h.mac, mac, password);
    CbcRoundTrip(c, h.encKey, h.iv, Pad(plain));
    UnpadInvertsPad(plain);
    HeaderHasMagic(c, h, password);
    assert Magic(DbEnc001) <= file by { assert file[..8] == h.header[..8]; }
    DetectIffMagic(file, DbEnc001);
  }

  lemma {:induction false} CbcInverse(c: Crypto, key: Bytes, prev: Block, ct: Bytes)
    requires |ct| % BLOCK == 0
    ensures CbcEncrypt(c, key, prev, CbcDecrypt(c, key, prev, ct)) == ct
    decreases |ct|
  {
    if ct != [] {
      var b := ct[..BLOCK];
      CbcInverse(c, key, b, ct[BLOCK..]);
      var p := CbcDecrypt(c, key, prev, ct);
      assert p[..BLOCK] == DecryptBlock(c, key, prev, b) && p[BLOCK..] == CbcDecrypt(c, key, b, ct[BLOCK..]);
      XorCancels(c.blockDecrypt(key, b), prev);
      assert ct == b + ct[BLOCK..];
    }
  }

  /** Unique decoding: whatever is accepted is, byte for byte, the encoding of the
      returned plaintext under the header the file carries. */
  lemma EncodeInvertsDecode(c: Crypto, bytes: Bytes, password: Bytes) returns (h: LegacyHeader)
    requires Decode(c, bytes, password).Ok?
    ensures IsHeaderFor(c, h, password)
    ensures bytes == Encode(c, h, Decode(c, bytes, password).value)
  {
    h := ParseHeader(c, bytes[..HEADER_LEN], bytes[HEADER_LEN..BODY_OFFSET], password).value;
    var ct := bytes[BODY_OFFSET..];
    var padded := CbcDecrypt(c, h.encKey, h.iv, ct);
    PadInvertsUnpad(padded);
    CbcInverse(c, h.encKey, h.iv, ct);
    assert bytes == bytes[..HEADER_LEN] + bytes[HEADER_LEN..BODY_OFFSET] + ct;
  }

  /** Padding costs at least one byte. */
  lemma PlaintextIsShorter(c: Crypto, bytes: Bytes, password: Bytes)
    ensures Decode(c, bytes, password).Ok? ==>
              |Decode(c, bytes, password).value| + BODY_OFFSET < |bytes|
  {
    if Decode(c, bytes, password).Ok? {
      var h := EncodeInvertsDecode(c, bytes, password);
    }
  }

  // ── The code ────────────────────────────────────────────────────────────────

  lemma ProgressBound(c: Crypto, bytes: Bytes, password: Bytes)
    ensures DecryptProgress(c, bytes, password) <= 2 * |bytes|
  {
    hide ParseHeader, CbcDecode, Mac, Lawful;
    if |bytes| >= BODY_OFFSET {
      DecodeByParts(c, bytes, password);
      if Decode(c, bytes, password).Ok? {
        PlaintextIsShorter(c, bytes, password);
      }
    }
  }

  /** On an accepted file the progress is one pass and the plaintext. */
  lemma AcceptedProgress(c: Crypto, bytes: Bytes, password: Bytes)
    requires Decode(c, bytes, password).Ok?
    ensures DecryptProgress(c, bytes, password) == |bytes| - BODY_OFFSET + |Decode(c, bytes, password).value|
  {
    hide ParseHeader, CbcDecode, Mac, Lawful;
    var h := ParseHeader(c, bytes[..HEADER_LEN], bytes[HEADER_LEN..BODY_OFFSET], password).value;
    BadLengthIsRejected(c, h.encKey, h.iv, bytes[BODY_OFFSET..]);
  }

  method ParseLegacyHeader(c: Crypto, header: Bytes, mac: Bytes, password: Bytes) returns (r: Result<LegacyHeader>)
    requires |header| == HEADER_LEN && |mac| == MAC_LEN
    ensures r == ParseHeader(c, header, mac, password)
  {
    if header[..8] != Magic(DbEnc001) {
      return Err(Failed);
    }
    var iterations := FromLe(header[40..44]);
    if iterations != ROUNDS {
      return Err(Failed);
    }
    var keyMaterial := new Byte[64];
    Pbkdf2.Pbkdf2HmacSha256(c, password, header[8..24], iterations, keyMaterial);
    assert keyMaterial[..][..32] == keyMaterial[..32] && keyMaterial[..][32..] == keyMaterial[32..];
    return Ok(LegacyHeader(header, mac, keyMaterial[..32], keyMaterial[32..], header[24..40]));
  }

  /** Encrypts and writes the whole blocks in `pending`, leaving less than one.
      `rest` is what the source still holds: the message is `pending + rest`. */
  method EncryptWholeBlocks(c: Crypto, key: Bytes, start: Block, input: Bytes, destination: Handle, ghost rest: Bytes)
    returns (prev: Block, pending: Bytes, count: nat, ghost out: Bytes)
    requires destination.pos == |destination.file.bytes|
    modifies destination, destination.file
    ensures destination.file.bytes == old(destination.file.bytes) + out
    ensures destination.pos == |destination.file.bytes|
    ensures |pending| < BLOCK && count == |out|
    ensures CbcEncrypt(c, key, start, Pad(input + rest)) == out + CbcEncrypt(c, key, prev, Pad(pending + rest))
  {
    hide Pad, CbcEncrypt;
    prev, pending, count, out := start, input, 0, [];
    assert CbcEncrypt(c, key, start, Pad(input + rest)) == [] + CbcEncrypt(c, key, start, Pad(input + rest));
    while |pending| >= BLOCK
      invariant destination.file.bytes == old(destination.file.bytes) + out
      invariant destination.pos == |destination.file.bytes|
      invariant count == |out|
      invariant CbcEncrypt(c, key, start, Pad(input + rest)) == out + CbcEncrypt(c, key, prev, Pad(pending + rest))
    {
      EncryptStep(c, key, prev, pending + rest);
      assert (pending + rest)[..BLOCK] == pending[..BLOCK];
      assert (pending + rest)[BLOCK..] == pending[BLOCK..] + rest;
      var block := c.blockEncrypt(key, Xor(pending[..BLOCK], prev));
      destination.WriteAll(block);
      ConcatAssociates(out, block, CbcEncrypt(c, key, block, Pad(pending[BLOCK..] + rest)));
      prev, pending, count, out := block, pending[BLOCK..], count + BLOCK, out + block;
    }
  }

  /** Pads the carried bytes and encrypts the one block they make. */
  method EncryptPadded(c: Crypto, key: Bytes, start: Block, pending: Bytes, destination: Handle) returns (count: nat)
    requires |pending| < BLOCK
    requires destination.pos == |destination.file.bytes|
    modifies destination, destination.file
    ensures destination.file.bytes == old(destination.file.bytes) + CbcEncrypt(c, key, start, Pad(pending))
    ensures destination.pos == |destination.file.bytes|
    ensures count == |Pad(pending)|
  {
    var padLen := BLOCK - |pending| % BLOCK;
    var padded := pending + Filled(padLen, padLen as Byte);
    var prev: Block := start;
    count := 0;
    ghost var out: Bytes := [];
    while count < |padded|
      invariant 0 <= count <= |padded| && count % BLOCK == 0
      invariant destination.file.bytes == old(destination.file.bytes) + out
      invariant destination.pos == |destination.file.bytes|
      invariant CbcEncrypt(c, key, start, padded) == out + CbcEncrypt(c, key, prev, padded[count..])
    {
      var chunk := padded[count..count + BLOCK];
      assert padded[count..][..BLOCK] == chunk && padded[count..][BLOCK..] == padded[count + BLOCK..];
      var block := c.blockEncrypt(key, Xor(chunk, prev));
      destination.WriteAll(block);
      ConcatAssociates(out, block, CbcEncrypt(c, key, block, padded[count + BLOCK..]));
      prev, count, out := block, count + BLOCK, out + block;
    }
  }

  /** The read loop: drains the source, writing every whole block. */
  method EncryptReads(c: Crypto, key: Bytes, start: Block, source: Handle, destination: Handle)
    returns (prev: Block, pending: Bytes, total: nat, ghost out: Bytes)
    requires source != destination && source.file != destination.file
    requires destination.pos == |destination.file.bytes|
    modifies source, destination, destination.file
    ensures destination.file.bytes == old(destination.file.bytes) + out
    ensures destination.pos == |destination.file.bytes|
    ensures |pending| < BLOCK && total == |out|
    ensures CbcEncrypt(c, key, start, Pad(old(source.Rest()))) == out + CbcEncrypt(c, key, prev, Pad(pending))
  {
    hide CbcEncrypt, Pad;
    ghost var rest := source.Rest();
    ghost var goal := CbcEncrypt(c, key, start, Pad(rest));
    prev, pending, total, out := start, [], 0, [];
    assert pending + rest == rest;
    while true
      invariant destination.file.bytes == old(destination.file.bytes) + out
      invariant destination.pos == |destination.file.bytes|
      invariant |pending| < BLOCK && total == |out| && rest == source.Rest()
      invariant goal == out + CbcEncrypt(c, key, prev, Pad(pending + rest))
      decreases |rest|
    {
      var chunk := source.Read(CHUNK_SIZE);
      if chunk == [] {
        assert pending + rest == pending;
        return;
      }
      CarryChunk(pending, rest, chunk);
      rest := rest[|chunk|..];
      var count;
      ghost var more;
      prev, pending, count, more := EncryptWholeBlocks(c, key, prev, pending + chunk, destination, rest);
      ConcatAssociates(out, more, CbcEncrypt(c, key, prev, Pad(pending + rest)));
      ConcatAssociates(old(destination.file.bytes), out, more);
      total, out := total + count, out + more;
    }
  }

  /** `encrypt_legacy_stream_to_writer`: however the source splits its reads, the
      destination grows by the CBC encryption of the padded whole. */
  method EncryptStream(c: Crypto, source: Handle, destination: Handle, h: LegacyHeader) returns (total: nat)
    requires source != destination && source.file != destination.file
    requires destination.pos == |destination.file.bytes|
    modifies source, destination, destination.file
    ensures destination.file.bytes == old(destination.file.bytes) + Body(c, h, old(source.Rest()))
    ensures total == |Body(c, h, old(source.Rest()))|
  {
    hide Pad, CbcEncrypt;
    var prev, pending, written;
    ghost var out;
    prev, pending, written, out := EncryptReads(c, h.encKey, h.iv, source, destination);
    var last := EncryptPadded(c, h.encKey, prev, pending, destination);
    total := written + last;
  }

  /** Re-reads the body and appends it to the authenticated header. */
  method AuthenticatedBytes(file: DiskFile, header: Bytes) returns (message: Bytes)
    requires |file.bytes| >= BODY_OFFSET
    ensures message == header + file.bytes[BODY_OFFSET..]
  {
    var reader := new Handle.Open(file);
    reader.SeekTo(BODY_OFFSET);
    message := header;
    ghost var rest := file.bytes[BODY_OFFSET..];
    ghost var all := message + rest;
    while true
      invariant rest == reader.Rest() && message + rest == all
      decreases |rest|
    {
      var chunk := reader.Read(CHUNK_SIZE);
      if chunk == [] {
        break;
      }
      CarryChunk(message, rest, chunk);
      message, rest := message + chunk, rest[|chunk|..];
    }
    assert message + [] == message;
  }

  lemma BodyStart(header: Bytes, ct: Bytes)
    requires |header| == HEADER_LEN
    ensures var s := header + Zeros(MAC_LEN) + ct; |s| >= BODY_OFFSET && s[BODY_OFFSET..] == ct
  {
  }

  /** Overwriting the placeholder with the MAC completes the file. */
  lemma PatchMac(c: Crypto, h: LegacyHeader, plain: Bytes)
    requires |h.header| == HEADER_LEN
    ensures var ct := Body(c, h, plain);
            Overwrite(h.header + Zeros(MAC_LEN) + ct, HEADER_LEN, c.hmac(h.macKey, h.header + ct))
            == Encode(c, h, plain)
  {
    hide Body;
    var ct := Body(c, h, plain);
    var s := h.header + Zeros(MAC_LEN) + ct;
    assert s[..HEADER_LEN] == h.header && s[BODY_OFFSET..] == ct;
  }

  /** The slice copies of `build_legacy_header`. */
  method BuildHeader(salt: Block, iv: Block) returns (header: Bytes)
    ensures header == HeaderBytes(salt, iv)
  {
    hide Le, Magic;
    var buf := new Byte[HEADER_LEN](_ => 0);
    assert buf[..0] == [];
    CopyInto(buf, 0, Magic(DbEnc001));
    CopyInto(buf, 8, salt);
    CopyInto(buf, 24, iv);
    CopyInto(buf, 40, Le(ROUNDS, 4));
    assert buf[44..] == Zeros(4);
    header := buf[..];
    assert header == buf[..44] + buf[44..];
  }

  /** `encrypt_legacy_file_to_path`: placeholder MAC, body, then seek back and patch. */
  method EncryptFile(c: Crypto, source: DiskFile, destination: DiskFile, password: Bytes, salt: Block, iv: Block)
    returns (r: Result<nat>, h: LegacyHeader)
    requires source != destination
    modifies destination
    ensures IsHeaderFor(c, h, password) && h.header == HeaderBytes(salt, iv)
    ensures destination.bytes == Encode(c, h, source.bytes)
    ensures r == Ok(|Body(c, h, source.bytes)|)
  {
    hide ParseHeader, HeaderBytes, Lawful, Overwrite, Body, Mac, Encode;
    ParseInvertsHeaderBytes(c, salt, iv, Zeros(MAC_LEN), password);
    var header := BuildHeader(salt, iv);
    var parsed := ParseLegacyHeader(c, header, Zeros(MAC_LEN), password);
    h := parsed.value;
    var input := new Handle.Open(source);
    destination.bytes := [];
    var output := new Handle.Open(destination);
    output.WriteAll(h.header);
    output.WriteAll(Zeros(MAC_LEN));
    assert input.Rest() == source.bytes;
    var written := EncryptStream(c, input, output, h);
    ghost var ct := Body(c, h, source.bytes);
    assert destination.bytes == h.header + Zeros(MAC_LEN) + ct;
    BodyStart(h.header, ct);
    var message := AuthenticatedBytes(destination, h.header);
    output.SeekTo(HEADER_LEN);
    PatchMac(c, h, source.bytes);
    output.WriteAll(c.hmac(h.macKey, message));
    r := Ok(written);
  }

  /** In-memory CBC: every block, then the padding of the whole plaintext. */
  method DecryptCbcBytes(c: Crypto, key: Bytes, iv: Block, ct: Bytes) returns (r: Result<Bytes>)
    ensures r == CbcDecode(c, key, iv, ct)
  {
    hide DecryptBlock, Lawful;
    if ct == [] || |ct| % BLOCK != 0 {
      return Err(Failed);
    }
    var prev: Block := iv;
    var plaintext: Bytes := [];
    var offset := 0;
    while offset < |ct|
      invariant 0 <= offset <= |ct| && offset % BLOCK == 0 && |plaintext| == offset
      invariant CbcDecrypt(c, key, iv, ct) == plaintext + CbcDecrypt(c, key, prev, ct[offset..])
    {
      var chunk := ct[offset..offset + BLOCK];
      assert ct[offset..][..BLOCK] == chunk && ct[offset..][BLOCK..] == ct[offset + BLOCK..];
      plaintext := plaintext + DecryptBlock(c, key, prev, chunk);
      prev, offset := chunk, offset + BLOCK;
    }
    assert plaintext == CbcDecrypt(c, key, iv, ct);
    r := CheckPadding(plaintext);
  }

  /** The padding test both decoders end with. */
  method CheckPadding(plaintext: Bytes) returns (r: Result<Bytes>)
    requires |plaintext| >= BLOCK
    ensures r == Unpad(plaintext)
  {
    var padLen := plaintext[|plaintext| - 1] as int;
    if padLen == 0 || padLen > BLOCK {
      return Err(Failed);
    }
    for i := |plaintext| - padLen to |plaintext|
      invariant forall k :: |plaintext| - padLen <= k < i ==> plaintext[k] as int == padLen
    {
      if plaintext[i] as int != padLen {
        return Err(Failed);
      }
    }
    return Ok(plaintext[..|plaintext| - padLen]);
  }

  /** `decrypt_legacy_bytes`: the in-memory decoder. */
  method DecryptBytes(c: Crypto, bytes: Bytes, password: Bytes) returns (r: Result<Bytes>)
    ensures r == Decode(c, bytes, password)
  {
    if |bytes| < BODY_OFFSET {
      return Err(Failed);
    }
    var parsed := ParseLegacyHeader(c, bytes[..HEADER_LEN], bytes[HEADER_LEN..BODY_OFFSET], password);
    if parsed.Err? {
      return Err(parsed.error);
    }
    var h := parsed.value;
    if c.hmac(h.macKey, h.header + bytes[BODY_OFFSET..]) != h.mac {
      return Err(Failed);
    }
    r := DecryptCbcBytes(c, h.encKey, h.iv, bytes[BODY_OFFSET..]);
  }

  /** `verify_legacy_hmac`: a first pass over the body. */
  method VerifyHmac(c: Crypto, file: DiskFile, h: LegacyHeader, mayAbort: bool) returns (r: Result<nat>, progress: nat)
    requires |file.bytes| >= BODY_OFFSET
    ensures r == Err(Aborted) ==> mayAbort
    ensures r != Err(Aborted) ==>
              r == if Mac(c, h, file.bytes[BODY_OFFSET..]) == h.mac then Ok(|file.bytes| - BODY_OFFSET) else Err(Failed)
    ensures progress <= |file.bytes| - BODY_OFFSET && (r != Err(Aborted) ==> progress == |file.bytes| - BODY_OFFSET)
  {
    hide Lawful;
    var reader := new Handle.Open(file);
    reader.SeekTo(BODY_OFFSET);
    var authenticated := h.header;
    ghost var rest := file.bytes[BODY_OFFSET..];
    ghost var all := authenticated + rest;
    var total := 0;
    progress := 0;
    while true
      invariant rest == reader.Rest() && authenticated + rest == all
      invariant total == progress == |authenticated| - |h.header|
      decreases |rest|
    {
      var abort: bool := *;
      if mayAbort && abort {
        return Err(Aborted), progress;
      }
      var chunk := reader.Read(CHUNK_SIZE);
      if chunk == [] {
        break;
      }
      CarryChunk(authenticated, rest, chunk);
      authenticated, rest := authenticated + chunk, rest[|chunk|..];
      total, progress := total + |chunk|, progress + |chunk|;
    }
    assert authenticated + [] == authenticated;
    if c.hmac(h.macKey, authenticated) != h.mac {
      return Err(Failed), progress;
    }
    return Ok(total), progress;
  }

  lemma PrefixedByNothing(r: Result<Bytes>)
    ensures Prefixed([], r) == r
  {
    if r.Ok? {
      assert [] + r.value == r.value;
    }
  }

  lemma PrefixedTwice(a: Bytes, b: Bytes, r: Result<Bytes>)
    ensures Prefixed(a, Prefixed(b, r)) == Prefixed(a + b, r)
  {
    if r.Ok? {
      assert a + (b + r.value) == a + b + r.value;
    }
  }

  predicate WholeBlocks(n: nat) {
    n % BLOCK == 0
  }

  lemma NoBlocks()
    ensures WholeBlocks(0)
  {
  }

  lemma MoreBlocks(n: nat, more: nat)
    requires WholeBlocks(n) && WholeBlocks(more)
    ensures WholeBlocks(n + more)
  {
  }

  /** Decrypts and writes while more than one block is pending. */
  method DecryptAllButOne(c: Crypto, key: Bytes, start: Block, input: Bytes, writer: Handle, mayAbort: bool,
                          ghost rest: Bytes)
    returns (aborted: bool, prev: Block, pending: Bytes, out: Bytes)
    requires writer.pos == |writer.file.bytes|
    modifies writer, writer.file
    ensures writer.file.bytes == old(writer.file.bytes) + out && writer.pos == |writer.file.bytes|
    ensures aborted ==> mayAbort
    ensures |out| + |pending| == |input| && WholeBlocks(|out|)
    ensures !aborted ==> |pending| <= BLOCK && (input != [] ==> pending != [])
    ensures HoldBack(c, key, start, input + rest) == Prefixed(out, HoldBack(c, key, prev, pending + rest))
  {
    hide HoldBack, DecryptBlock, Prefixed, Lawful;
    prev, pending, out := start, input, [];
    PrefixedByNothing(HoldBack(c, key, prev, pending + rest));
    while |pending| > BLOCK
      invariant writer.file.bytes == old(writer.file.bytes) + out && writer.pos == |writer.file.bytes|
      invariant |out| + |pending| == |input| && WholeBlocks(|out|) && (input != [] ==> pending != [])
      invariant HoldBack(c, key, start, input + rest) == Prefixed(out, HoldBack(c, key, prev, pending + rest))
    {
      var stop: bool := *;
      if mayAbort && stop {
        return true, prev, pending, out;
      }
      var block := pending[..BLOCK];
      HoldBackStep(c, key, prev, pending, rest);
      var plaintext := DecryptBlock(c, key, prev, block);
      ConcatAssociates(old(writer.file.bytes), out, plaintext);
      PrefixedTwice(out, plaintext, HoldBack(c, key, block, pending[BLOCK..] + rest));
      writer.WriteAll(plaintext);
      prev, pending, out := block, pending[BLOCK..], out + plaintext;
    }
    return false, prev, pending, out;
  }

  lemma HoldBackStep(c: Crypto, key: Bytes, prev: Block, pending: Bytes, rest: Bytes)
    requires |pending| > BLOCK
    ensures HoldBack(c, key, prev, pending + rest) ==
            Prefixed(DecryptBlock(c, key, prev, pending[..BLOCK]),
                     HoldBack(c, key, pending[..BLOCK], pending[BLOCK..] + rest))
  {
    hide DecryptBlock;
    assert (pending + rest)[..BLOCK] == pending[..BLOCK] && (pending + rest)[BLOCK..] == pending[BLOCK..] + rest;
  }

  /** The read loop of the second pass: at most one block is left pending. */
  method DecryptReads(c: Crypto, key: Bytes, start: Block, reader: Handle, writer: Handle, mayAbort: bool)
    returns (aborted: bool, prev: Block, pending: Bytes, out: Bytes)
    requires reader != writer && reader.file != writer.file && writer.pos == |writer.file.bytes|
    modifies reader, writer, writer.file
    ensures writer.file.bytes == old(writer.file.bytes) + out && writer.pos == |writer.file.bytes|
    ensures aborted ==> mayAbort
    ensures |out| + |pending| <= |old(reader.Rest())| && WholeBlocks(|out|)
    ensures !aborted ==> |out| + |pending| == |old(reader.Rest())| && |pending| <= BLOCK
    ensures !aborted && old(reader.Rest()) != [] ==> pending != []
    ensures !aborted ==> HoldBack(c, key, start, old(reader.Rest())) == Prefixed(out, HoldBack(c, key, prev, pending))
  {
    hide HoldBack, Prefixed, Lawful, DecryptBlock, WholeBlocks;
    NoBlocks();
    ghost var all, rest: Bytes := reader.Rest(), reader.Rest();
    ghost var goal := HoldBack(c, key, start, rest);
    prev, pending, out := start, [], [];
    assert pending + rest == rest;
    PrefixedByNothing(goal);
    while true
      invariant writer.file.bytes == old(writer.file.bytes) + out && writer.pos == |writer.file.bytes|
      invariant |pending| <= BLOCK && rest == reader.Rest()
      invariant |out| + |pending| + |rest| == |all| && WholeBlocks(|out|)
      invariant |rest| < |all| ==> pending != []
      invariant goal == Prefixed(out, HoldBack(c, key, prev, pending + rest))
      decreases |rest|
    {
      var abort: bool := *;
      if mayAbort && abort {
        return true, prev, pending, out;
      }
      var chunk := reader.Read(CHUNK_SIZE);
      if chunk == [] {
        assert pending + rest == pending;
        return false, prev, pending, out;
      }
      CarryChunk(pending, rest, chunk);
      rest := rest[|chunk|..];
      var more;
      aborted, prev, pending, more := DecryptAllButOne(c, key, prev, pending + chunk, writer, mayAbort, rest);
      PrefixedTwice(out, more, HoldBack(c, key, prev, pending + rest));
      ConcatAssociates(old(writer.file.bytes), out, more);
      MoreBlocks(|out|, |more|);
      out := out + more;
      if aborted {
        return true, prev, pending, out;
      }
    }
  }

  /** What is held back at the end is one padded block, or an error. */
  lemma HoldBackEnds(c: Crypto, key: Bytes, prev: Block, pending: Bytes)
    requires |pending| <= BLOCK
    ensures HoldBack(c, key, prev, pending) ==
            if |pending| == BLOCK then Unpad(DecryptBlock(c, key, prev, pending)) else Err(Failed)
    ensures HoldBack(c, key, prev, pending).Ok? ==> |HoldBack(c, key, prev, pending).value| <= |pending|
  {
  }

  /** `decrypt_legacy_ciphertext_to_writer`: the second pass, then the padding of
      the block held back. */
  method DecryptToWriter(c: Crypto, file: DiskFile, h: LegacyHeader, mayAbort: bool)
    returns (r: Result<DecryptedTemp>, progress: nat)
    requires |file.bytes| >= BODY_OFFSET
    ensures r == Err(Aborted) ==> mayAbort
    ensures r != Err(Aborted) ==> var d := HoldBack(c, h.encKey, h.iv, file.bytes[BODY_OFFSET..]);
              r == if d.Ok? then Ok(DecryptedTemp(d.value, c.sha256(d.value), |d.value|, |file.bytes| - BODY_OFFSET))
                   else Err(Failed)
    ensures progress <= |file.bytes| - BODY_OFFSET && (r.Ok? ==> progress == r.value.plaintextBytes)
    ensures var n := |file.bytes| - BODY_OFFSET;
            r == Err(Failed) && n > 0 && n % BLOCK == 0 ==> progress == n - BLOCK
  {
    hide HoldBack, Unpad, DecryptBlock, Lawful;
    var reader := new Handle.Open(file);
    reader.SeekTo(BODY_OFFSET);
    assert reader.Rest() == file.bytes[BODY_OFFSET..];
    var temp := new DiskFile([]);
    var writer := new Handle.Open(temp);
    var aborted, prev, pending, hashed := DecryptReads(c, h.encKey, h.iv, reader, writer, mayAbort);
    progress := |hashed|;
    if aborted {
      return Err(Aborted), progress;
    }
    HoldBackEnds(c, h.encKey, prev, pending);
    if |pending| != BLOCK {
      return Err(Failed), progress;
    }
    var final := CheckPadding(DecryptBlock(c, h.encKey, prev, pending));
    if final.Err? {
      return Err(Failed), progress;
    }
    ghost var whole := hashed + final.value;
    assert temp.bytes == hashed;
    if final.value != [] {
      writer.WriteAll(final.value);
      hashed, progress := hashed + final.value, progress + |final.value|;
    }
    assert hashed == whole && temp.bytes == whole;
    return Ok(DecryptedTemp(temp.bytes, c.sha256(hashed), progress, |file.bytes| - BODY_OFFSET)), progress;
  }

  /** The cases of `Decode`, for use where its definition is hidden. */
  lemma DecodeByParts(c: Crypto, bytes: Bytes, password: Bytes)
    ensures |bytes| < BODY_OFFSET ==> Decode(c, bytes, password) == Err(Failed)
    ensures |bytes| >= BODY_OFFSET ==>
              var h := ParseHeader(c, bytes[..HEADER_LEN], bytes[HEADER_LEN..BODY_OFFSET], password);
              Decode(c, bytes, password) ==
                if h.Err? then Err(Failed)
                else if Mac(c, h.value, bytes[BODY_OFFSET..]) != h.value.mac then Err(Failed)
                else CbcDecode(c, h.value.encKey, h.value.iv, bytes[BODY_OFFSET..])
    ensures |bytes| < BODY_OFFSET ==> DecryptProgress(c, bytes, password) == 0
    ensures |bytes| >= BODY_OFFSET ==>
              var h := ParseHeader(c, bytes[..HEADER_LEN], bytes[HEADER_LEN..BODY_OFFSET], password);
              var n := |bytes| - BODY_OFFSET;
              DecryptProgress(c, bytes, password) ==
                if h.Err? then 0
                else if Mac(c, h.value, bytes[BODY_OFFSET..]) != h.value.mac || n == 0 || n % BLOCK != 0 then n
                else
                  var d := CbcDecode(c, h.value.encKey, h.value.iv, bytes[BODY_OFFSET..]);
                  if d.Ok? then n + |d.value| else n + n - BLOCK
  {
    hide CbcDecode, Mac;
  }

  /** `parse_legacy_header_from_file`. */
  method ReadHeader(c: Crypto, file: DiskFile, password: Bytes) returns (r: Result<LegacyHeader>)
    ensures r.Err? ==> r == Err(Failed)
    ensures |file.bytes| < BODY_OFFSET ==> r.Err?
    ensures |file.bytes| >= BODY_OFFSET ==>
              var h := ParseHeader(c, file.bytes[..HEADER_LEN], file.bytes[HEADER_LEN..BODY_OFFSET], password);
              if r.Ok? then h == r else h.Err?
  {
    hide ParseHeader;
    var reader := new Handle.Open(file);
    assert reader.Rest() == file.bytes;
    var header := reader.ReadExact(HEADER_LEN);
    if header.None? {
      return Err(Failed);
    }
    var mac := reader.ReadExact(MAC_LEN);
    if mac.None? {
      return Err(Failed);
    }
    assert mac.value == file.bytes[HEADER_LEN..BODY_OFFSET];
    r := ParseLegacyHeader(c, header.value, mac.value, password);
    return if r.Ok? then r else Err(Failed);
  }

  /** `decrypt_legacy_file_to_temp`: the streaming decoder agrees with the in-memory
      decoder on every file, and its progress adds up to ciphertext plus plaintext. */
  method DecryptFileToTemp(c: Crypto, file: DiskFile, password: Bytes, mayAbort: bool)
    returns (r: Result<DecryptedTemp>, progress: nat)
    ensures r == Err(Aborted) ==> mayAbort
    ensures r != Err(Aborted) ==> var d := Decode(c, file.bytes, password);
              r == if d.Ok? then Ok(DecryptedTemp(d.value, c.sha256(d.value), |d.value|, |file.bytes| - BODY_OFFSET))
                   else Err(Failed)
    ensures r.Ok? ==> progress == r.value.cipherBytes + r.value.plaintextBytes
    ensures r != Err(Aborted) ==> progress == DecryptProgress(c, file.bytes, password)
    ensures progress <= 2 * |file.bytes|
  {
    hide ParseHeader, CbcDecode, HoldBack, Mac, Decode, DecryptProgress, Lawful;
    progress := 0;
    DecodeByParts(c, file.bytes, password);
    var parsed := ReadHeader(c, file, password);
    if parsed.Err? {
      return Err(Failed), 0;
    }
    var verified, first := VerifyHmac(c, file, parsed.value, mayAbort);
    if verified.Err? {
      return Err(verified.error), first;
    }
    BadLengthIsRejected(c, parsed.value.encKey, parsed.value.iv, file.bytes[BODY_OFFSET..]);
    var second;
    r, second := DecryptToTemp(c, file, parsed.value, verified.value, mayAbort);
    progress := first + second;
  }

  /** `decrypt_legacy_ciphertext_to_temp`: the length check, then the second pass. */
  method DecryptToTemp(c: Crypto, file: DiskFile, h: LegacyHeader, cipherBytes: nat, mayAbort: bool)
    returns (r: Result<DecryptedTemp>, progress: nat)
    requires |file.bytes| == BODY_OFFSET + cipherBytes
    ensures r == Err(Aborted) ==> mayAbort
    ensures r != Err(Aborted) ==> var d := CbcDecode(c, h.encKey, h.iv, file.bytes[BODY_OFFSET..]);
              && r == (if d.Ok? then Ok(DecryptedTemp(d.value, c.sha256(d.value), |d.value|, cipherBytes))
                       else Err(Failed))
              && progress == if d.Ok? then |d.value|
                             else if cipherBytes == 0 || cipherBytes % BLOCK != 0 then 0 else cipherBytes - BLOCK
    ensures progress <= cipherBytes
  {
    hide CbcDecode, HoldBack, Lawful;
    HoldBackAgrees(c, h.encKey, h.iv, file.bytes[BODY_OFFSET..]);
    if cipherBytes == 0 || cipherBytes % BLOCK != 0 {
      BadLengthIsRejected(c, h.encKey, h.iv, file.bytes[BODY_OFFSET..]);
      return Err(Failed), 0;
    }
    r, progress := DecryptToWriter(c, file, h, mayAbort);
  }
}
