/** The framed AEAD body shared by DBENC002 to DBENC005 (src/dbenc/aead.rs,
    src/dbenc/argon2.rs, src/dbenc/pqe.rs, src/dbenc/mod.rs). */
module FramedAead {
  import opened Prelude
  import opened Disk
  import opened Primitives
  import opened Formats

  const PREFIX_LEN: nat := 24
  const OVERHEAD: nat := 20

  /** What encrypting or decrypting a body needs from the header. */
  datatype BodyKey = BodyKey(format: Format, key: Bytes, prefix: Bytes) {
    predicate Valid() {
      format != DbEnc001 && |prefix| == PREFIX_LEN
    }
  }

  // ── Frames ──────────────────────────────────────────────────────────────────

  /** `make_aead_nonce`, cut to the width the cipher takes: the little-endian
      index replaces bytes 4..12 of a GCM nonce or bytes 16..24 of an XChaCha20
      nonce. DBENC004 and DBENC005 use the XChaCha20 layout. */
  function Nonce(k: BodyKey, index: nat): (n: Bytes)
    requires k.Valid()
    ensures |n| == if k.format == DbEnc002 then 12 else 24
  {
    if k.format == DbEnc002 then k.prefix[..4] + Le(index, 8)
    else k.prefix[..16] + Le(index, 8)
  }

  /** `make_aead_aad`: the index is cut to 32 bits. */
  function Aad(k: BodyKey, index: nat, length: nat): (a: Bytes)
    ensures |a| == 16
  {
    Magic(k.format) + Le(length, 4) + Le(index % TWO32, 4)
  }

  function Cipher(c: Crypto, k: BodyKey): (a: Aead)
    ensures LawfulAead(a)
  {
    if k.format == DbEnc002 then c.gcm else c.xchacha
  }

  function Frame(c: Crypto, k: BodyKey, index: nat, chunk: Bytes): (f: Bytes)
    requires k.Valid()
    ensures |f| == |chunk| + OVERHEAD
  {
    Le(|chunk|, 4) + Cipher(c, k).seal(k.key, Nonce(k, index), Aad(k, index, |chunk|), chunk)
  }

  function Encode(c: Crypto, k: BodyKey, index: nat, chunks: seq<Bytes>): Bytes
    requires k.Valid()
    decreases |chunks|
  {
    if chunks == [] then []
    else Frame(c, k, index, chunks[0]) + Encode(c, k, index + 1, chunks[1..])
  }

  /** The chunks of a body, or failure. Fewer than four bytes left over end it. */
  function Decode(c: Crypto, k: BodyKey, index: nat, body: Bytes): Result<seq<Bytes>>
    requires k.Valid()
    decreases |body|
  {
    if |body| < 4 then Ok([])
    else
      var length := FromLe(body[..4]);
      if |body| < length + OVERHEAD then Err(Failed)
      else
        var unsealed := Cipher(c, k).open(k.key, Nonce(k, index), Aad(k, index, length), body[4..length + OVERHEAD]);
        if unsealed.None? then Err(Failed)
        else Preceded([unsealed.value], Decode(c, k, index + 1, body[length + OVERHEAD..]))
  }

  /** How far decoding gets: the plaintext bytes of the frames that open, and the body
      bytes it leaves unread, whether it then succeeds or fails. */
  datatype Trail = Trail(unsealed: nat, unread: nat)

  function TrailOf(c: Crypto, k: BodyKey, index: nat, body: Bytes): (t: Trail)
    requires k.Valid()
    ensures t.unsealed + t.unread <= |body|
    decreases |body|
  {
    if |body| < 4 then Trail(0, |body|)
    else
      var length := FromLe(body[..4]);
      if |body| < length + OVERHEAD then Trail(0, |body|)
      else
        var unsealed := Cipher(c, k).open(k.key, Nonce(k, index), Aad(k, index, length), body[4..length + OVERHEAD]);
        if unsealed.None? then Trail(0, |body| - length - OVERHEAD)
        else
          UnsealedLength(c, k, index, length, body[4..length + OVERHEAD]);
          var rest := TrailOf(c, k, index + 1, body[length + OVERHEAD..]);
          Trail(length + rest.unsealed, rest.unread)
  }

  lemma UnsealedLength(c: Crypto, k: BodyKey, index: nat, length: nat, sealed: Bytes)
    requires k.Valid() && |sealed| == length + TAG
    ensures var unsealed := Cipher(c, k).open(k.key, Nonce(k, index), Aad(k, index, length), sealed);
            unsealed.Some? ==> |unsealed.value| == length
  {
    hide Nonce, Aad;
    var unsealed := Cipher(c, k).open(k.key, Nonce(k, index), Aad(k, index, length), sealed);
    assert unsealed.Some? ==>
        sealed == Cipher(c, k).seal(k.key, Nonce(k, index), Aad(k, index, length), unsealed.value);
  }

  /** The progress of decoding a body: every byte read, every plaintext byte written. */
  function BodyProgress(c: Crypto, k: BodyKey, index: nat, body: Bytes): nat
    requires k.Valid()
  {
    var t := TrailOf(c, k, index, body);
    |body| - t.unread + t.unsealed
  }

  function Preceded(front: seq<Bytes>, r: Result<seq<Bytes>>): Result<seq<Bytes>> {
    match r
    case Ok(back) => Ok(front + back)
    case Err(e) => Err(e)
  }

  function Flatten(chunks: seq<Bytes>): Bytes {
    if chunks == [] then [] else chunks[0] + Flatten(chunks[1..])
  }

  ghost predicate FitsU32(chunks: seq<Bytes>) {
    forall i :: 0 <= i < |chunks| ==> |chunks[i]| < TWO32
  }

  /** What one encryption run may produce: non-empty chunks of at most a buffer. */
  ghost predicate IsChunking(chunks: seq<Bytes>, plain: Bytes) {
    && Flatten(chunks) == plain
    && forall i :: 0 <= i < |chunks| ==> 0 < |chunks[i]| <= CHUNK_SIZE
  }

  // ── Laws ────────────────────────────────────────────────────────────────────

  /** Decoding inverts encoding, and ignores fewer than four trailing bytes. */
  lemma {:induction false} DecodeInvertsEncode(c: Crypto, k: BodyKey, index: nat, chunks: seq<Bytes>, junk: Bytes)
    requires k.Valid() && FitsU32(chunks) && |junk| < 4
    ensures Decode(c, k, index, Encode(c, k, index, chunks) + junk) == Ok(chunks)
    decreases |chunks|
  {
    hide Decode, Frame, Nonce, Aad, Cipher, Lawful;
    if chunks == [] {
      assert [] + junk == junk;
      DecodeEnds(c, k, index, junk);
    } else {
      var rest := Encode(c, k, index + 1, chunks[1..]) + junk;
      var frame := Frame(c, k, index, chunks[0]);
      var body := Encode(c, k, index, chunks) + junk;
      ConcatAssociates(frame, Encode(c, k, index + 1, chunks[1..]), junk);
      assert body == frame + rest;
      DecodeInvertsEncode(c, k, index + 1, chunks[1..], junk);
      DecodeOneFrame(c, k, index, chunks[0], rest);
      assert [chunks[0]] + chunks[1..] == chunks;
    }
  }

  lemma DecodeOneFrame(c: Crypto, k: BodyKey, index: nat, chunk: Bytes, rest: Bytes)
    requires k.Valid() && |chunk| < TWO32
    ensures Decode(c, k, index, Frame(c, k, index, chunk) + rest)
         == Preceded([chunk], Decode(c, k, index + 1, rest))
  {
    var frame := Frame(c, k, index, chunk);
    var body := frame + rest;
    Pow256Values();
    LeRoundTrip(|chunk|, 4);
    assert body[..4] == Le(|chunk|, 4);
    assert body[4..|chunk| + OVERHEAD] == Cipher(c, k).seal(k.key, Nonce(k, index), Aad(k, index, |chunk|), chunk);
    assert body[|chunk| + OVERHEAD..] == rest;
  }

  /** Unique decoding: an accepted body is the encoding of the returned chunks,
      with indices counted up from `index`, plus fewer than four bytes. */
  lemma {:induction false} EncodeInvertsDecode(c: Crypto, k: BodyKey, index: nat, body: Bytes)
    requires k.Valid() && Decode(c, k, index, body).Ok?
    ensures var chunks := Decode(c, k, index, body).value;
            FitsU32(chunks) && Encode(c, k, index, chunks) <= body && |body| - |Encode(c, k, index, chunks)| < 4
    decreases |body|
  {
    hide Decode, Frame, Cipher, Nonce, Aad, Lawful;
    if |body| < 4 {
      DecodeEnds(c, k, index, body);
    } else {
      var length := FromLe(body[..4]);
      DecodeContinues(c, k, index, body);
      var rest := body[length + OVERHEAD..];
      EncodeInvertsDecode(c, k, index + 1, rest);
      AcceptedFrame(c, k, index, body);
      var chunks, tail := Decode(c, k, index, body).value, Decode(c, k, index + 1, rest).value;
      assert chunks == [chunks[0]] + tail && chunks[1..] == tail;
      assert body == Frame(c, k, index, chunks[0]) + rest;
      PrefixedByBoth(Frame(c, k, index, chunks[0]), Encode(c, k, index + 1, tail), rest);
    }
  }

  lemma PrefixedByBoth(front: Bytes, a: Bytes, rest: Bytes)
    requires a <= rest
    ensures front + a <= front + rest
  {
  }

  /** The first frame of an accepted body is the sealing of its first chunk. */
  lemma AcceptedFrame(c: Crypto, k: BodyKey, index: nat, body: Bytes)
    requires k.Valid() && |body| >= 4 && Decode(c, k, index, body).Ok?
    ensures var chunks := Decode(c, k, index, body).value;
            && |chunks| > 0 && |chunks[0]| == FromLe(body[..4]) < TWO32
            && body[..|chunks[0]| + OVERHEAD] == Frame(c, k, index, chunks[0])
  {
    var length := FromLe(body[..4]);
    var sealed := body[4..length + OVERHEAD];
    var chunk := Cipher(c, k).open(k.key, Nonce(k, index), Aad(k, index, length), sealed).value;
    assert sealed == Cipher(c, k).seal(k.key, Nonce(k, index), Aad(k, index, length), chunk);
    Pow256Values();
    FromLeRoundTrip(body[..4]);
    assert body[..length + OVERHEAD] == body[..4] + sealed;
  }

  /** A body grows by exactly twenty bytes a frame. */
  lemma {:induction false} EncodedLength(c: Crypto, k: BodyKey, index: nat, chunks: seq<Bytes>)
    requires k.Valid()
    ensures |Encode(c, k, index, chunks)| == |Flatten(chunks)| + OVERHEAD * |chunks|
    decreases |chunks|
  {
    if chunks != [] {
      EncodedLength(c, k, index + 1, chunks[1..]);
    }
  }

  /** Between ceil(n / 2^20) and n frames carry n bytes. */
  lemma {:induction false} FrameCount(chunks: seq<Bytes>, plain: Bytes)
    requires IsChunking(chunks, plain)
    ensures (|plain| + CHUNK_SIZE - 1) / CHUNK_SIZE <= |chunks| <= |plain|
    decreases |chunks|
  {
    if chunks != [] {
      FrameCount(chunks[1..], Flatten(chunks[1..]));
    }
  }

  /** No nonce is used twice in one run, although the index in the AAD wraps. */
  lemma NoncesAreDistinct(k: BodyKey, i: nat, j: nat)
    requires k.Valid() && i < TWO64 && j < TWO64 && i != j
    ensures Nonce(k, i) != Nonce(k, j)
  {
    var at := if k.format == DbEnc002 then 4 else 16;
    assert Nonce(k, i)[at..] == Le(i, 8) && Nonce(k, j)[at..] == Le(j, 8);
    Pow256Values();
    LeRoundTrip(i, 8);
    LeRoundTrip(j, 8);
  }

  /** The AAD tells format, frame length and index apart, the index only modulo 2^32:
      alone it would not keep frames apart. */
  lemma AadIff(k: BodyKey, i: nat, n: nat, l: BodyKey, j: nat, m: nat)
    requires n < TWO32 && m < TWO32
    ensures Aad(k, i, n) == Aad(l, j, m) <==> k.format == l.format && n == m && i % TWO32 == j % TWO32
  {
    var a, b := Aad(k, i, n), Aad(l, j, m);
    assert a[..8] == Magic(k.format) && b[..8] == Magic(l.format);
    assert a[8..12] == Le(n, 4) && b[8..12] == Le(m, 4);
    assert a[12..] == Le(i % TWO32, 4) && b[12..] == Le(j % TWO32, 4);
    hide Le, Magic, Aad;
    FieldIsInjective(n, m);
    FieldIsInjective(i % TWO32, j % TWO32);
    if Magic(k.format) == Magic(l.format) {
      MagicIsInjective(k.format, l.format);
    }
    assert a == a[..8] + a[8..12] + a[12..] && b == b[..8] + b[8..12] + b[12..];
  }

  lemma FieldIsInjective(x: nat, y: nat)
    requires x < TWO32 && y < TWO32
    ensures Le(x, 4) == Le(y, 4) <==> x == y
  {
    Pow256Values();
    LeRoundTrip(x, 4);
    LeRoundTrip(y, 4);
  }

  // ── Which cipher, and where the bytes lie ───────────────────────────────────

  /** Two libraries agree on what a format seals and opens with: AES-GCM for DBENC002,
      XChaCha20-Poly1305 for the others. */
  ghost predicate SameCipher(c: Crypto, d: Crypto, f: Format) {
    if f == DbEnc002 then c.gcm == d.gcm else c.xchacha == d.xchacha
  }

  /** That cipher is all of a library that a body depends on, written or read. */
  lemma {:induction false} OnlyItsCipherWrites(c: Crypto, d: Crypto, k: BodyKey, index: nat, chunks: seq<Bytes>)
    requires k.Valid() && SameCipher(c, d, k.format)
    ensures Encode(c, k, index, chunks) == Encode(d, k, index, chunks)
    decreases |chunks|
  {
    hide Nonce, Aad, Lawful;
    if chunks != [] {
      OnlyItsCipherWrites(c, d, k, index + 1, chunks[1..]);
    }
  }

  lemma {:induction false} OnlyItsCipherReads(c: Crypto, d: Crypto, k: BodyKey, index: nat, body: Bytes)
    requires k.Valid() && SameCipher(c, d, k.format)
    ensures Decode(c, k, index, body) == Decode(d, k, index, body)
    ensures TrailOf(c, k, index, body) == TrailOf(d, k, index, body)
    decreases |body|
  {
    hide Nonce, Aad, Lawful;
    if |body| >= 4 && |body| >= FromLe(body[..4]) + OVERHEAD {
      OnlyItsCipherReads(c, d, k, index + 1, body[FromLe(body[..4]) + OVERHEAD..]);
    }
  }

  /** Where the frame of chunk i starts in a body. */
  function FrameStart(chunks: seq<Bytes>, i: nat): nat
    requires i <= |chunks|
    decreases i
  {
    if i == 0 then 0 else |chunks[0]| + OVERHEAD + FrameStart(chunks[1..], i - 1)
  }

  lemma {:induction false} FrameAt(c: Crypto, k: BodyKey, index: nat, chunks: seq<Bytes>, i: nat)
    requires k.Valid() && i < |chunks|
    ensures var at, body := FrameStart(chunks, i), Encode(c, k, index, chunks);
            && at + |chunks[i]| + OVERHEAD <= |body|
            && body[at..at + |chunks[i]| + OVERHEAD] == Frame(c, k, index + i, chunks[i])
    decreases i
  {
    hide Frame, Lawful;
    var first, rest := Frame(c, k, index, chunks[0]), Encode(c, k, index + 1, chunks[1..]);
    if i > 0 {
      FrameAt(c, k, index + 1, chunks[1..], i - 1);
      var at, n := FrameStart(chunks[1..], i - 1), |chunks[i]| + OVERHEAD;
      assert (first + rest)[|first| + at..|first| + at + n] == rest[at..at + n];
    }
  }

  /** The documented frame: chunk i of a body is its length, least significant byte
      first, and the chunk sealed by the cipher of the format under the nonce and AAD of
      index i; nonce and AAD field by field. */
  lemma DocumentedFrame(c: Crypto, k: BodyKey, chunks: seq<Bytes>, i: nat) returns (nonce: Bytes, aad: Bytes)
    requires k.Valid() && i < |chunks| && |chunks[i]| < TWO32 && i < TWO64
    ensures var at, n, body := FrameStart(chunks, i), |chunks[i]|, Encode(c, k, 0, chunks);
            && at + 20 + n <= |body| && FromLe(body[at..at + 4]) == n
            && (k.format == DbEnc002 ==> body[at + 4..at + 20 + n] == c.gcm.seal(k.key, nonce, aad, chunks[i]))
            && (k.format != DbEnc002 ==> body[at + 4..at + 20 + n] == c.xchacha.seal(k.key, nonce, aad, chunks[i]))
    ensures if k.format == DbEnc002
            then |nonce| == 12 && nonce[..4] == k.prefix[..4] && FromLe(nonce[4..12]) == i
            else |nonce| == 24 && nonce[..16] == k.prefix[..16] && FromLe(nonce[16..24]) == i
    ensures |aad| == 16 && aad[..8] == Magic(k.format) && FromLe(aad[8..12]) == |chunks[i]|
    ensures FromLe(aad[12..16]) == i % TWO32
  {
    hide Lawful, Encode, FrameStart, Frame, Nonce, Aad, Cipher, Magic, FromLe;
    var chunk := chunks[i];
    nonce, aad := Nonce(k, i), Aad(k, i, |chunk|);
    FrameAt(c, k, 0, chunks, i);
    var at, n, body := FrameStart(chunks, i), |chunk|, Encode(c, k, 0, chunks);
    var frame := Frame(c, k, i, chunk);
    SliceOfSlice(body, at, at + 20 + n, 0, 4);
    SliceOfSlice(body, at, at + 20 + n, 4, 20 + n);
    FrameParts(c, k, i, chunk);
    NonceParts(k, i);
    AadParts(k, i, n);
  }

  lemma FrameParts(c: Crypto, k: BodyKey, i: nat, chunk: Bytes)
    requires k.Valid() && |chunk| < TWO32
    ensures var frame := Frame(c, k, i, chunk);
            && FromLe(frame[0..4]) == |chunk|
            && frame[4..20 + |chunk|] ==
                 (if k.format == DbEnc002 then c.gcm else c.xchacha).seal(k.key, Nonce(k, i), Aad(k, i, |chunk|), chunk)
  {
    hide Nonce, Aad, Le;
    var frame := Frame(c, k, i, chunk);
    assert frame[0..4] == Le(|chunk|, 4);
    Pow256Values();
    LeRoundTrip(|chunk|, 4);
  }

  lemma NonceParts(k: BodyKey, i: nat)
    requires k.Valid() && i < TWO64
    ensures if k.format == DbEnc002
            then Nonce(k, i)[..4] == k.prefix[..4] && FromLe(Nonce(k, i)[4..12]) == i
            else Nonce(k, i)[..16] == k.prefix[..16] && FromLe(Nonce(k, i)[16..24]) == i
  {
    hide Le;
    Pow256Values();
    LeRoundTrip(i, 8);
    var n := Nonce(k, i);
    if k.format == DbEnc002 {
      assert n[..4] == k.prefix[..4] && n[4..12] == Le(i, 8);
    } else {
      assert n[..16] == k.prefix[..16] && n[16..24] == Le(i, 8);
    }
  }

  lemma AadParts(k: BodyKey, i: nat, n: nat)
    requires n < TWO32
    ensures var a := Aad(k, i, n);
            a[..8] == Magic(k.format) && FromLe(a[8..12]) == n && FromLe(a[12..16]) == i % TWO32
  {
    hide Le, Magic;
    Pow256Values();
    LeRoundTrip(n, 4);
    LeRoundTrip(i % TWO32, 4);
    var a := Aad(k, i, n);
    assert a[..8] == Magic(k.format) && a[8..12] == Le(n, 4) && a[12..16] == Le(i % TWO32, 4);
  }

  lemma EncodeStep(c: Crypto, k: BodyKey, index: nat, first: Bytes, rest: seq<Bytes>)
    requires k.Valid()
    ensures Encode(c, k, index, [first] + rest) == Frame(c, k, index, first) + Encode(c, k, index + 1, rest)
  {
    assert ([first] + rest)[1..] == rest;
  }

  lemma {:induction false} EncodeAppend(c: Crypto, k: BodyKey, index: nat, chunks: seq<Bytes>, last: Bytes)
    requires k.Valid()
    ensures Encode(c, k, index, chunks + [last])
         == Encode(c, k, index, chunks) + Frame(c, k, index + |chunks|, last)
    decreases |chunks|
  {
    hide Encode, Frame, Lawful;
    if chunks == [] {
      assert [] + [last] == [last] + [];
      EncodeStep(c, k, index, last, []);
      NoFrames(c, k, index);
      NoFrames(c, k, index + 1);
    } else {
      var first, rest := chunks[0], chunks[1..];
      assert chunks == [first] + rest && chunks + [last] == [first] + (rest + [last]);
      EncodeStep(c, k, index, first, rest);
      EncodeStep(c, k, index, first, rest + [last]);
      EncodeAppend(c, k, index + 1, rest, last);
      ConcatAssociates(Frame(c, k, index, first), Encode(c, k, index + 1, rest),
                       Frame(c, k, index + |chunks|, last));
    }
  }

  lemma NoFrames(c: Crypto, k: BodyKey, index: nat)
    requires k.Valid()
    ensures Encode(c, k, index, []) == []
  {
  }

  lemma {:induction false} FlattenAppend(chunks: seq<Bytes>, last: Bytes)
    ensures Flatten(chunks + [last]) == Flatten(chunks) + last
  {
    if chunks == [] {
      assert Flatten([last][1..]) == [];
    } else {
      FlattenAppend(chunks[1..], last);
      assert (chunks + [last])[1..] == chunks[1..] + [last];
    }
  }

  lemma PrecededTwice(a: seq<Bytes>, b: seq<Bytes>, r: Result<seq<Bytes>>)
    ensures Preceded(a, Preceded(b, r)) == Preceded(a + b, r)
  {
    if r.Ok? {
      ConcatAssociates(a, b, r.value);
    }
  }

  // ── The code ────────────────────────────────────────────────────────────────

  /** The encryption loop: one frame a read. */
  method EncryptBody(c: Crypto, k: BodyKey, source: Handle, destination: Handle)
    returns (total: nat, ghost chunks: seq<Bytes>)
    requires k.Valid()
    requires source != destination && source.file != destination.file
    requires destination.pos == |destination.file.bytes|
    modifies source, destination, destination.file
    ensures IsChunking(chunks, old(source.Rest()))
    ensures destination.file.bytes == old(destination.file.bytes) + Encode(c, k, 0, chunks)
    ensures total == |Encode(c, k, 0, chunks)|
  {
    hide Encode, Flatten, Frame, Lawful, Le;
    total, chunks := 0, [];
    var chunkIndex := 0;
    ghost var rest, out: Bytes := source.Rest(), [];
    NoFrames(c, k, 0);
    FlattenNothing();
    while true
      invariant rest == source.Rest() && Flatten(chunks) + rest == old(source.Rest())
      invariant forall i :: 0 <= i < |chunks| ==> 0 < |chunks[i]| <= CHUNK_SIZE
      invariant chunkIndex == |chunks| && out == Encode(c, k, 0, chunks) && total == |out|
      invariant destination.file.bytes == old(destination.file.bytes) + out
      invariant destination.pos == |destination.file.bytes|
      decreases |rest|
    {
      var chunk := source.Read(CHUNK_SIZE);
      if chunk == [] {
        assert Flatten(chunks) + rest == Flatten(chunks);
        return;
      }
      var size := WriteFrame(c, k, chunkIndex, chunk, destination);
      CarryChunk(Flatten(chunks), rest, chunk);
      FlattenAppend(chunks, chunk);
      EncodeAppend(c, k, 0, chunks, chunk);
      ConcatAssociates(old(destination.file.bytes), out, Frame(c, k, chunkIndex, chunk));
      rest, out := rest[|chunk|..], out + Frame(c, k, chunkIndex, chunk);
      total, chunkIndex, chunks := total + size, chunkIndex + 1, chunks + [chunk];
    }
  }

  lemma FlattenNothing()
    ensures Flatten([]) == []
  {
  }

  /** `make_aead_nonce`, and the cut its callers make. */
  method MakeNonce(k: BodyKey, index: nat) returns (nonce: Bytes)
    requires k.Valid()
    ensures nonce == Nonce(k, index)
  {
    hide Le;
    var buf := new Byte[PREFIX_LEN](i requires 0 <= i < PREFIX_LEN => k.prefix[i]);
    assert buf[..] == k.prefix;
    if k.format == DbEnc002 {
      CopyInto(buf, 4, Le(index, 8));
      nonce := buf[..12];
      assert nonce == k.prefix[..4] + Le(index, 8);
    } else {
      CopyInto(buf, 16, Le(index, 8));
      nonce := buf[..];
      assert nonce == k.prefix[..16] + Le(index, 8);
    }
  }

  /** `make_aead_aad`. */
  method MakeAad(k: BodyKey, index: nat, length: nat) returns (aad: Bytes)
    ensures aad == Aad(k, index, length)
  {
    hide Le, Magic;
    var buf := new Byte[16](_ => 0);
    CopyInto(buf, 0, Magic(k.format));
    CopyInto(buf, 8, Le(length, 4));
    CopyInto(buf, 12, Le(index % TWO32, 4));
    aad := buf[..];
    assert aad == Magic(k.format) + Le(length, 4) + Le(index % TWO32, 4);
  }

  /** Seals one chunk and writes it as `write_aead_chunk` does. */
  method WriteFrame(c: Crypto, k: BodyKey, index: nat, chunk: Bytes, destination: Handle) returns (size: nat)
    requires k.Valid() && destination.pos == |destination.file.bytes|
    modifies destination, destination.file
    ensures destination.file.bytes == old(destination.file.bytes) + Frame(c, k, index, chunk)
    ensures destination.pos == |destination.file.bytes|
    ensures size == |Frame(c, k, index, chunk)|
  {
    hide Nonce, Aad, Cipher;
    var nonce := MakeNonce(k, index);
    var aad := MakeAad(k, index, |chunk|);
    var sealed := Cipher(c, k).seal(k.key, nonce, aad, chunk);
    destination.WriteAll(Le(|chunk|, 4));
    destination.WriteAll(sealed);
    ConcatAssociates(old(destination.file.bytes), Le(|chunk|, 4), sealed);
    size := |sealed| + 4;
  }

  /** `read` counts the bytes of a frame that was read but did not open. */
  datatype FrameRead = EndOfBody | BadFrame(read: nat) | Opened(plaintext: Bytes)

  /** Reads and opens one frame; fewer than four bytes left mean the end. */
  method ReadFrame(c: Crypto, k: BodyKey, index: nat, reader: Handle) returns (f: FrameRead)
    requires k.Valid()
    modifies reader
    ensures match f
      case EndOfBody =>
        Decode(c, k, index, old(reader.Rest())) == Ok([]) && BodyProgress(c, k, index, old(reader.Rest())) == 0
      case BadFrame(read) =>
        && Decode(c, k, index, old(reader.Rest())) == Err(Failed) && read <= |old(reader.Rest())|
        && BodyProgress(c, k, index, old(reader.Rest())) == read
      case Opened(p) =>
        && Decode(c, k, index, old(reader.Rest())) == Preceded([p], Decode(c, k, index + 1, reader.Rest()))
        && |old(reader.Rest())| == |p| + OVERHEAD + |reader.Rest()|
        && BodyProgress(c, k, index, old(reader.Rest())) ==
             OVERHEAD + 2 * |p| + BodyProgress(c, k, index + 1, reader.Rest())
  {
    hide Decode, Nonce, Aad, Cipher, BodyProgress;
    ghost var rest := reader.Rest();
    var lenBuf := reader.ReadExact(4);
    if lenBuf.None? {
      DecodeEnds(c, k, index, rest);
      return EndOfBody;
    }
    var length := FromLe(lenBuf.value);
    DecodeContinues(c, k, index, rest);
    var sealed := reader.ReadExact(length + TAG);
    if sealed.None? {
      return BadFrame(0);
    }
    assert sealed.value == rest[4..length + OVERHEAD] && reader.Rest() == rest[length + OVERHEAD..];
    var nonce := MakeNonce(k, index);
    var aad := MakeAad(k, index, length);
    var plaintext := Cipher(c, k).open(k.key, nonce, aad, sealed.value);
    UnsealedLength(c, k, index, length, sealed.value);
    return if plaintext.None? then BadFrame(length + OVERHEAD) else Opened(plaintext.value);
  }

  /** The decryption loop: opens frames in order, writing each plaintext, and
      counts every byte read and written as progress. */
  method DecryptBody(c: Crypto, k: BodyKey, reader: Handle, mayAbort: bool)
    returns (r: Result<DecryptedTemp>, progress: nat)
    requires k.Valid()
    modifies reader
    ensures r == Err(Aborted) ==> mayAbort
    ensures r != Err(Aborted) ==> var d := Decode(c, k, 0, old(reader.Rest()));
              r == if d.Ok? then Ok(Decrypted(c, d.value)) else Err(Failed)
    ensures r.Ok? ==> progress == r.value.cipherBytes + r.value.plaintextBytes
    ensures r.Ok? ==> r.value.cipherBytes <= |old(reader.Rest())|
    ensures r != Err(Aborted) ==> progress == BodyProgress(c, k, 0, old(reader.Rest()))
    ensures progress <= 2 * |old(reader.Rest())|
  {
    hide Decode, Flatten, Lawful, BodyProgress;
    var temp := new DiskFile([]);
    var writer := new Handle.Open(temp);
    ghost var goal := Decode(c, k, 0, reader.Rest());
    ghost var work := BodyProgress(c, k, 0, reader.Rest());
    ghost var chunks: seq<Bytes> := [];
    var chunkIndex, cipherBytes := 0, 0;
    progress := 0;
    NoFrames(c, k, 0);
    FlattenNothing();
    PrecededByNothing(goal);
    while true
      invariant goal == Preceded(chunks, Decode(c, k, chunkIndex, reader.Rest()))
      invariant chunkIndex == |chunks| && temp.bytes == Flatten(chunks) && writer.pos == |temp.bytes|
      invariant cipherBytes == |temp.bytes| + OVERHEAD * |chunks| && progress == cipherBytes + |temp.bytes|
      invariant cipherBytes + |reader.Rest()| == |old(reader.Rest())|
      invariant work == progress + BodyProgress(c, k, chunkIndex, reader.Rest())
      decreases |reader.Rest()|
    {
      var abort: bool := *;
      if mayAbort && abort {
        return Err(Aborted), progress;
      }
      var frame := ReadFrame(c, k, chunkIndex, reader);
      match frame {
        case EndOfBody =>
          assert chunks + [] == chunks;
          return Ok(DecryptedTemp(temp.bytes, c.sha256(temp.bytes), |temp.bytes|, cipherBytes)), progress;
        case BadFrame(read) =>
          return Err(Failed), progress + read;
        case Opened(plaintext) =>
          FlattenAppend(chunks, plaintext);
          PrecededTwice(chunks, [plaintext], Decode(c, k, chunkIndex + 1, reader.Rest()));
          writer.WriteAll(plaintext);
          cipherBytes, progress := cipherBytes + |plaintext| + OVERHEAD, progress + OVERHEAD + 2 * |plaintext|;
          chunks, chunkIndex := chunks + [plaintext], chunkIndex + 1;
      }
    }
  }

  lemma PrecededByNothing(r: Result<seq<Bytes>>)
    ensures Preceded([], r) == r
  {
    if r.Ok? {
      assert [] + r.value == r.value;
    }
  }

  /** What the decryption loop reports for the chunks it unsealed. */
  function Decrypted(c: Crypto, chunks: seq<Bytes>): DecryptedTemp {
    var plain := Flatten(chunks);
    DecryptedTemp(plain, c.sha256(plain), |plain|, |plain| + OVERHEAD * |chunks|)
  }

  lemma DecodeEnds(c: Crypto, k: BodyKey, index: nat, body: Bytes)
    requires k.Valid() && |body| < 4
    ensures Decode(c, k, index, body) == Ok([]) && BodyProgress(c, k, index, body) == 0
  {
  }

  lemma DecodeContinues(c: Crypto, k: BodyKey, index: nat, body: Bytes)
    requires k.Valid() && |body| >= 4
    ensures var length := FromLe(body[..4]);
            Decode(c, k, index, body) ==
              if |body| < length + OVERHEAD then Err(Failed)
              else
                var sealed := body[4..length + OVERHEAD];
                var unsealed := Cipher(c, k).open(k.key, Nonce(k, index), Aad(k, index, length), sealed);
                if unsealed.None? then Err(Failed)
                else Preceded([unsealed.value], Decode(c, k, index + 1, body[length + OVERHEAD..]))
    ensures var length := FromLe(body[..4]);
            BodyProgress(c, k, index, body) ==
              if |body| < length + OVERHEAD then 0
              else
                var sealed := body[4..length + OVERHEAD];
                var unsealed := Cipher(c, k).open(k.key, Nonce(k, index), Aad(k, index, length), sealed);
                length + OVERHEAD
                + if unsealed.None? then 0 else length + BodyProgress(c, k, index + 1, body[length + OVERHEAD..])
  {
    hide Nonce, Aad, Cipher, Lawful, Preceded;
  }

  /** An accepted body is opened throughout. */
  lemma {:induction false} AcceptedTrail(c: Crypto, k: BodyKey, index: nat, body: Bytes)
    requires k.Valid() && Decode(c, k, index, body).Ok?
    ensures var chunks := Decode(c, k, index, body).value;
            var t := TrailOf(c, k, index, body);
            t.unsealed == |Flatten(chunks)| && t.unsealed + OVERHEAD * |chunks| + t.unread == |body|
    decreases |body|
  {
    hide Nonce, Aad, Cipher, Lawful;
    if |body| >= 4 {
      var length := FromLe(body[..4]);
      var unsealed := Cipher(c, k).open(k.key, Nonce(k, index), Aad(k, index, length), body[4..length + OVERHEAD]);
      UnsealedLength(c, k, index, length, body[4..length + OVERHEAD]);
      var rest := body[length + OVERHEAD..];
      AcceptedTrail(c, k, index + 1, rest);
      var tail := Decode(c, k, index + 1, rest).value;
      assert Decode(c, k, index, body).value == [unsealed.value] + tail;
      assert ([unsealed.value] + tail)[1..] == tail;
    }
  }
}
