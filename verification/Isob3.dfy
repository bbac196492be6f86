/** ISOB3 records (src/blake3iso_core/mod.rs): a digest of an ISO image kept in the
    application-use field of its volume descriptor (section 8.4.32 of ECMA-119). */
module Isob3 {
  import opened Prelude
  import opened Primitives
  import opened Formats

  const SECTOR: nat := 2048
  const PVD_OFFSET: nat := 32768
  const PVD_SIZE: nat := 2048
  const APP_OFFSET: nat := 0x8373
  const APP_SIZE: nat := 512
  const APP_END: nat := 0x8573
  const FILL: Byte := 0x20

  datatype CheckOutcome = Valid(digest: Bytes) | Invalid(expected: Bytes, actual: Bytes) | Missing

  // ── Meaning ─────────────────────────────────────────────────────────────────

  predicate InArea(i: int) {
    APP_OFFSET <= i < APP_END
  }

  /** The piece of an image found at `offset`, with the application-use area blanked. */
  function NormalizeAt(piece: Bytes, offset: nat): (n: Bytes)
    ensures |n| == |piece|
  {
    seq(|piece|, i requires 0 <= i < |piece| => if InArea(offset + i) then FILL else piece[i])
  }

  function Normalize(image: Bytes): (n: Bytes)
    ensures |n| == |image|
  {
    NormalizeAt(image, 0)
  }

  predicate ValidPvd(image: Bytes) {
    && |image| >= PVD_OFFSET + 7
    && image[PVD_OFFSET] == 1
    && image[PVD_OFFSET + 1..PVD_OFFSET + 6] == Ascii("CD001")
    && image[PVD_OFFSET + 6] == 1
  }

  function Area(image: Bytes): (a: Bytes)
    requires |image| >= APP_END
    ensures |a| == APP_SIZE
  {
    image[APP_OFFSET..APP_END]
  }

  function WithArea(image: Bytes, area: Bytes): (r: Bytes)
    requires |image| >= APP_END && |area| == APP_SIZE
    ensures |r| == |image| && Area(r) == area
    ensures forall i :: 0 <= i < |image| && !InArea(i) ==> r[i] == image[i]
  {
    image[..APP_OFFSET] + area + image[APP_END..]
  }

  const RECORD_MAGIC: Bytes := Ascii("ISOB3APP")

  /** `read_metadata_from_appdata`. */
  function ReadMetadata(area: Bytes): (d: Option<Bytes>)
    requires |area| == APP_SIZE
    ensures d.Some? ==> |d.value| == 32
  {
    if area[..8] != RECORD_MAGIC then None
    else if area[8] != 1 || area[9] != 1 then None
    else if FromLe(area[10..12]) != 32 then None
    else Some(area[16..48])
  }

  /** The record `implant_iso` writes. */
  function RecordFor(digest: Bytes): (r: Bytes)
    requires |digest| == 32
    ensures |r| == APP_SIZE
  {
    RECORD_MAGIC + [1, 1] + Le(32, 2) + Le(0, 4) + digest + Filled(APP_SIZE - 48, FILL)
  }

  const BLANK: Bytes := Filled(APP_SIZE, FILL)

  /** `check_iso` and `check_iso_bytes`. */
  function Check(c: Crypto, image: Bytes): Result<CheckOutcome> {
    if !ValidPvd(image) || |image| < APP_END then Err(Failed)
    else Ok(Compare(ReadMetadata(Area(image)), c.blake3(Normalize(image))))
  }

  function Compare(stored: Option<Bytes>, actual: Bytes): CheckOutcome {
    match stored
    case None => Missing
    case Some(d) => if d == actual then Valid(actual) else Invalid(d, actual)
  }

  /** When `implant_iso` agrees to write. */
  predicate MayImplant(image: Bytes, force: bool) {
    && ValidPvd(image) && |image| >= APP_END
    && (force || Area(image)[..8] == RECORD_MAGIC || Area(image) == BLANK)
  }

  function Implanted(c: Crypto, image: Bytes): (r: Bytes)
    requires |image| >= APP_END
    ensures |r| == |image|
  {
    WithArea(image, RecordFor(c.blake3(Normalize(image))))
  }

  /** `remove_iso` writes without reading first, so it lengthens a file that ends
      inside or before the area. */
  function Removed(image: Bytes): Bytes {
    Overwrite(image, APP_OFFSET, BLANK)
  }

  // ── Laws ────────────────────────────────────────────────────────────────────

  lemma NormalizeConcat(a: Bytes, b: Bytes, offset: nat)
    ensures NormalizeAt(a + b, offset) == NormalizeAt(a, offset) + NormalizeAt(b, offset + |a|)
  {
  }

  /** Normalised images agree exactly when the images agree outside the area. */
  lemma NormalizeIgnoresOnlyArea(x: Bytes, y: Bytes)
    ensures Normalize(x) == Normalize(y)
       <==> |x| == |y| && forall i :: 0 <= i < |x| && !InArea(i) ==> x[i] == y[i]
  {
    if Normalize(x) == Normalize(y) {
      forall i | 0 <= i < |x| && !InArea(i) ensures x[i] == y[i] {
        assert Normalize(x)[i] == Normalize(y)[i];
      }
    }
  }

  lemma ReadMetadataInvertsRecord(digest: Bytes)
    requires |digest| == 32
    ensures ReadMetadata(RecordFor(digest)) == Some(digest)
  {
    var r := RecordFor(digest);
    assert Le(32, 2) == [32, 0];
    assert r[..8] == RECORD_MAGIC && r[8] == 1 && r[9] == 1 && r[10..12] == [32, 0] && r[16..48] == digest;
    assert FromLe([32, 0]) == 32 by { assert [32 as Byte, 0][1..] == [0]; assert [0 as Byte][1..] == []; }
  }

  /** A digest is read exactly from the records written for it, up to the flags and
      what follows the digest: any other magic, version, algorithm or length is no
      record. */
  lemma ReadMetadataIff(area: Bytes, digest: Bytes)
    requires |area| == APP_SIZE && |digest| == 32
    ensures ReadMetadata(area) == Some(digest) <==> area[..12] == RecordFor(digest)[..12] && area[16..48] == digest
  {
    var r := RecordFor(digest);
    assert Le(32, 2) == [32, 0];
    assert r[..8] == RECORD_MAGIC && r[8] == 1 && r[9] == 1 && r[10..12] == [32, 0];
    LengthFieldIs32(area[10..12]);
    assert area[..12] == area[..8] + [area[8], area[9]] + area[10..12];
    assert r[..12] == r[..8] + [r[8], r[9]] + r[10..12];
    assert area[..12][..8] == area[..8] && area[..12][8] == area[8] && area[..12][9] == area[9];
    assert area[..12][10..12] == area[10..12] && r[..12][..8] == r[..8] && r[..12][10..12] == r[10..12];
  }

  lemma LengthFieldIs32(field: Bytes)
    requires |field| == 2
    ensures FromLe(field) == 32 <==> field == [32, 0]
  {
    assert Pow256(2) == 256 * (256 * Pow256(0)) && Le(32, 2) == [32, 0];
    FromLeRoundTrip(field);
    LeRoundTrip(32, 2);
  }

  lemma PvdOutsideArea(x: Bytes, y: Bytes)
    requires |x| == |y| && forall i :: 0 <= i < |x| && !InArea(i) ==> x[i] == y[i]
    ensures ValidPvd(x) <==> ValidPvd(y)
  {
    if |x| >= PVD_OFFSET + 7 {
      assert x[PVD_OFFSET + 1..PVD_OFFSET + 6] == y[PVD_OFFSET + 1..PVD_OFFSET + 6];
    }
  }

  /** A successful implant changes nothing outside the area, and the image then
      checks as valid with the digest that was implanted. */
  lemma ImplantThenCheck(c: Crypto, image: Bytes, force: bool)
    requires MayImplant(image, force)
    ensures var r := Implanted(c, image);
            && |r| == |image| && (forall i :: 0 <= i < |r| && !InArea(i) ==> r[i] == image[i])
            && Check(c, r) == Ok(Valid(c.blake3(Normalize(image))))
  {
    var r := Implanted(c, image);
    NormalizeIgnoresOnlyArea(r, image);
    PvdOutsideArea(r, image);
    ReadMetadataInvertsRecord(c.blake3(Normalize(image)));
  }

  /** Implanting again, forced or not, is accepted and changes no byte. */
  lemma ImplantTwice(c: Crypto, image: Bytes, force: bool, again: bool)
    requires MayImplant(image, force)
    ensures MayImplant(Implanted(c, image), again)
    ensures Implanted(c, Implanted(c, image)) == Implanted(c, image)
  {
    var r := Implanted(c, image);
    NormalizeIgnoresOnlyArea(r, image);
    PvdOutsideArea(r, image);
    assert Area(r)[..8] == RECORD_MAGIC;
    WithAreaTwice(image, Area(r), Area(r));
  }

  lemma WithAreaTwice(image: Bytes, first: Bytes, second: Bytes)
    requires |image| >= APP_END && |first| == |second| == APP_SIZE
    ensures WithArea(WithArea(image, first), second) == WithArea(image, second)
  {
    var x := WithArea(image, first);
    assert x[..APP_OFFSET] == image[..APP_OFFSET] && x[APP_END..] == image[APP_END..];
  }

  lemma RemovedIsBlank(image: Bytes)
    requires |image| >= APP_END
    ensures Removed(image) == WithArea(image, BLANK)
  {
  }

  /** After removal the check reports no record, and the image before implanting
      comes back exactly when its area was blank. */
  lemma RemoveAfterImplant(c: Crypto, image: Bytes, force: bool)
    requires MayImplant(image, force)
    ensures Check(c, Removed(Implanted(c, image))) == Ok(Missing)
    ensures Removed(Implanted(c, image)) == image <==> Area(image) == BLANK
  {
    var r := Implanted(c, image);
    RemovedIsBlank(r);
    WithAreaTwice(image, Area(r), BLANK);
    var removed := WithArea(image, BLANK);
    PvdOutsideArea(removed, image);
    assert BLANK[..8][0] == FILL && RECORD_MAGIC[0] != FILL;
    assert image == image[..APP_OFFSET] + Area(image) + image[APP_END..];
  }

  /** Removal keeps the length, and so touches nothing outside the area, exactly
      when the file reaches the end of the area. */
  lemma RemoveKeepsLength(image: Bytes)
    ensures |Removed(image)| == |image| <==> |image| >= APP_END
    ensures forall i :: 0 <= i < |image| && !InArea(i) ==> Removed(image)[i] == image[i]
  {
  }

  /** A valid descriptor header is enough for removal to write past the end. */
  lemma RemoveCanLengthen() returns (image: Bytes)
    ensures ValidPvd(image) && |Removed(image)| > |image|
  {
    image := Zeros(PVD_OFFSET) + ([1] + Ascii("CD001") + [1]);
    assert image[PVD_OFFSET + 1..PVD_OFFSET + 6] == Ascii("CD001");
  }

  /** The flags and everything after the digest do not influence the outcome. */
  lemma OutcomeIgnoresRest(c: Crypto, x: Bytes, y: Bytes)
    requires |x| == |y|
    requires forall i :: 0 <= i < |x| && !(APP_OFFSET + 12 <= i < APP_OFFSET + 16) && !(APP_OFFSET + 48 <= i < APP_END)
               ==> x[i] == y[i]
    ensures Check(c, x) == Check(c, y)
  {
    NormalizeIgnoresOnlyArea(x, y);
    PvdOutsideArea(x, y);
    if |x| >= APP_END {
      var a, b := Area(x), Area(y);
      assert forall i :: 0 <= i < APP_SIZE ==> a[i] == x[APP_OFFSET + i] && b[i] == y[APP_OFFSET + i];
      assert a[..8] == b[..8] && a[10..12] == b[10..12] && a[16..48] == b[16..48];
    }
  }

  // ── Documented layout ───────────────────────────────────────────────────────

  /** The record, byte by byte: magic, version, algorithm, digest length, flags, digest. */
  lemma RecordLayout(digest: Bytes)
    requires |digest| == 32
    ensures var r := RecordFor(digest);
            && r[..8] == [0x49, 0x53, 0x4f, 0x42, 0x33, 0x41, 0x50, 0x50]
            && r[8..16] == [1, 1, 32, 0, 0, 0, 0, 0] && r[16..48] == digest
            && forall i :: 48 <= i < 512 ==> r[i] == 0x20
  {
    assert Le(0, 0) == [] && Le(0, 1) == [0] && Le(0, 2) == [0, 0] && Le(0, 3) == [0, 0, 0];
    assert Le(32, 2) == [32, 0] && Le(0, 4) == [0, 0, 0, 0];
    assert RECORD_MAGIC == [0x49, 0x53, 0x4f, 0x42, 0x33, 0x41, 0x50, 0x50];
  }

  /** An image is recognised by the first seven bytes of sector 16. */
  lemma PvdLayout(image: Bytes)
    ensures ValidPvd(image) <==>
            |image| >= 16 * 2048 + 7 && image[16 * 2048..16 * 2048 + 7] == [1, 0x43, 0x44, 0x30, 0x30, 0x31, 1]
  {
    assert Ascii("CD001") == [0x43, 0x44, 0x30, 0x30, 0x31];
    if |image| >= 16 * 2048 + 7 {
      var head := image[16 * 2048..16 * 2048 + 7];
      assert head == [head[0]] + head[1..6] + [head[6]];
      SliceOfSlice(image, 16 * 2048, 16 * 2048 + 7, 1, 6);
    }
  }

  /** Bytes 884 to 1395 of that sector, counted from one, are hashed as spaces, and
      nothing else is changed. */
  lemma NormalizeBlanksField(image: Bytes, i: nat)
    requires i < |image|
    ensures Normalize(image)[i] == if 16 * 2048 + 883 <= i < 16 * 2048 + 1395 then 0x20 else image[i]
  {
    assert InArea(0 + i) <==> 16 * 2048 + 883 <= i < 16 * 2048 + 1395;
  }

  /** Of the library the check and the implant depend on BLAKE3 alone. */
  lemma OnlyBlake3Matters(c: Crypto, d: Crypto, image: Bytes)
    requires c.blake3 == d.blake3
    ensures Check(c, image) == Check(d, image)
    ensures |image| >= APP_END ==> Implanted(c, image) == Implanted(d, image)
  {
  }

  /** After a removal an unforced implant is accepted, whatever the area held before,
      and the image then checks as valid with the digest it always had. */
  lemma RemovalMakesRoom(c: Crypto, image: Bytes)
    requires ValidPvd(image) && |image| >= APP_END
    ensures MayImplant(Removed(image), false)
    ensures Check(c, Implanted(c, Removed(image))) == Ok(Valid(c.blake3(Normalize(image))))
  {
    RemovedIsBlank(image);
    PvdOutsideArea(Removed(image), image);
    NormalizeIgnoresOnlyArea(Removed(image), image);
    ImplantThenCheck(c, Removed(image), false);
  }

  predicate Collision(c: Crypto, x: Bytes, y: Bytes) {
    x != y && c.blake3(x) == c.blake3(y)
  }

  /** Two images that are valid under one digest agree outside the area, or their
      normalised forms are a BLAKE3 collision. */
  lemma ValidDigestFixesContent(c: Crypto, x: Bytes, y: Bytes, digest: Bytes)
    requires Check(c, x) == Ok(Valid(digest)) && Check(c, y) == Ok(Valid(digest))
    ensures || (|x| == |y| && forall i :: 0 <= i < |x| && !InArea(i) ==> x[i] == y[i])
            || Collision(c, Normalize(x), Normalize(y))
  {
    NormalizeIgnoresOnlyArea(x, y);
  }

  /** Tampering outside the area of a valid image, keeping the record and the
      descriptor header, is reported as a mismatch unless it is a collision. */
  lemma TamperingIsReported(c: Crypto, x: Bytes, y: Bytes)
    requires Check(c, x).Ok? && Check(c, x).value.Valid?
    requires ValidPvd(y) && |y| >= APP_END && Area(y) == Area(x)
    requires !(|x| == |y| && forall i :: 0 <= i < |x| && !InArea(i) ==> x[i] == y[i])
    ensures Check(c, y) == Ok(Invalid(c.blake3(Normalize(x)), c.blake3(Normalize(y))))
         || Collision(c, Normalize(x), Normalize(y))
  {
    NormalizeIgnoresOnlyArea(x, y);
  }
}
