/** The five DBENC formats and their magic bytes (src/dbenc/mod.rs). */
module Formats {
  import opened Prelude

  datatype Format = DbEnc001 | DbEnc002 | DbEnc003 | DbEnc004 | DbEnc005

  const MAGIC_LEN: nat := 8
  const CHUNK_SIZE: nat := 0x10_0000

  /** Result of decrypting a file to a temporary file: its contents, the digest
      computed while writing, and the byte counts reported to the caller. */
  datatype DecryptedTemp = DecryptedTemp(contents: Bytes, sha256: Bytes, plaintextBytes: nat, cipherBytes: nat)

  function Ascii(s: string): (b: Bytes)
    ensures |b| == |s|
  {
    seq(|s|, i requires 0 <= i < |s| => (s[i] as int % 256) as Byte)
  }

  function FormatDigit(f: Format): char {
    match f
    case DbEnc001 => '1'
    case DbEnc002 => '2'
    case DbEnc003 => '3'
    case DbEnc004 => '4'
    case DbEnc005 => '5'
  }

  function Magic(f: Format): (m: Bytes)
    ensures |m| == MAGIC_LEN
  {
    Ascii("DBENC00") + Ascii([FormatDigit(f)])
  }

  /** `detect_format` on a file whose first read fills the eight-byte buffer. */
  function Detect(bytes: Bytes): Option<Format> {
    if |bytes| < MAGIC_LEN then None
    else
      var magic := bytes[..MAGIC_LEN];
      if magic == Magic(DbEnc001) then Some(DbEnc001)
      else if magic == Magic(DbEnc002) then Some(DbEnc002)
      else if magic == Magic(DbEnc003) then Some(DbEnc003)
      else if magic == Magic(DbEnc004) then Some(DbEnc004)
      else if magic == Magic(DbEnc005) then Some(DbEnc005)
      else None
  }

  /** The magic spells DBENC and three digits, in ASCII. */
  lemma MagicSpells(f: Format)
    ensures var last: Byte := match f
              case DbEnc001 => 0x31 case DbEnc002 => 0x32 case DbEnc003 => 0x33 case DbEnc004 => 0x34
              case DbEnc005 => 0x35;
            Magic(f) == [0x44, 0x42, 0x45, 0x4e, 0x43, 0x30, 0x30, last]
  {
    assert Ascii("DBENC00") == [0x44, 0x42, 0x45, 0x4e, 0x43, 0x30, 0x30];
  }

  lemma MagicIsInjective(f: Format, g: Format)
    requires Magic(f) == Magic(g)
    ensures f == g
  {
    assert Magic(f)[7] == (FormatDigit(f) as int % 256) as Byte;
    assert Magic(g)[7] == (FormatDigit(g) as int % 256) as Byte;
  }

  /** A file is of a format exactly when it starts with that format's magic. */
  lemma DetectIffMagic(bytes: Bytes, f: Format)
    ensures Detect(bytes) == Some(f) <==> Magic(f) <= bytes
  {
    if |bytes| >= MAGIC_LEN {
      var d := Detect(bytes);
      if Magic(f) <= bytes {
        assert bytes[..MAGIC_LEN] == Magic(f);
        assert d.Some? by {
          match f case DbEnc001 => case DbEnc002 => case DbEnc003 => case DbEnc004 => case DbEnc005 =>
        }
      }
      if d.Some? {
        assert Magic(d.value) == bytes[..MAGIC_LEN];
        if Magic(f) <= bytes {
          MagicIsInjective(f, d.value);
        }
      }
    }
  }
}
