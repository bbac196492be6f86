/** Finding, loading and costing manifests (src/worker/plan.rs). How bytes become
    text (`String::from_utf8`) is a parameter. */
module Plan {
  import opened Prelude
  import opened Disk
  import opened Primitives
  import opened Formats
  import opened Isob3Device
  import opened Jobs
  import Events
  import Dbenc
  import Sha256sum

  type Utf8 = Bytes -> Option<string>

  // ── Meaning ─────────────────────────────────────────────────────────────────

  /** What a manifest's text says, or failure for bytes that are not text. */
  function ParseBytes(utf8: Utf8, plain: Bytes): Result<Sha256sum.Parsed> {
    match utf8(plain)
    case None => Err(Failed)
    case Some(text) => Ok(Sha256sum.ParseLines(Sha256sum.Lines(text)))
  }

  /** A manifest loads to what its plaintext says: credentials are chosen for it as
      they are for targets. */
  function Loaded(c: Crypto, utf8: Utf8, bytes: Bytes, settings: EncryptionSettings): Result<Sha256sum.Parsed> {
    match Plaintext(c, bytes, settings)
    case Err(_) => Err(Failed)
    case Ok(plain) => ParseBytes(utf8, plain)
  }

  /** `is_sha256_manifest_candidate`: named like a manifest, or encrypted with at
      least one entry inside. */
  predicate IsCandidate(c: Crypto, utf8: Utf8, name: string, bytes: Bytes, settings: EncryptionSettings) {
    || Sha256sum.IsManifestName(name)
    || (Detect(bytes).Some? && var p := Loaded(c, utf8, bytes, settings); p.Ok? && p.value.entries != [])
  }

  /** `estimated_manifest_bytes`. */
  function EstimatedManifestBytes(bytes: Bytes, settings: EncryptionSettings): nat {
    Min((if settings.enabled && Detect(bytes).Some? then 2 else 1) * |bytes|, Events.U64_MAX)
  }

  /** The one progress event of loading a manifest: its ciphertext, if it decrypts. */
  function LoadProgress(c: Crypto, bytes: Bytes, settings: EncryptionSettings): Option<nat> {
    if Detect(bytes).Some? && Plaintext(c, bytes, settings).Ok?
    then Some(Dbenc.CipherBytes(c, bytes, SecretFor(Detect(bytes).value, settings)))
    else None
  }

  // ── Laws ────────────────────────────────────────────────────────────────────

  /** Encrypting a manifest, in any format, changes nothing about what it loads to. */
  lemma EncryptedManifestLoads(c: Crypto, utf8: Utf8, f: Format, plain: Bytes, bytes: Bytes,
                               settings: EncryptionSettings)
    requires if f == DbEnc005 then LoadKey(settings.privateKey).Some? else settings.enabled
    requires Dbenc.EncodedBy(c, f, SecretFor(f, settings), plain, bytes) && Detect(plain).None?
    ensures Loaded(c, utf8, bytes, settings) == Loaded(c, utf8, plain, settings) == ParseBytes(utf8, plain)
  {
    EncryptedTargetPasses(c, f, plain, Source(Path(OtherSystem, "", ""), bytes, Regular, |bytes|), settings);
  }

  /** An encrypted manifest printed with entries the parser keeps is found under any
      file name, and loads to exactly those entries. */
  lemma PrintedManifestIsFound(c: Crypto, utf8: Utf8, f: Format, items: seq<Sha256sum.Item>, plain: Bytes, bytes: Bytes,
                               name: string, settings: EncryptionSettings)
    requires if f == DbEnc005 then LoadKey(settings.privateKey).Some? else settings.enabled
    requires Dbenc.EncodedBy(c, f, SecretFor(f, settings), plain, bytes)
    requires forall i :: 0 <= i < |items| ==> items[i].WellFormed()
    requires Sha256sum.AllSurvive(items) && utf8(plain) == Some(Sha256sum.Print(items))
    ensures Loaded(c, utf8, bytes, settings) == Ok(Sha256sum.Parsed(Sha256sum.Entries(items), 0))
    ensures Sha256sum.Entries(items) != [] ==> IsCandidate(c, utf8, name, bytes, settings)
  {
    hide Sha256sum.ParseLines, Sha256sum.Lines, Sha256sum.Print, Dbenc.EncodedBy;
    EncryptedTargetPasses(c, f, plain, Source(Path(OtherSystem, "", ""), bytes, Regular, |bytes|), settings);
    Sha256sum.PrintThenParse(items);
    DetectsFormat(c, f, SecretFor(f, settings), plain, bytes);
  }

  lemma DetectsFormat(c: Crypto, f: Format, secret: Dbenc.Secret, plain: Bytes, bytes: Bytes)
    requires Dbenc.EncodedBy(c, f, secret, plain, bytes)
    ensures Detect(bytes) == Some(f)
  {
    Dbenc.DecodeInvertsEncryption(c, f, secret, plain, bytes);
  }

  /** Loading a manifest reports no more than was estimated for it. */
  lemma LoadProgressFits(c: Crypto, bytes: Bytes, settings: EncryptionSettings)
    ensures var p := LoadProgress(c, bytes, settings);
            p.Some? ==> Min(p.value, Events.U64_MAX) <= EstimatedManifestBytes(bytes, settings)
  {
    hide Detect, Dbenc.DecodeFile, Dbenc.CipherBytes;
    if Detect(bytes).Some? && Plaintext(c, bytes, settings).Ok? {
      Dbenc.CipherBytesBound(c, bytes, SecretFor(Detect(bytes).value, settings));
    }
  }

  /** A file that is not encrypted is a candidate by its name alone. */
  lemma PlainCandidateIff(c: Crypto, utf8: Utf8, name: string, bytes: Bytes, settings: EncryptionSettings)
    requires Detect(bytes).None?
    ensures IsCandidate(c, utf8, name, bytes, settings) <==>
            Sha256sum.Occurs(Sha256sum.Lower(name), "sha256") || Sha256sum.Occurs(Sha256sum.Lower(name), ".sha")
  {
    hide Sha256sum.IsManifestName;
    Sha256sum.ManifestNameIff(name);
  }

  /** An encrypted one whose credential is at hand is a candidate by its name, or by
      holding at least one entry. */
  lemma EncryptedCandidateIff(c: Crypto, utf8: Utf8, f: Format, plain: Bytes, name: string, bytes: Bytes,
                              settings: EncryptionSettings)
    requires if f == DbEnc005 then LoadKey(settings.privateKey).Some? else settings.enabled
    requires Dbenc.EncodedBy(c, f, SecretFor(f, settings), plain, bytes)
    ensures IsCandidate(c, utf8, name, bytes, settings) <==>
            || Sha256sum.Occurs(Sha256sum.Lower(name), "sha256") || Sha256sum.Occurs(Sha256sum.Lower(name), ".sha")
            || (utf8(plain).Some? && Sha256sum.ParseLines(Sha256sum.Lines(utf8(plain).value)).entries != [])
  {
    hide Sha256sum.IsManifestName, Sha256sum.ParseLines, Sha256sum.Lines, Dbenc.EncodedBy, Plaintext, Passing, Detect,
         Sha256sum.Occurs;
    Sha256sum.ManifestNameIff(name);
    DetectsFormat(c, f, SecretFor(f, settings), plain, bytes);
    EncryptedTargetPasses(c, f, plain, Source(Path(OtherSystem, "", ""), bytes, Regular, |bytes|), settings);
  }

  /** A manifest is estimated like a target of the same contents that is no ISO. */
  lemma EstimatedLikeTarget(t: Source, settings: EncryptionSettings)
    requires t.IsFile() && !LooksLikeIso(t.path)
    ensures EstimatedManifestBytes(t.bytes, settings) == EstimatedTargetBytes(t, settings)
  {
    hide Detect, LooksLikeIso;
  }

  // ── The code ────────────────────────────────────────────────────────────────

  method ParseManifestBytes(utf8: Utf8, plain: Bytes) returns (r: Result<Sha256sum.Parsed>)
    ensures r == ParseBytes(utf8, plain)
  {
    var text := utf8(plain);
    if text.None? {
      return Err(Failed);
    }
    var parsed := Sha256sum.ParseText(text.value);
    return Ok(parsed);
  }

  /** `load_manifest_entries`: progress is sent once, for a decrypted manifest, and it
      is sent before parsing can fail. A detection read that falls short makes it read
      the manifest as it is, or fail. */
  method LoadManifestEntries(c: Crypto, utf8: Utf8, manifest: DiskFile, settings: EncryptionSettings,
                             mayFallShort: bool)
    returns (r: Result<Sha256sum.Parsed>, progress: Option<nat>)
    ensures (r == Loaded(c, utf8, manifest.bytes, settings) && progress == LoadProgress(c, manifest.bytes, settings))
            || (mayFallShort && progress == None && (r == ParseBytes(utf8, manifest.bytes) || r == Err(Failed)))
    ensures progress.Some? ==> Min(progress.value, Events.U64_MAX) <= EstimatedManifestBytes(manifest.bytes, settings)
  {
    hide Detect, Dbenc.DecodeFile, Dbenc.CipherBytes;
    LoadProgressFits(c, manifest.bytes, settings);
    progress := None;
    var f, _ := Dbenc.DetectFormat(manifest, mayFallShort);
    match f {
      case None =>
        r := ParseManifestBytes(utf8, manifest.bytes);
      case Some(f) =>
        var plain: Bytes;
        var size: nat;
        if f == DbEnc005 {
          var dk := LoadKey(settings.privateKey);
          if dk.None? {
            return Err(Failed), None;
          }
          var temp, _ := Dbenc.DecryptWithSecret(c, f, manifest, SecretFor(f, settings), false, mayFallShort);
          if temp.Err? {
            return Err(Failed), None;
          }
          plain, size := temp.value.contents, temp.value.cipherBytes;
        } else {
          if !settings.enabled {
            return Err(Failed), None;
          }
          var decrypted;
          decrypted, size := Dbenc.DecryptFile(c, manifest, settings.password, mayFallShort);
          if decrypted.Err? {
            return Err(Failed), None;
          }
          plain := decrypted.value;
        }
        progress := Some(size);
        r := ParseManifestBytes(utf8, plain);
    }
  }
}
