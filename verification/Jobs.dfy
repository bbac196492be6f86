/** One verification job (src/worker/execute.rs) and what the planner expects it to
    cost (src/worker/plan.rs). Progress is the sum of the deltas sent. */
module Jobs {
  import opened Prelude
  import opened Disk
  import opened Primitives
  import opened Formats
  import opened Isob3
  import opened Isob3Device
  import Events
  import Dbenc
  import FramedAead
  import Sha256sum

  const DK_LEN: nat := 64

  // ── Paths ───────────────────────────────────────────────────────────────────

  datatype Platform = Linux | Windows | OtherSystem

  /** A path as text and its file name, on the platform that reads it. */
  datatype Path = Path(platform: Platform, text: string, name: string)

  /** `Path::extension`: what follows the last dot, unless the name starts with it. */
  function Extension(name: string): Option<string> {
    if name == ".." then None else ExtensionBefore(name, |name|)
  }

  function ExtensionBefore(name: string, end: nat): Option<string>
    requires end <= |name|
  {
    if end <= 1 then None
    else if name[end - 1] == '.' then Some(name[end..])
    else ExtensionBefore(name, end - 1)
  }

  const WINDOWS_DEVICE := "\\\\.\\"

  /** `is_windows_raw_device`: the paths whose medium is read by sectors. */
  predicate IsWindowsRawDevice(path: Path) {
    path.platform == Windows && WINDOWS_DEVICE <= path.text
  }

  /** `is_raw_iso_device`: on Linux this is a matter of names only, the device is then
      read like any file. */
  predicate IsRawDevice(path: Path) {
    || IsWindowsRawDevice(path)
    || (path.platform == Linux && IsLinuxDevice(path.text))
  }

  predicate IsLinuxDevice(text: string) {
    "/dev/sr" <= text || "/dev/scd" <= text || text == "/dev/cdrom" || text == "/dev/dvd"
  }

  /** What counts as an optical device where, and that nothing does on other systems or
      outside `/dev/`. */
  lemma OpticalDevices(number: string, name: string, path: Path)
    ensures IsRawDevice(Path(Linux, "/dev/sr" + number, name)) && IsRawDevice(Path(Linux, "/dev/scd" + number, name))
    ensures IsRawDevice(Path(Linux, "/dev/cdrom", name)) && IsRawDevice(Path(Linux, "/dev/dvd", name))
    ensures IsRawDevice(Path(Windows, "\\\\.\\" + number, name))
    ensures IsRawDevice(path) && path.platform == Linux ==> "/dev/" <= path.text
    ensures IsRawDevice(path) && path.platform == Windows ==> "\\\\.\\" <= path.text
    ensures !path.platform.OtherSystem? || !IsRawDevice(path)
  {
    assert "/dev/" <= "/dev/sr" && "/dev/" <= "/dev/scd" && "/dev/" <= "/dev/cdrom" && "/dev/" <= "/dev/dvd";
  }

  predicate HasIsoExtension(name: string) {
    Extension(name).Some? && Sha256sum.Lower(Extension(name).value) == "iso"
  }

  /** `looks_like_iso_target`. */
  predicate LooksLikeIso(path: Path) {
    IsRawDevice(path) || HasIsoExtension(path.name)
  }

  /** `make_temp_path`: `stem` is prefix, process id and time, which hold no dot. */
  function TempName(stem: string, source: string): string {
    match Extension(source)
    case Some(ext) => if ext == "" then stem + ".tmp" else stem + "." + ext
    case None => stem + ".tmp"
  }

  predicate IsStem(stem: string) {
    |stem| >= 3 && forall i :: 0 <= i < |stem| ==> stem[i] != '.'
  }

  predicate NoDot(s: string) {
    forall i :: 0 <= i < |s| ==> s[i] != '.'
  }

  lemma {:induction false} ExtensionHasNoDot(name: string, end: nat)
    requires end <= |name| && NoDot(name[end..])
    ensures ExtensionBefore(name, end).Some? ==> NoDot(ExtensionBefore(name, end).value)
  {
    if end > 1 && name[end - 1] != '.' {
      assert name[end - 1..] == [name[end - 1]] + name[end..];
      ExtensionHasNoDot(name, end - 1);
    }
  }

  lemma {:induction false} ExtensionOfDotted(stem: string, ext: string, end: nat)
    requires stem != "" && NoDot(ext) && |stem| + 1 <= end <= |stem| + 1 + |ext|
    ensures ExtensionBefore(stem + "." + ext, end) == Some(ext)
    decreases end
  {
    var name := stem + "." + ext;
    if end == |stem| + 1 {
      assert name[end - 1] == '.' && name[end..] == ext;
    } else {
      assert name[end - 1] == ext[end - 2 - |stem|];
      ExtensionOfDotted(stem, ext, end - 1);
    }
  }

  lemma {:induction false} ExtensionIsSuffix(name: string, end: nat)
    requires end <= |name| && ExtensionBefore(name, end).Some?
    ensures var ext := ExtensionBefore(name, end).value;
            && |ext| + 2 <= |name| && name[|name| - |ext| - 1] == '.' && name[|name| - |ext|..] == ext
  {
    if name[end - 1] != '.' {
      ExtensionIsSuffix(name, end - 1);
    }
  }

  /** A name is an ISO's exactly if something comes before a final `.iso`, in any case. */
  lemma IsoNameIff(name: string)
    ensures HasIsoExtension(name) <==>
            && |name| >= 5 && name[|name| - 4] == '.' && name[|name| - 3] in "iI" && name[|name| - 2] in "sS"
            && name[|name| - 1] in "oO"
  {
    var n := |name|;
    if n >= 5 && name[n - 4] == '.' && name[n - 3] in "iI" && name[n - 2] in "sS" && name[n - 1] in "oO" {
      assert name == name[..n - 4] + "." + name[n - 3..];
      ExtensionOfDotted(name[..n - 4], name[n - 3..], n);
      assert Sha256sum.Lower(name[n - 3..]) == "iso";
    }
    if HasIsoExtension(name) {
      var ext := Extension(name).value;
      ExtensionIsSuffix(name, n);
      assert name[n - 3..] == ext;
      assert Sha256sum.Lower(ext)[0] == 'i' && Sha256sum.Lower(ext)[1] == 's' && Sha256sum.Lower(ext)[2] == 'o';
    }
  }

  /** The temporary file looks like an ISO exactly when its source does. */
  lemma TempKeepsIsoExtension(stem: string, source: string)
    requires IsStem(stem)
    ensures HasIsoExtension(TempName(stem, source)) <==> HasIsoExtension(source)
  {
    ExtensionHasNoDot(source, |source|);
    var ext := match Extension(source) case Some(e) => (if e == "" then "tmp" else e) case None => "tmp";
    assert TempName(stem, source) == stem + "." + ext;
    ExtensionOfDotted(stem, ext, |stem| + 1 + |ext|);
    assert "tmp"[0] == 't' && Sha256sum.Lower("tmp")[0] == 't';
    assert Sha256sum.Lower("") == "";
  }

  /** Where the temporary file of a source goes: `tempDir` ends with its separator. */
  function TempPath(tempDir: string, stem: string, source: Path): Path {
    Path(source.platform, tempDir + TempName(stem, source.name), TempName(stem, source.name))
  }

  // ── Targets ─────────────────────────────────────────────────────────────────

  /** What a path leads to: contents, how they are read, and the length the file
      system reports, which for devices need not be that of the contents. */
  datatype Source = Source(path: Path, bytes: Bytes, medium: Medium, length: nat) {
    ghost predicate Valid() {
      && (medium.RawDevice? <==> IsWindowsRawDevice(path))
      && (medium.RawDevice? ==> bytes <= medium.track)
    }

    predicate IsFile() {
      !IsRawDevice(path) && medium.Regular? && length == |bytes|
    }
  }

  // ── Plans ───────────────────────────────────────────────────────────────────

  /** A private key file: not configured, unreadable, or its bytes. */
  datatype KeyFile = NoKey | Unreadable | Readable(bytes: Bytes)

  datatype EncryptionSettings = EncryptionSettings(enabled: bool, password: Bytes, privateKey: KeyFile)

  /** `load_dk_bytes`. */
  function LoadKey(key: KeyFile): Option<Bytes> {
    if key.Readable? && |key.bytes| == DK_LEN then Some(key.bytes) else None
  }

  /** How many passes `estimated_manifest_target_bytes` expects. */
  function Passes(t: Source, settings: EncryptionSettings): nat {
    (if settings.enabled && Detect(t.bytes).Some? then 2 else 1) + if LooksLikeIso(t.path) then 1 else 0
  }

  /** `estimated_manifest_target_bytes`, a saturating product. */
  function EstimatedTargetBytes(t: Source, settings: EncryptionSettings): nat {
    Min(Passes(t, settings) * t.length, Events.U64_MAX)
  }

  // ── Meaning ─────────────────────────────────────────────────────────────────

  /** The plaintext `build_verification_input` hashes, or failure. DBENC005 needs
      only a key, the other formats need decryption to be enabled. */
  function Plaintext(c: Crypto, bytes: Bytes, settings: EncryptionSettings): Result<Bytes> {
    match Detect(bytes)
    case None => Ok(bytes)
    case Some(f) =>
      if f == DbEnc005 then
        if LoadKey(settings.privateKey).None? then Err(Failed)
        else Dbenc.DecodeFile(c, bytes, SecretFor(f, settings))
      else if !settings.enabled then Err(Failed)
      else Dbenc.DecodeFile(c, bytes, SecretFor(f, settings))
  }

  /** The credentials the dispatch hands to the decryptor of a format. */
  function SecretFor(f: Format, settings: EncryptionSettings): Dbenc.Secret {
    if f == DbEnc005 then Dbenc.Secret(None, LoadKey(settings.privateKey))
    else Dbenc.Secret(Some(settings.password), None)
  }

  /** What the result reports for obtaining the plaintext: for an unencrypted target the
      length the file system gave. */
  function ProcessedBytes(c: Crypto, t: Source, settings: EncryptionSettings): nat
    requires Plaintext(c, t.bytes, settings).Ok?
  {
    match Detect(t.bytes)
    case None => t.length
    case Some(f) =>
      Dbenc.CipherBytes(c, t.bytes, SecretFor(f, settings)) + |Plaintext(c, t.bytes, settings).value|
  }

  /** The progress of obtaining and hashing the plaintext, successfully or not. */
  function InputBytes(c: Crypto, bytes: Bytes, settings: EncryptionSettings): nat {
    match Detect(bytes)
    case None => |bytes|
    case Some(f) =>
      if NeverDecrypted(bytes, settings) then 0 else Dbenc.DecryptProgress(c, bytes, SecretFor(f, settings))
  }

  /** Whether the ISOB3 pass applies: the temporary file of a decrypted target has the
      extension of the target but is never a device. */
  predicate NamedIso(t: Source) {
    if Detect(t.bytes).Some? then HasIsoExtension(t.path.name) else LooksLikeIso(t.path)
  }

  /** How an unstopped ISOB3 check of the target comes out, given its plaintext. */
  function RecordOutcome(c: Crypto, t: Source, plain: Bytes): Result<CheckOutcome> {
    if Detect(t.bytes).Some? then Check(c, plain) else CheckSpec(c, t.bytes, t.medium)
  }

  /** The bytes an unstopped ISOB3 pass reports. */
  function PassBytes(c: Crypto, t: Source, plain: Bytes): nat {
    if !NamedIso(t) then 0
    else if Detect(t.bytes).Some? then CheckBytes(c, plain, Regular)
    else CheckBytes(c, t.bytes, t.medium)
  }

  datatype IsoVerification = IsoValid | IsoMissing | IsoInvalid | IsoSkipped

  /** `map_check_outcome`: an aborted check is mapped like any other error. */
  function MapCheckOutcome(r: Result<CheckOutcome>): IsoVerification {
    match r
    case Ok(Valid(_)) => IsoValid
    case Ok(Invalid(_, _)) => IsoInvalid
    case Ok(Missing) => IsoMissing
    case Err(_) => IsoInvalid
  }

  /** Whether a target whose plaintext is known passes, given how its ISOB3 check
      came out; the check counts only for ISO targets. */
  predicate TargetPasses(c: Crypto, plain: Bytes, iso: bool, expected: string, isob3: Result<CheckOutcome>) {
    && Sha256sum.Hex(c.sha256(plain)) == expected
    && (iso ==> MapCheckOutcome(isob3) == IsoValid)
  }

  /** An encrypted file no credential is tried on. */
  predicate NeverDecrypted(bytes: Bytes, settings: EncryptionSettings) {
    && Detect(bytes).Some?
    && if Detect(bytes) == Some(DbEnc005) then LoadKey(settings.privateKey).None? else !settings.enabled
  }

  /** A DBENC005 target is decrypted with its key although decryption is not enabled,
      and the planner then expects no decryption pass. */
  predicate Unplanned(bytes: Bytes, settings: EncryptionSettings) {
    Detect(bytes) == Some(DbEnc005) && !settings.enabled && LoadKey(settings.privateKey).Some?
  }

  /** What a manifest entry asks of its target. */
  predicate Passing(c: Crypto, t: Source, expected: string, settings: EncryptionSettings) {
    var plain := Plaintext(c, t.bytes, settings);
    plain.Ok? && TargetPasses(c, plain.value, NamedIso(t), expected, RecordOutcome(c, t, plain.value))
  }

  /** For an implanted image, whether or not it is named as an ISO, verification asks
      for the digest alone. */
  lemma ImplantedTargetPasses(c: Crypto, image: Bytes, force: bool, iso: bool, expected: string)
    requires MayImplant(image, force)
    ensures var implanted := Implanted(c, image);
            TargetPasses(c, implanted, iso, expected, Check(c, implanted))
            <==> Sha256sum.Hex(c.sha256(implanted)) == expected
  {
    ImplantThenCheck(c, image, force);
  }

  /** A target encrypted in any format, verified with the matching credential against
      the digest of its plaintext: it passes, unless it is named as an ISO and its
      record does not check. */
  lemma EncryptedTargetPasses(c: Crypto, f: Format, plain: Bytes, t: Source, settings: EncryptionSettings)
    requires if f == DbEnc005 then LoadKey(settings.privateKey).Some? else settings.enabled
    requires Dbenc.EncodedBy(c, f, SecretFor(f, settings), plain, t.bytes)
    ensures Plaintext(c, t.bytes, settings) == Ok(plain)
    ensures Passing(c, t, Sha256sum.Hex(c.sha256(plain)), settings)
            <==> (HasIsoExtension(t.path.name) ==> Check(c, plain).Ok? && Check(c, plain).value.Valid?)
  {
    Dbenc.DecodeInvertsEncryption(c, f, SecretFor(f, settings), plain, t.bytes);
  }

  // ── The code ────────────────────────────────────────────────────────────────

  /** The temporary files that exist, by name. */
  class TempDir {
    var files: map<nat, Bytes>
    var next: nat

    constructor ()
      ensures files == map[] && Valid()
    {
      files, next := map[], 0;
    }

    ghost predicate Valid()
      reads this
    {
      forall id :: id in files ==> id < next
    }

    method Create(contents: Bytes) returns (id: nat)
      requires Valid()
      modifies this
      ensures Valid() && id !in old(files) && files == old(files)[id := contents]
    {
      id := next;
      files, next := files[id := contents], next + 1;
    }

    method Remove(id: nat)
      requires Valid()
      modifies this
      ensures Valid() && files == old(files) - {id}
    {
      files := files - {id};
    }
  }

  datatype VerificationInput = VerificationInput(actual: string, decrypted: Option<nat>, processedBytes: nat)

  datatype JobOutcome = Completed(result: Events.VerificationResult) | JobAborted

  /** `compute_sha256_with_progress_and_cancel`, through a buffer. */
  method HashFile(c: Crypto, file: DiskFile, mayAbort: bool) returns (r: Result<string>, progress: nat)
    ensures r.Err? ==> mayAbort && r == Err(Aborted)
    ensures r.Ok? ==> r.value == Sha256sum.Hex(c.sha256(file.bytes)) && progress == |file.bytes|
    ensures progress <= |file.bytes|
  {
    var reader := new Handle.Open(file);
    assert reader.Rest() == file.bytes;
    var hashed: Bytes := [];
    ghost var rest := file.bytes;
    progress := 0;
    while true
      invariant rest == reader.Rest() && hashed + rest == file.bytes && progress == |hashed|
      decreases |rest|
    {
      var abort: bool := *;
      if mayAbort && abort {
        return Err(Aborted), progress;
      }
      var chunk := reader.Read(CHUNK_SIZE);
      if chunk == [] {
        break;
      }
      CarryChunk(hashed, rest, chunk);
      hashed, progress, rest := hashed + chunk, progress + |chunk|, rest[|chunk|..];
    }
    assert hashed + [] == hashed;
    var digest := Sha256sum.HexDigest(c.sha256(hashed));
    return Ok(digest), progress;
  }

  /** Decrypts to a temporary file that stays behind on success. */
  method DecryptTarget(c: Crypto, f: Format, target: DiskFile, settings: EncryptionSettings, temps: TempDir,
                       mayAbort: bool, mayFallShort: bool)
    returns (r: Result<VerificationInput>, progress: nat)
    requires temps.Valid() && Detect(target.bytes) == Some(f) && !NeverDecrypted(target.bytes, settings)
    modifies temps
    ensures temps.Valid()
    ensures r == Err(Aborted) ==> mayAbort
    ensures r.Err? ==> temps.files == old(temps.files)
    ensures r.Err? && r != Err(Aborted) ==> Plaintext(c, target.bytes, settings).Err? || (mayFallShort && progress == 0)
    ensures r != Err(Aborted) ==>
              progress == InputBytes(c, target.bytes, settings) || (mayFallShort && r.Err? && progress == 0)
    ensures r.Ok? ==>
              var plain := Plaintext(c, target.bytes, settings);
              && plain.Ok? && r.value.actual == Sha256sum.Hex(c.sha256(plain.value))
              && r.value.decrypted.Some? && r.value.decrypted.value !in old(temps.files)
              && temps.files == old(temps.files)[r.value.decrypted.value := plain.value]
              && r.value.processedBytes == progress && |plain.value| <= |target.bytes|
              && progress == Dbenc.CipherBytes(c, target.bytes, SecretFor(f, settings)) + |plain.value|
    ensures progress <= 2 * |target.bytes|
  {
    hide Dbenc.DecodeFile, Dbenc.DecryptProgress, Dbenc.CipherBytes, Detect, Sha256sum.Hex;
    var temp;
    temp, progress := Dbenc.DecryptWithSecret(c, f, target, SecretFor(f, settings), mayAbort, mayFallShort);
    if temp.Err? {
      return Err(temp.error), progress;
    }
    var digest := Sha256sum.HexDigest(temp.value.sha256);
    var id := temps.Create(temp.value.contents);
    return Ok(VerificationInput(digest, Some(id), temp.value.cipherBytes + temp.value.plaintextBytes)), progress;
  }

  /** `build_verification_input`, with detection reads that are full: in each branch the
      progress sent is exact, never more than two passes, and on success the number of
      bytes reported, provided the file system reports the length there is. */
  method BuildVerificationInput(c: Crypto, target: DiskFile, ghost t: Source, length: nat, settings: EncryptionSettings,
                                temps: TempDir, mayAbort: bool, mayFallShort: bool)
    returns (r: Result<VerificationInput>, progress: nat)
    requires temps.Valid() && t.bytes == target.bytes && t.length == length
    modifies temps
    ensures temps.Valid()
    ensures r == Err(Aborted) ==> mayAbort
    ensures r.Err? ==> temps.files == old(temps.files)
    ensures !mayFallShort ==> BuiltInput(c, t, settings, old(temps.files), temps.files, r, progress)
    ensures mayFallShort && r.Ok? ==>
              || BuiltInput(c, t, settings, old(temps.files), temps.files, r, progress)
              || TakenAsPlain(c, t, old(temps.files), temps.files, r.value, progress)
    ensures progress <= 2 * |target.bytes|
  {
    hide Plaintext, InputBytes, Detect, Sha256sum.Hex, ProcessedBytes;
    var f, _ := Dbenc.DetectFormat(target, mayFallShort);
    InputByParts(c, t, settings);
    match f {
      case None =>
        var digest;
        digest, progress := HashFile(c, target, mayAbort);
        if digest.Err? {
          return Err(digest.error), progress;
        }
        return Ok(VerificationInput(digest.value, None, length)), progress;
      case Some(f) =>
        if f == DbEnc005 {
          var dk := LoadKey(settings.privateKey);
          if dk.None? {
            return Err(Failed), 0;
          }
          r, progress := DecryptTarget(c, f, target, settings, temps, mayAbort, mayFallShort);
        } else if !settings.enabled {
          return Err(Failed), 0;
        } else {
          r, progress := DecryptTarget(c, f, target, settings, temps, mayAbort, mayFallShort);
        }
    }
  }

  /** What obtaining the plaintext comes to when every detection read is full. */
  ghost predicate BuiltInput(c: Crypto, t: Source, settings: EncryptionSettings, before: map<nat, Bytes>,
                             after: map<nat, Bytes>, r: Result<VerificationInput>, progress: nat)
  {
    var plain := Plaintext(c, t.bytes, settings);
    && (r.Err? && r != Err(Aborted) ==> plain.Err?)
    && (r != Err(Aborted) ==> progress == InputBytes(c, t.bytes, settings))
    && progress <= (if Detect(t.bytes).Some? then 2 else 1) * |t.bytes|
    && (NeverDecrypted(t.bytes, settings) ==> progress == 0)
    && (r.Ok? ==>
          && plain.Ok? && r.value.actual == Sha256sum.Hex(c.sha256(plain.value)) && |plain.value| <= |t.bytes|
          && r.value.processedBytes == ProcessedBytes(c, t, settings)
          && (t.length == |t.bytes| ==> r.value.processedBytes == progress)
          && (r.value.decrypted.Some? <==> Detect(t.bytes).Some?)
          && match r.value.decrypted
             case None => plain.value == t.bytes && after == before
             case Some(id) => id !in before && after == before[id := plain.value])
  }

  /** A detection read that falls short makes an encrypted target pass for plaintext. */
  ghost predicate TakenAsPlain(c: Crypto, t: Source, before: map<nat, Bytes>, after: map<nat, Bytes>,
                               input: VerificationInput, progress: nat)
  {
    && input == VerificationInput(Sha256sum.Hex(c.sha256(t.bytes)), None, t.length)
    && progress == |t.bytes| && after == before
  }

  /** The cases of `Plaintext` and `InputBytes`, for use where these are hidden. */
  lemma InputByParts(c: Crypto, t: Source, settings: EncryptionSettings)
    ensures Detect(t.bytes).None? ==>
              && Plaintext(c, t.bytes, settings) == Ok(t.bytes) && InputBytes(c, t.bytes, settings) == |t.bytes|
              && ProcessedBytes(c, t, settings) == t.length
    ensures NeverDecrypted(t.bytes, settings) ==>
              Plaintext(c, t.bytes, settings).Err? && InputBytes(c, t.bytes, settings) == 0
    ensures Detect(t.bytes).Some? && Plaintext(c, t.bytes, settings).Ok? ==>
              ProcessedBytes(c, t, settings) ==
                Dbenc.CipherBytes(c, t.bytes, SecretFor(Detect(t.bytes).value, settings))
                + |Plaintext(c, t.bytes, settings).value|
  {
    hide Detect, Dbenc.DecodeFile, Dbenc.DecryptProgress, Dbenc.CipherBytes;
  }

  /** `verify_isob3_target` on a path: it never reports an abort. */
  method VerifyIsob3Target(c: Crypto, path: Path, file: DiskFile, medium: Medium, mayAbort: bool)
    returns (v: IsoVerification, progress: nat, ghost isob3: Result<CheckOutcome>)
    requires Consistent(file, medium)
    ensures !LooksLikeIso(path) ==> v == IsoSkipped && progress == 0
    ensures LooksLikeIso(path) ==> v == MapCheckOutcome(isob3)
    ensures (isob3 == Err(Aborted) && mayAbort && LooksLikeIso(path)) || isob3 == CheckSpec(c, file.bytes, medium)
    ensures isob3 != Err(Aborted) && LooksLikeIso(path) ==> progress == CheckBytes(c, file.bytes, medium)
    ensures progress <= if medium.Regular? then |file.bytes| else DeclaredOrNone(file.bytes)
  {
    isob3 := CheckSpec(c, file.bytes, medium);
    if !LooksLikeIso(path) {
      return IsoSkipped, 0, isob3;
    }
    var outcome;
    outcome, progress := CheckIso(c, file, medium, mayAbort);
    return MapCheckOutcome(outcome), progress, outcome;
  }

  /** A decrypted target whose digest is wrong keeps its temporary file: that return
      comes before the cleanup. */
  predicate LeavesTemp(c: Crypto, target: Bytes, expected: string, settings: EncryptionSettings) {
    && Detect(target).Some? && Plaintext(c, target, settings).Ok?
    && Sha256sum.Hex(c.sha256(Plaintext(c, target, settings).value)) != expected
  }

  /** Where a poll of the cancel flag answered `stop`, if anywhere: while the
      plaintext was obtained and hashed, or during the ISOB3 pass. */
  datatype Stop = NotStopped | AtInput | AtIsob3

  /** The bytes an unstopped job reads and writes: the ISOB3 pass comes only after the
      digest agreed. */
  function JobBytes(c: Crypto, t: Source, expected: string, settings: EncryptionSettings): nat {
    InputBytes(c, t.bytes, settings) + IsoBytes(c, t, expected, settings)
  }

  function IsoBytes(c: Crypto, t: Source, expected: string, settings: EncryptionSettings): nat {
    var plain := Plaintext(c, t.bytes, settings);
    if plain.Ok? && Sha256sum.Hex(c.sha256(plain.value)) == expected then PassBytes(c, t, plain.value) else 0
  }

  /** `verify_manifest_entry`, for files and devices. Each of the two passes has its own
      cancel callback. Only a stop in the first aborts the job; a stop in the ISOB3 pass
      is a failed result like any other, cleanup included; an unstopped job passes
      exactly the right targets. What depends on the target's format being found holds
      when detection reads are full. */
  method VerifyManifestEntry(c: Crypto, target: DiskFile?, ghost t: Source, path: Path, medium: Medium, length: nat,
                             expected: string, settings: EncryptionSettings,
                             temps: TempDir, tempDir: string, stem: string,
                             inputMayAbort: bool, isob3MayAbort: bool, mayFallShort: bool)
    returns (o: JobOutcome, progress: nat, ghost stopped: Stop)
    requires temps.Valid() && IsStem(stem) && !IsRawDevice(TempPath(tempDir, stem, path))
    requires target != null ==> t.Valid() && t == Source(path, target.bytes, medium, length)
    modifies temps
    ensures temps.Valid()
    ensures (stopped == AtInput ==> inputMayAbort) && (stopped == AtIsob3 ==> isob3MayAbort)
    ensures o.JobAborted? <==> stopped == AtInput
    ensures stopped == AtIsob3 ==> o.Completed? && !o.result.ok && (!mayFallShort ==> NamedIso(t))
    ensures stopped != NotStopped ==> temps.files == old(temps.files)
    ensures target == null ==>
              o == Completed(Events.VerificationResult(false, 0)) && progress == 0 && temps.files == old(temps.files)
    ensures target != null && !mayFallShort && stopped == NotStopped ==>
              && o.Completed? && (o.result.ok <==> Passing(c, t, expected, settings))
              && progress == JobBytes(c, t, expected, settings)
              && if LeavesTemp(c, t.bytes, expected, settings)
                 then HasOneMore(old(temps.files), temps.files, Plaintext(c, t.bytes, settings))
                 else temps.files == old(temps.files)
    ensures target != null && !mayFallShort && o.Completed? && Plaintext(c, t.bytes, settings).Ok? ==>
              o.result.processedBytes == ProcessedBytes(c, t, settings)
    ensures target != null && !mayFallShort && t.IsFile() && !Unplanned(t.bytes, settings) ==>
              Min(progress, Events.U64_MAX) <= EstimatedTargetBytes(t, settings)
    ensures o.Completed? && o.result.ok && target != null ==>
              expected == Sha256sum.Hex(c.sha256(t.bytes)) || Passing(c, t, expected, settings)
  {
    hide Plaintext, InputBytes, PassBytes, LooksLikeIso, HasIsoExtension, IsRawDevice, Check, CheckSpec, CheckBytes,
         Sha256sum.Hex, EstimatedTargetBytes, Unplanned, NeverDecrypted, Detect, ProcessedBytes;
    stopped := NotStopped;
    if target == null {
      return Completed(Events.VerificationResult(false, 0)), 0, stopped;
    }
    var input;
    input, progress := BuildVerificationInput(c, target, t, length, settings, temps, inputMayAbort, mayFallShort);
    if !mayFallShort && t.IsFile() {
      WithinBudget(c, t, settings, progress, 0);
    }
    if input == Err(Aborted) {
      return JobAborted, progress, AtInput;
    } else if input.Err? {
      return Completed(Events.VerificationResult(false, 0)), progress, stopped;
    }
    var processed := input.value.processedBytes;
    if input.value.actual != expected {
      return Completed(Events.VerificationResult(false, processed)), progress, stopped;
    }
    var iso, more, isob3 := CheckInput(c, target, t, path, medium, input.value, temps, tempDir, stem, isob3MayAbort);
    stopped := if isob3 == Err(Aborted) then AtIsob3 else NotStopped;
    if !mayFallShort {
      PassOfInput(c, t, settings, input.value.decrypted.Some?);
      if t.IsFile() {
        WithinBudget(c, t, settings, progress, more);
      }
    }
    progress := progress + more;
    return Completed(Events.VerificationResult(iso == IsoValid || iso == IsoSkipped, processed)), progress, stopped;
  }

  /** The pass over the decrypted or the original file is the pass over the target. */
  lemma PassOfInput(c: Crypto, t: Source, settings: EncryptionSettings, decrypted: bool)
    requires decrypted <==> Detect(t.bytes).Some?
    requires Plaintext(c, t.bytes, settings).Ok?
    ensures var plain := Plaintext(c, t.bytes, settings).value;
            && (NamedIso(t) <==> if decrypted then HasIsoExtension(t.path.name) else LooksLikeIso(t.path))
            && RecordOutcome(c, t, plain) == (if decrypted then Check(c, plain) else CheckSpec(c, t.bytes, t.medium))
            && PassBytes(c, t, plain) ==
                 (if !NamedIso(t) then 0
                  else if decrypted then CheckBytes(c, plain, Regular) else CheckBytes(c, t.bytes, t.medium))
            && RecordOutcome(c, t, plain) != Err(Aborted)
  {
    hide Detect, LooksLikeIso, HasIsoExtension, CheckBytes, Plaintext;
  }

  /** One more temporary file than before, holding that plaintext. */
  ghost predicate HasOneMore(before: map<nat, Bytes>, after: map<nat, Bytes>, plain: Result<Bytes>) {
    plain.Ok? && exists id: nat :: id !in before && after == before[id := plain.value]
  }

  /** The ISOB3 pass over the decrypted file, or over the target itself, and the cleanup
      after it. */
  method CheckInput(c: Crypto, target: DiskFile, ghost t: Source, path: Path, medium: Medium, input: VerificationInput,
                    temps: TempDir, tempDir: string, stem: string, mayAbort: bool)
    returns (iso: IsoVerification, progress: nat, ghost isob3: Result<CheckOutcome>)
    requires temps.Valid() && IsStem(stem) && !IsRawDevice(TempPath(tempDir, stem, path))
    requires t.Valid() && t == Source(path, target.bytes, medium, t.length)
    requires input.decrypted.Some? ==> input.decrypted.value in temps.files
    modifies temps
    ensures temps.Valid()
    ensures temps.files ==
            if input.decrypted.Some? then old(temps.files) - {input.decrypted.value} else old(temps.files)
    ensures var named := if input.decrypted.Some? then HasIsoExtension(path.name) else LooksLikeIso(path);
            var outcome := if input.decrypted.Some? then Check(c, old(temps.files)[input.decrypted.value])
                           else CheckSpec(c, t.bytes, t.medium);
            var bytes := if input.decrypted.Some? then CheckBytes(c, old(temps.files)[input.decrypted.value], Regular)
                         else CheckBytes(c, t.bytes, t.medium);
            && iso == (if named then MapCheckOutcome(isob3) else IsoSkipped)
            && (isob3 == outcome || isob3 == Err(Aborted)) && (isob3 == Err(Aborted) ==> mayAbort && named)
            && (isob3 != Err(Aborted) ==> progress == if named then bytes else 0)
            && (!named ==> progress == 0 && isob3 != Err(Aborted))
    ensures t.medium.Regular? || input.decrypted.Some? ==>
              progress <= if input.decrypted.Some? then |old(temps.files)[input.decrypted.value]| else |t.bytes|
  {
    hide Check, CheckSpec, HasIsoExtension, IsRawDevice, CheckBytes;
    if input.decrypted.None? {
      CheckSpecNeverAborts(c, t.bytes, t.medium);
      iso, progress, isob3 := VerifyIsob3Target(c, path, target, medium, mayAbort);
    } else {
      TempKeepsIsoExtension(stem, path.name);
      var isoFile := new DiskFile(temps.files[input.decrypted.value]);
      CheckSpecOnFiles(c, isoFile.bytes);
      CheckSpecNeverAborts(c, isoFile.bytes, Regular);
      iso, progress, isob3 := VerifyIsob3Target(c, TempPath(tempDir, stem, path), isoFile, Regular, mayAbort);
      temps.Remove(input.decrypted.value);
    }
  }

  lemma CheckSpecNeverAborts(c: Crypto, bytes: Bytes, medium: Medium)
    ensures CheckSpec(c, bytes, medium) != Err(Aborted)
  {
  }

  // ── Embedded drives ─────────────────────────────────────────────────────────

  /** What `estimate_verification_source_bytes` answers: the length the file system
      reports or, where it reports none, the declared size. */
  function SourceBytes(t: Source): nat {
    if t.length > 0 then t.length else DeclaredOrNone(t.bytes)
  }

  /** The bytes an unstopped check of an embedded drive reports. */
  function DriveBytes(c: Crypto, t: Source): nat {
    if LooksLikeIso(t.path) then CheckBytes(c, t.bytes, t.medium) else 0
  }

  /** `verify_embedded_drive`, on any platform: it completes even when stopped, and
      passes exactly on a valid record unless a stop got in the way. Its progress is
      exact, its result carries the estimate. */
  method VerifyEmbeddedDrive(c: Crypto, file: DiskFile, ghost t: Source, path: Path, medium: Medium, length: nat,
                             mayAbort: bool)
    returns (o: JobOutcome, progress: nat, ghost stopped: bool)
    requires t.Valid() && t == Source(path, file.bytes, medium, length)
    ensures o.Completed? && (stopped ==> mayAbort && LooksLikeIso(path) && !o.result.ok)
    ensures !stopped ==>
              && (o.result.ok <==> LooksLikeIso(path) && MapCheckOutcome(CheckSpec(c, t.bytes, medium)) == IsoValid)
              && progress == DriveBytes(c, t)
    ensures o.result.processedBytes == SourceBytes(t)
    ensures medium.RawDevice? && length == 0 ==> progress <= SourceBytes(t)
  {
    hide LooksLikeIso, CheckBytes;
    var iso;
    ghost var isob3;
    iso, progress, isob3 := VerifyIsob3Target(c, path, file, medium, mayAbort);
    CheckSpecNeverAborts(c, file.bytes, medium);
    stopped := isob3 == Err(Aborted);
    var processed := length;
    if processed == 0 {
      var estimate := EstimateIsoBytes(file, medium);
      processed := if estimate.Ok? then estimate.value else 0;
    }
    return Completed(Events.VerificationResult(iso == IsoValid, processed)), progress, stopped;
  }

  /** Where the progress of an embedded drive keeps to its estimate, before anything is
      hashed: there is no record to check, the medium is read by sectors and has no
      length, or the contents are no longer than the estimate. */
  predicate DriveFits(t: Source) {
    || !LooksLikeIso(t.path) || !SeesPvd(t.bytes, t.medium.RawDevice?)
    || |t.bytes| < APP_END || ReadMetadata(Area(t.bytes)).None?
    || (if t.medium.RawDevice? then t.length == 0 || DeclaredBytesReached(t) <= t.length
        else |t.bytes| <= SourceBytes(t))
  }

  /** What a device yields: the declared image if the track holds it, or else the view. */
  function DeclaredBytesReached(t: Source): nat
    requires t.medium.RawDevice?
  {
    var total := DeclaredOrNone(t.bytes);
    if total <= |t.medium.track| && (total <= |t.bytes| || |t.bytes| % SECTOR == 0) then total
    else Min(total, |t.bytes|)
  }

  /** An unstopped check of an embedded drive keeps to its estimate exactly then. */
  lemma DriveFitsIff(c: Crypto, t: Source)
    requires t.Valid()
    ensures DriveBytes(c, t) <= SourceBytes(t) <==> DriveFits(t)
  {
    hide LooksLikeIso, ReadMetadata;
  }

  /** The progress of a passing drive is what its result reports, except for a Linux
      device that does not end where it declares to and lengths that are wrong. */
  lemma DriveBytesReported(c: Crypto, t: Source)
    requires t.Valid() && LooksLikeIso(t.path) && MapCheckOutcome(CheckSpec(c, t.bytes, t.medium)) == IsoValid
    ensures DriveBytes(c, t) == SourceBytes(t) <==>
            if t.length > 0 then t.length == if t.medium.RawDevice? then DeclaredOrNone(t.bytes) else |t.bytes|
            else t.medium.RawDevice? || |t.bytes| == DeclaredOrNone(t.bytes)
  {
    hide LooksLikeIso, ReadMetadata;
  }

  /** On Linux they do overrun: `/dev/sr0` is hashed to its end like a file but estimated
      by the size its descriptor declares. */
  lemma EmbeddedCanOverrun(c: Crypto) returns (t: Source)
    ensures t.Valid() && t.path == Path(Linux, "/dev/sr0", "sr0") && t.length == 0
    ensures MapCheckOutcome(CheckSpec(c, t.bytes, t.medium)) == IsoValid
    ensures |t.bytes| == PVD_OFFSET + PVD_SIZE && SourceBytes(t) == 0
    ensures DriveBytes(c, t) == |t.bytes| && !DriveFits(t)
  {
    var path := Path(Linux, "/dev/sr0", "sr0");
    var image := SmallImage();
    var bytes := Implanted(c, image);
    t := Source(path, bytes, Regular, 0);
    ImplantThenCheck(c, image, true);
    CheckSpecOnFiles(c, bytes);
    var field := bytes[PVD_OFFSET + 80..PVD_OFFSET + 84];
    assert field == Le(0, 4);
    Pow256Values();
    LeRoundTrip(0, 4);
    DriveFitsIff(c, t);
  }

  /** Seventeen sectors, the last a descriptor that declares none. */
  lemma SmallImage() returns (image: Bytes)
    ensures MayImplant(image, true) && |image| == PVD_OFFSET + PVD_SIZE
    ensures image[PVD_OFFSET + 80..PVD_OFFSET + 84] == Le(0, 4)
  {
    image := Zeros(PVD_OFFSET) + ([1] + Ascii("CD001") + [1]) + Zeros(PVD_SIZE - 7);
    assert image[PVD_OFFSET + 1..PVD_OFFSET + 6] == Ascii("CD001");
    assert Le(0, 4) == [0, 0, 0, 0];
  }

  // ── Budgets ─────────────────────────────────────────────────────────────────

  /** A DBENC005 target whose decryption was not planned, of which the ISOB3 pass read
      `iso` bytes (none, all, or some before a stop): exactly when the job still fits
      its estimate, whether or not the file decrypts. The plaintext unsealed, and the
      ISOB3 pass, must not outgrow what the planner counted beyond the ciphertext
      read: the header, the bytes left unread and, for an ISO name, one more pass. */
  lemma UnplannedBudgetIff(c: Crypto, t: Source, settings: EncryptionSettings, iso: nat)
    requires t.IsFile() && Unplanned(t.bytes, settings)
    requires iso > 0 ==> LooksLikeIso(t.path) && Plaintext(c, t.bytes, settings).Ok?
    ensures var trail := Dbenc.FramedTrail(c, DbEnc005, t.bytes, SecretFor(DbEnc005, settings));
            var plain := Plaintext(c, t.bytes, settings);
            && (plain.Ok? ==> trail.unsealed == |plain.value| && trail.unread < 4)
            && (Min(InputBytes(c, t.bytes, settings) + iso, Events.U64_MAX) <= EstimatedTargetBytes(t, settings)
                <==> UnplannedFits(c, t, settings, iso))
  {
    hide Dbenc.FramedTrail, Dbenc.DecodeFramed, Dbenc.FrameCountOf, LooksLikeIso, Detect, Lawful;
    var secret := SecretFor(DbEnc005, settings);
    if Plaintext(c, t.bytes, settings).Ok? {
      Dbenc.AcceptedFramedTrail(c, DbEnc005, t.bytes, secret);
    }
    assert InputBytes(c, t.bytes, settings) == Dbenc.FramedProgress(c, DbEnc005, t.bytes, secret);
    assert Passes(t, settings) * |t.bytes| == |t.bytes| + if LooksLikeIso(t.path) then |t.bytes| else 0;
  }

  predicate UnplannedFits(c: Crypto, t: Source, settings: EncryptionSettings, iso: nat) {
    var trail := Dbenc.FramedTrail(c, DbEnc005, t.bytes, SecretFor(DbEnc005, settings));
    || Passes(t, settings) * |t.bytes| >= Events.U64_MAX
    || trail.unsealed + iso <= Dbenc.PQE_HEADER_LEN + trail.unread + if LooksLikeIso(t.path) then |t.bytes| else 0
  }

  /** Some do overrun: 2000 bytes under a key that is loaded, decryption not enabled. */
  lemma UnplannedCanOverrun() returns (c: Crypto, t: Source, expected: string, settings: EncryptionSettings)
    ensures t.IsFile() && t.Valid() && Unplanned(t.bytes, settings) && Passing(c, t, expected, settings)
    ensures Min(JobBytes(c, t, expected, settings), Events.U64_MAX) > EstimatedTargetBytes(t, settings)
  {
    hide LooksLikeIso, Dbenc.EncodedBy, Sha256sum.Hex, Lawful, Plaintext, EstimatedTargetBytes, Unplanned, Passing,
         JobBytes, IsRawDevice;
    PlainLibraryIsLawful();
    c := PLAIN_LIBRARY;
    var dk, plain := Zeros(DK_LEN), Zeros(2000);
    var path := Path(Linux, "/mnt/notes.txt", "notes.txt");
    settings := EncryptionSettings(false, [], Readable(dk));
    var bytes := PlainPqeFile(c, dk, plain);
    t := Source(path, bytes, Regular, |bytes|);
    expected := Sha256sum.Hex(c.sha256(plain));
    NotesAreNoIso(path);
    LongPlaintextOverruns(c, plain, t, settings);
  }

  lemma LongPlaintextOverruns(c: Crypto, plain: Bytes, t: Source, settings: EncryptionSettings)
    requires t.IsFile() && !settings.enabled && LoadKey(settings.privateKey).Some? && !LooksLikeIso(t.path)
    requires Dbenc.EncodedBy(c, DbEnc005, SecretFor(DbEnc005, settings), plain, t.bytes)
    requires |plain| >= Dbenc.PQE_HEADER_LEN + 4 && |t.bytes| < Events.U64_MAX
    ensures var expected := Sha256sum.Hex(c.sha256(plain));
            && Unplanned(t.bytes, settings) && Passing(c, t, expected, settings)
            && Min(JobBytes(c, t, expected, settings), Events.U64_MAX) > EstimatedTargetBytes(t, settings)
  {
    hide IsRawDevice, Dbenc.EncodedBy, Sha256sum.Hex, Lawful, EstimatedTargetBytes, InputBytes, HasIsoExtension,
         Dbenc.FramedTrail;
    EncryptedTargetPasses(c, DbEnc005, plain, t, settings);
    Dbenc.DecodeInvertsEncryption(c, DbEnc005, SecretFor(DbEnc005, settings), plain, t.bytes);
    UnplannedBudgetIff(c, t, settings, 0);
    assert Passes(t, settings) == 1;
  }

  lemma NotesAreNoIso(path: Path)
    requires path == Path(Linux, "/mnt/notes.txt", "notes.txt")
    ensures !IsRawDevice(path) && !LooksLikeIso(path)
  {
    assert path.text[1] == 'm' && "/dev/sr"[1] == "/dev/scd"[1] == "/dev/cdrom"[1] == "/dev/dvd"[1] == 'd';
    var name := "notes.txt";
    assert name[8] == 't' && name[7] == 'x' && name[6] == 't' && name[5] == '.';
    assert name == "notes" + "." + "txt";
    ExtensionOfDotted("notes", "txt", 9);
    assert Sha256sum.Lower("txt")[0] == 't' && "iso"[0] == 'i';
  }

  /** A DBENC005 file of one frame, under the library that hides nothing. */
  lemma PlainPqeFile(c: Crypto, dk: Bytes, plain: Bytes) returns (bytes: Bytes)
    requires c == PLAIN_LIBRARY && |dk| == DK_LEN && 0 < |plain| <= CHUNK_SIZE
    ensures Dbenc.EncodedBy(c, DbEnc005, Dbenc.Secret(None, Some(dk)), plain, bytes)
    ensures |bytes| == Dbenc.PQE_HEADER_LEN + |plain| + 20
  {
    var prefix := Zeros(FramedAead.PREFIX_LEN);
    var kemCt := Zeros(KEM_CT_LEN);
    var k := FramedAead.BodyKey(DbEnc005, Zeros(32), prefix);
    var header := Dbenc.PqeHeader(kemCt, prefix);
    Dbenc.ParseInvertsPqeHeader(c, kemCt, prefix, dk);
    var chunks := [plain];
    assert chunks[1..] == [] && plain + [] == plain;
    assert FramedAead.Flatten(chunks) == plain;
    bytes := header + FramedAead.Encode(c, k, 0, chunks);
    FramedAead.EncodedLength(c, k, 0, chunks);
    assert Dbenc.IsFramed(c, DbEnc005, Dbenc.Secret(None, Some(dk)), plain, bytes, header, k, chunks);
  }

  /** A decrypted target leaves its temporary file exactly on a wrong digest. */
  lemma WrongDigestLeavesTemp(c: Crypto, f: Format, plain: Bytes, bytes: Bytes, expected: string,
                              settings: EncryptionSettings)
    requires if f == DbEnc005 then LoadKey(settings.privateKey).Some? else settings.enabled
    requires Dbenc.EncodedBy(c, f, SecretFor(f, settings), plain, bytes)
    ensures LeavesTemp(c, bytes, expected, settings) <==> expected != Sha256sum.Hex(c.sha256(plain))
  {
    hide Sha256sum.Hex;
    Dbenc.DecodeInvertsEncryption(c, f, SecretFor(f, settings), plain, bytes);
  }

  /** The decryption or hashing passes and the ISOB3 pass fit the planned estimate. */
  lemma WithinBudget(c: Crypto, t: Source, settings: EncryptionSettings, first: nat, iso: nat)
    requires t.IsFile()
    requires first <= (if Detect(t.bytes).Some? then 2 else 1) * |t.bytes|
    requires NeverDecrypted(t.bytes, settings) ==> first == 0
    requires iso > 0 ==> NamedIso(t) && iso <= |t.bytes| && Plaintext(c, t.bytes, settings).Ok?
    ensures !Unplanned(t.bytes, settings) ==> Min(first + iso, Events.U64_MAX) <= EstimatedTargetBytes(t, settings)
  {
    hide HasIsoExtension, IsRawDevice, Detect, Plaintext;
    if NeverDecrypted(t.bytes, settings) {
      NeverDecryptedFails(c, t.bytes, settings);
    }
    var n := |t.bytes|;
    assert Passes(t, settings) * n ==
           (if settings.enabled && Detect(t.bytes).Some? then n + n else n) + if LooksLikeIso(t.path) then n else 0;
  }

  /** What a target must satisfy, before the job starts, to keep to its estimate. */
  predicate TargetFits(c: Crypto, t: Source, expected: string, settings: EncryptionSettings) {
    !Unplanned(t.bytes, settings) || UnplannedFits(c, t, settings, IsoBytes(c, t, expected, settings))
  }

  /** Every file keeps to its estimate, except for DBENC005 files decrypted unplanned that
      are too long: exactly which. */
  lemma JobFitsIff(c: Crypto, t: Source, expected: string, settings: EncryptionSettings)
    requires t.IsFile()
    ensures Min(JobBytes(c, t, expected, settings), Events.U64_MAX) <= EstimatedTargetBytes(t, settings)
            <==> TargetFits(c, t, expected, settings)
  {
    hide HasIsoExtension, IsRawDevice, Detect, Plaintext, EstimatedTargetBytes, Unplanned, InputBytes, PassBytes,
         NeverDecrypted, UnplannedFits;
    var iso := IsoBytes(c, t, expected, settings);
    IsoBytesBound(c, t, expected, settings);
    if Unplanned(t.bytes, settings) {
      UnplannedBudgetIff(c, t, settings, iso);
    } else {
      InputBytesBound(c, t.bytes, settings);
      WithinBudget(c, t, settings, InputBytes(c, t.bytes, settings), iso);
    }
  }

  lemma IsoBytesBound(c: Crypto, t: Source, expected: string, settings: EncryptionSettings)
    requires t.IsFile()
    ensures var iso := IsoBytes(c, t, expected, settings);
            iso > 0 ==> NamedIso(t) && LooksLikeIso(t.path) && iso <= |t.bytes| && Plaintext(c, t.bytes, settings).Ok?
  {
    hide HasIsoExtension, IsRawDevice, Detect, Plaintext, ReadMetadata;
    if Plaintext(c, t.bytes, settings).Ok? {
      PlaintextFits(c, t.bytes, settings);
    }
  }

  lemma InputBytesBound(c: Crypto, bytes: Bytes, settings: EncryptionSettings)
    ensures InputBytes(c, bytes, settings) <= (if Detect(bytes).Some? then 2 else 1) * |bytes|
    ensures NeverDecrypted(bytes, settings) ==> InputBytes(c, bytes, settings) == 0
  {
    hide Detect, Dbenc.DecryptProgress;
    if Detect(bytes).Some? {
      Dbenc.ProgressBound(c, bytes, SecretFor(Detect(bytes).value, settings));
    }
  }

  lemma PlaintextFits(c: Crypto, bytes: Bytes, settings: EncryptionSettings)
    requires Plaintext(c, bytes, settings).Ok?
    ensures |Plaintext(c, bytes, settings).value| <= |bytes|
  {
    hide Detect, Dbenc.DecodeFile;
    if Detect(bytes).Some? {
      Dbenc.PlaintextIsShorter(c, bytes, SecretFor(Detect(bytes).value, settings));
    }
  }

  lemma NeverDecryptedFails(c: Crypto, bytes: Bytes, settings: EncryptionSettings)
    requires NeverDecrypted(bytes, settings)
    ensures Plaintext(c, bytes, settings).Err?
  {
    hide Detect;
  }

  // ── The estimates are tight ─────────────────────────────────────────────────

  /** A plain file that passes reports exactly its estimate: one pass, two for an ISO. */
  lemma PlainEstimateIsMet(c: Crypto, t: Source, expected: string, settings: EncryptionSettings)
    requires t.IsFile() && Detect(t.bytes).None? && Passing(c, t, expected, settings)
    ensures EstimatedTargetBytes(t, settings) == Min(JobBytes(c, t, expected, settings), Events.U64_MAX)
    ensures JobBytes(c, t, expected, settings) == if HasIsoExtension(t.path.name) then 2 * |t.bytes| else |t.bytes|
  {
    hide HasIsoExtension, IsRawDevice, Detect, ReadMetadata, Sha256sum.Hex;
  }

  /** For an encrypted file that passes, what is left over of the estimate is what the
      decryptor does not count as ciphertext, once, and what encryption added, once for
      the digest and once more for an ISO. */
  lemma EncryptedEstimateSlack(c: Crypto, t: Source, expected: string, settings: EncryptionSettings)
    requires t.IsFile() && Detect(t.bytes).Some? && settings.enabled && Passing(c, t, expected, settings)
    ensures var plain := Plaintext(c, t.bytes, settings).value;
            var cipher := Dbenc.CipherBytes(c, t.bytes, SecretFor(Detect(t.bytes).value, settings));
            Passes(t, settings) * |t.bytes| ==
              JobBytes(c, t, expected, settings) + (|t.bytes| - cipher)
              + (if HasIsoExtension(t.path.name) then 2 else 1) * (|t.bytes| - |plain|)
  {
    hide HasIsoExtension, IsRawDevice, Detect, ReadMetadata, Sha256sum.Hex, Dbenc.DecodeFile, Dbenc.CipherBytes,
         Dbenc.DecryptProgress;
    Dbenc.AcceptedProgress(c, t.bytes, SecretFor(Detect(t.bytes).value, settings));
  }

  /** What direnc wrote under a key, in whichever format it chose, opens with settings
      that hold the credential: the password, decryption enabled, or the 64 bytes of the
      private key. */
  lemma MatchingSettingsOpen(c: Crypto, key: Dbenc.EncKey, format: Format, plain: Bytes, bytes: Bytes,
                             settings: EncryptionSettings)
    requires Dbenc.EffectiveFormat(key, format).Some?
    requires forall secret :: Dbenc.Matches(c, key, secret) ==>
               Dbenc.EncodedBy(c, Dbenc.EffectiveFormat(key, format).value, secret, plain, bytes)
    requires match key
             case Password(p) => settings.enabled && settings.password == p
             case PublicKey(ek) =>
               && settings.privateKey.Readable? && |settings.privateKey.bytes| == 64
               && c.kemPublic(settings.privateKey.bytes) == ek
    ensures Plaintext(c, bytes, settings) == Ok(plain)
  {
    hide Dbenc.EncodedBy, Lawful, Dbenc.DecodeFile, Detect;
    var f := Dbenc.EffectiveFormat(key, format).value;
    assert Dbenc.Matches(c, key, SecretFor(f, settings));
    Dbenc.DecodeInvertsEncryption(c, f, SecretFor(f, settings), plain, bytes);
  }

  /** A private key opens anything only if it has exactly 64 bytes. */
  lemma OnlyWholeKeysOpen(c: Crypto, bytes: Bytes, settings: EncryptionSettings)
    requires Detect(bytes) == Some(DbEnc005) && Plaintext(c, bytes, settings).Ok?
    ensures settings.privateKey.Readable? && |settings.privateKey.bytes| == 64
    ensures Plaintext(c, bytes, settings) ==
            Dbenc.DecodeFile(c, bytes, Dbenc.Secret(None, Some(settings.privateKey.bytes)))
  {
    hide Detect, Dbenc.DecodeFile;
  }
}
