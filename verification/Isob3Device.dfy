/** The code around ISOB3 records: streaming and in-memory hashing, sector-aligned
    reads, raw devices with a hidden tail, and implant/check/remove on files
    (src/blake3iso_core/hash.rs, io.rs and mod.rs). */
module Isob3Device {
  import opened Prelude
  import opened Disk
  import opened Primitives
  import opened Formats
  import opened Isob3

  const SECTORS_PER_COMMAND: nat := 16

  /** A regular file, or a raw optical device whose `ReadFile` view is `file` and
      whose sectors, including those past the view, are `track`. */
  datatype Medium = Regular | RawDevice(track: Bytes)

  ghost predicate Consistent(file: DiskFile, medium: Medium)
    reads file
  {
    medium.RawDevice? ==> file.bytes <= medium.track
  }

  // ── Positioned reads ────────────────────────────────────────────────────────

  /** One past the last byte of the sectors covering [offset, offset + n). */
  function CoverEnd(offset: nat, n: nat): nat
    requires n > 0
  {
    ((offset + n - 1) / SECTOR + 1) * SECTOR
  }

  lemma CoverContains(offset: nat, n: nat)
    requires n > 0
    ensures var start := offset / SECTOR * SECTOR;
            && start <= offset && offset + n <= CoverEnd(offset, n)
            && start + ((offset + n - 1) / SECTOR - offset / SECTOR + 1) * SECTOR == CoverEnd(offset, n)
            && offset / SECTOR <= (offset + n - 1) / SECTOR
  {
    assert SECTOR == 2048;
  }

  /** `read_exact_at_raw`: reads whole sectors, slices out the request. */
  method ReadExactAtRaw(file: DiskFile, offset: nat, n: nat) returns (r: Option<Bytes>)
    requires n > 0
    ensures r == if CoverEnd(offset, n) <= |file.bytes| then Some(file.bytes[offset..offset + n]) else None
  {
    CoverContains(offset, n);
    var startSector := offset / SECTOR;
    var endSector := (offset + n - 1) / SECTOR;
    var size := (endSector - startSector + 1) * SECTOR;
    var aligned := startSector * SECTOR;
    var buf := ReadExactFrom(file, aligned, size);
    if buf.None? {
      return None;
    }
    SliceOfSlice(file.bytes, aligned, aligned + size, offset - aligned, offset - aligned + n);
    return Some(buf.value[offset - aligned..offset - aligned + n]);
  }

  /** `read_exact_at`. */
  method ReadExactAt(file: DiskFile, medium: Medium, offset: nat, n: nat) returns (r: Option<Bytes>)
    requires n > 0
    ensures r.Some? <==> (if medium.RawDevice? then CoverEnd(offset, n) else offset + n) <= |file.bytes|
    ensures r.Some? ==> offset + n <= |file.bytes| && r.value == file.bytes[offset..offset + n]
  {
    CoverContains(offset, n);
    if medium.RawDevice? {
      r := ReadExactAtRaw(file, offset, n);
    } else {
      r := ReadExactFrom(file, offset, n);
    }
  }

  predicate ValidPvdBytes(pvd: Bytes)
    requires |pvd| >= 7
  {
    pvd[0] == 1 && pvd[1..6] == Ascii("CD001") && pvd[6] == 1
  }

  lemma PvdBytes(image: Bytes, n: nat)
    requires n >= 7 && |image| >= PVD_OFFSET + n
    ensures ValidPvdBytes(image[PVD_OFFSET..PVD_OFFSET + n]) == ValidPvd(image)
  {
    var pvd := image[PVD_OFFSET..PVD_OFFSET + n];
    assert pvd[1..6] == image[PVD_OFFSET + 1..PVD_OFFSET + 6];
  }

  /** What `is_probably_iso` needs to see. A raw read takes the whole sector. */
  predicate SeesPvd(bytes: Bytes, raw: bool) {
    ValidPvd(bytes) && (raw ==> |bytes| >= PVD_OFFSET + SECTOR)
  }

  method IsProbablyIso(file: DiskFile, medium: Medium) returns (ok: bool)
    ensures ok <==> SeesPvd(file.bytes, medium.RawDevice?)
  {
    var pvd := ReadExactAt(file, medium, PVD_OFFSET, 7);
    if pvd.None? {
      return false;
    }
    PvdBytes(file.bytes, 7);
    return ValidPvdBytes(pvd.value);
  }

  /** The declared size: the volume space size (section 8.4.8 of ECMA-119) in sectors. */
  function DeclaredBytes(bytes: Bytes): (n: nat)
    requires |bytes| >= PVD_OFFSET + PVD_SIZE
    ensures n % SECTOR == 0 && n < TWO32 * SECTOR
  {
    Pow256Values();
    FromLeRoundTrip(bytes[PVD_OFFSET + 80..PVD_OFFSET + 84]);
    FromLe(bytes[PVD_OFFSET + 80..PVD_OFFSET + 84]) * SECTOR
  }

  predicate HasPvd(bytes: Bytes) {
    |bytes| >= PVD_OFFSET + PVD_SIZE && ValidPvd(bytes)
  }

  /** `estimate_iso_bytes`. */
  method EstimateIsoBytes(file: DiskFile, medium: Medium) returns (r: Result<nat>)
    ensures r == if HasPvd(file.bytes) then Ok(DeclaredBytes(file.bytes)) else Err(Failed)
  {
    var pvd := ReadExactAt(file, medium, PVD_OFFSET, PVD_SIZE);
    if pvd.None? {
      return Err(Failed);
    }
    PvdBytes(file.bytes, PVD_SIZE);
    if !ValidPvdBytes(pvd.value) {
      return Err(Failed);
    }
    SliceOfSlice(file.bytes, PVD_OFFSET, PVD_OFFSET + PVD_SIZE, 80, 84);
    return Ok(FromLe(pvd.value[80..84]) * SECTOR);
  }

  // ── Hidden track tail ───────────────────────────────────────────────────────

  /** The commands read [start, end) in order, at most sixteen sectors each. */
  ghost predicate Tiles(commands: seq<(nat, nat)>, start: nat, end: nat) {
    if commands == [] then start == end
    else
      && commands[0].0 == start && 1 <= commands[0].1 <= SECTORS_PER_COMMAND
      && Tiles(commands[1..], start + commands[0].1, end)
  }

  lemma {:induction false} TilesAppend(commands: seq<(nat, nat)>, start: nat, end: nat, count: nat)
    requires Tiles(commands, start, end) && 1 <= count <= SECTORS_PER_COMMAND
    ensures Tiles(commands + [(end, count)], start, end + count)
  {
    var all := commands + [(end, count)];
    if commands == [] {
      assert all[1..] == [];
    } else {
      TilesAppend(commands[1..], start + commands[0].1, end, count);
      assert all[0] == commands[0] && all[1..] == commands[1..] + [(end, count)];
    }
  }

  /** Tiling commands stay inside the range they cover, each after the previous. */
  lemma {:induction false} TilesStayInside(commands: seq<(nat, nat)>, start: nat, end: nat, i: nat)
    requires Tiles(commands, start, end) && i < |commands|
    ensures start <= commands[i].0 && commands[i].0 + commands[i].1 <= end && 1 <= commands[i].1 <= 16
    ensures i + 1 < |commands| ==> commands[i + 1].0 == commands[i].0 + commands[i].1
  {
    if i == 0 {
      if |commands| > 1 {
        TilesStayInside(commands[1..], start + commands[0].1, end, 0);
      } else {
        assert commands[1..] == [];
      }
    } else {
      TilesStayInside(commands[1..], start + commands[0].1, end, i - 1);
    }
  }

  /** `read_sectors_scsi`: READ(10) commands into consecutive pieces of `out`. A
      command fails when it leaves the track; the LBA overflow branch is the
      `lba + sector >= TWO32` test. */
  method ReadSectorsScsi(track: Bytes, lba: nat, n: nat) returns (out: Option<Bytes>, commands: seq<(nat, nat)>)
    requires lba < TWO32
    ensures n % SECTOR == 0 && lba + n / SECTOR <= TWO32 ==>
              out == if n == 0 || lba * SECTOR + n <= |track| then Some(SliceOrEmpty(track, lba * SECTOR, n)) else None
    ensures out.Some? ==> n % SECTOR == 0 && Tiles(commands, lba, lba + n / SECTOR)
  {
    hide Tiles, SliceOrEmpty;
    commands := [];
    if n % SECTOR != 0 {
      return None, commands;
    }
    NothingRead(track, lba);
    var sector, total := 0, n / SECTOR;
    var data: Bytes := [];
    while sector < total
      invariant 0 <= sector <= total && Tiles(commands, lba, lba + sector)
      invariant sector > 0 ==> (lba + sector) * SECTOR <= |track|
      invariant data == SliceOrEmpty(track, lba * SECTOR, sector * SECTOR)
    {
      var count := Min(SECTORS_PER_COMMAND, total - sector);
      if lba + sector >= TWO32 {
        return None, commands;
      }
      var start := (lba + sector) * SECTOR;
      if start + count * SECTOR > |track| {
        assert lba * SECTOR + n >= start + count * SECTOR;
        return None, commands;
      }
      ExtendSlice(track, lba * SECTOR, sector * SECTOR, count * SECTOR);
      data := data + track[start..start + count * SECTOR];
      TilesAppend(commands, lba, lba + sector, count);
      commands := commands + [(lba + sector, count)];
      sector := sector + count;
    }
    assert sector * SECTOR == n;
    return Some(data), commands;
  }

  lemma NothingRead(track: Bytes, lba: nat)
    ensures Tiles([], lba, lba) && SliceOrEmpty(track, lba * SECTOR, 0) == []
  {
  }

  lemma ExtendSlice(s: Bytes, start: nat, done: nat, more: nat)
    requires start + done + more <= |s|
    ensures SliceOrEmpty(s, start, done) + s[start + done..start + done + more] == SliceOrEmpty(s, start, done + more)
  {
  }

  function SliceOrEmpty(s: Bytes, start: nat, n: nat): Bytes {
    if start + n <= |s| then s[start..start + n] else []
  }

  // ── Hashing ─────────────────────────────────────────────────────────────────

  /** Blanks, in place, the part of `buf` that overlaps the application-use area. */
  method BlankOverlap(buf: array<Byte>, offset: nat)
    modifies buf
    ensures buf[..] == NormalizeAt(old(buf[..]), offset)
  {
    var overlapStart := Max(offset, APP_OFFSET);
    var overlapEnd := Min(offset + buf.Length, APP_END);
    ghost var before := buf[..];
    if overlapStart < overlapEnd {
      var s, e := overlapStart - offset, overlapEnd - offset;
      forall i | s <= i < e {
        buf[i] := FILL;
      }
    }
    assert forall i :: 0 <= i < buf.Length ==> buf[i] == if InArea(offset + i) then FILL else before[i];
    assert buf[..] == NormalizeAt(before, offset);
  }

  /** The loop of `compute_blake3_normalized_with_cancel`: hashes the next `limit`
      unread bytes (or all of them), whatever the reads return. */
  method AbsorbNormalized(reader: Handle, chunkSize: nat, limit: Option<nat>, mayAbort: bool)
    returns (aborted: bool, absorbed: Bytes, progress: nat)
    requires chunkSize > 0
    modifies reader
    ensures aborted ==> mayAbort
    ensures !aborted ==> absorbed == NormalizeAt(Prefix(old(reader.Rest()), limit), 0)
    ensures progress == |absorbed| <= |old(reader.Rest())| && (limit.Some? ==> progress <= limit.value)
  {
    hide NormalizeAt, Prefix, Lawful, InArea;
    absorbed, progress := [], 0;
    NormalizeNothing();
    ghost var all, taken, rest: Bytes := reader.Rest(), [], reader.Rest();
    while true
      invariant rest == reader.Rest() && taken + rest == all
      invariant absorbed == NormalizeAt(taken, 0) && progress == |taken|
      invariant limit.Some? ==> progress <= limit.value
      decreases |rest|
    {
      var abort: bool := *;
      if mayAbort && abort {
        return true, absorbed, progress;
      }
      if limit.Some? && progress >= limit.value {
        PrefixIsTaken(all, limit, taken, rest);
        return false, absorbed, progress;
      }
      var want := if limit.Some? then Min(chunkSize, limit.value - progress) else chunkSize;
      var chunk := reader.Read(want);
      if chunk == [] {
        PrefixIsTaken(all, limit, taken, rest);
        return false, absorbed, progress;
      }
      var blanked := Blanked(chunk, progress);
      NormalizeConcat(taken, chunk, 0);
      absorbed, progress := absorbed + blanked, progress + |chunk|;
      CarryChunk(taken, rest, chunk);
      taken, rest := taken + chunk, reader.Rest();
    }
  }

  /** The loop stops at the limit or at the end of the file. */
  lemma PrefixIsTaken(all: Bytes, limit: Option<nat>, taken: Bytes, rest: Bytes)
    requires all == taken + rest && (limit.Some? ==> |taken| <= limit.value)
    requires rest == [] || limit == Some(|taken|)
    ensures Prefix(all, limit) == taken
  {
  }

  lemma NormalizeNothing()
    ensures NormalizeAt([], 0) == []
  {
  }

  /** Loads a chunk into a buffer and blanks the overlap. */
  method Blanked(chunk: Bytes, offset: nat) returns (blanked: Bytes)
    ensures blanked == NormalizeAt(chunk, offset)
  {
    var buf := new Byte[|chunk|](i requires 0 <= i < |chunk| => chunk[i]);
    assert buf[..] == chunk;
    BlankOverlap(buf, offset);
    return buf[..];
  }

  function Prefix(s: Bytes, limit: Option<nat>): Bytes {
    match limit
    case None => s
    case Some(n) => if n <= |s| then s[..n] else s
  }

  /** What hashing a medium yields when it is not aborted. */
  function HashSpec(c: Crypto, bytes: Bytes, medium: Medium): Result<Bytes> {
    match medium
    case Regular => Ok(c.blake3(Normalize(bytes)))
    case RawDevice(track) =>
      if !HasPvd(bytes) then Err(Failed)
      else
        var total := DeclaredBytes(bytes);
        if total <= |track| && (total <= |bytes| || |bytes| % SECTOR == 0)
        then Ok(c.blake3(Normalize(track[..total])))
        else Err(Failed)
  }

  /** The declared size, or nothing where there is no descriptor. */
  function DeclaredOrNone(bytes: Bytes): nat {
    if HasPvd(bytes) then DeclaredBytes(bytes) else 0
  }

  /** The progress of an unstopped hash: on a device whose tail cannot be had, the view. */
  function HashBytes(c: Crypto, bytes: Bytes, medium: Medium): nat {
    if medium.Regular? then |bytes|
    else if HashSpec(c, bytes, medium).Ok? then DeclaredOrNone(bytes)
    else Min(DeclaredOrNone(bytes), |bytes|)
  }

  /** `compute_blake3_normalized_with_cancel`: a regular file hashes to its
      normalised whole; a device to the normalised image of exactly the declared
      size, its tail fetched past the end of the `ReadFile` view. The tail is not
      blanked, and need not be: reading the descriptor forces the view past the area. */
  method HashNormalized(c: Crypto, file: DiskFile, medium: Medium, chunkSize: nat, mayAbort: bool)
    returns (r: Result<Bytes>, progress: nat)
    requires chunkSize > 0 && Consistent(file, medium)
    ensures r == Err(Aborted) ==> mayAbort
    ensures r != Err(Aborted) ==> r == HashSpec(c, file.bytes, medium)
    ensures r != Err(Aborted) ==> progress == HashBytes(c, file.bytes, medium)
    ensures progress <= if medium.Regular? then |file.bytes| else DeclaredOrNone(file.bytes)
  {
    if medium.RawDevice? {
      r, progress := HashDevice(c, file, medium.track, chunkSize, mayAbort);
      return;
    }
    var reader := new Handle.Open(file);
    assert reader.Rest() == file.bytes;
    var aborted, absorbed;
    aborted, absorbed, progress := AbsorbNormalized(reader, chunkSize, None, mayAbort);
    r := if aborted then Err(Aborted) else Ok(c.blake3(absorbed));
  }

  /** The device half of the loop: the view, then the hidden tail. */
  method HashDevice(c: Crypto, file: DiskFile, track: Bytes, chunkSize: nat, mayAbort: bool)
    returns (r: Result<Bytes>, progress: nat)
    requires chunkSize > 0 && file.bytes <= track
    ensures r == Err(Aborted) ==> mayAbort
    ensures r != Err(Aborted) ==> r == HashSpec(c, file.bytes, RawDevice(track))
    ensures r != Err(Aborted) ==> progress == HashBytes(c, file.bytes, RawDevice(track))
    ensures progress <= DeclaredOrNone(file.bytes)
  {
    hide NormalizeAt, Prefix, Lawful, ValidPvd, DeclaredBytes, HashSpec, HashBytes, DeclaredOrNone;
    DeviceByParts(c, file.bytes, track);
    var estimate := EstimateIsoBytes(file, RawDevice(track));
    if estimate.Err? {
      return Err(Failed), 0;
    }
    var total := estimate.value;
    var reader := new Handle.Open(file);
    assert reader.Rest() == file.bytes;
    var aborted, absorbed;
    aborted, absorbed, progress := AbsorbNormalized(reader, chunkSize, Some(total), mayAbort);
    if aborted {
      return Err(Aborted), progress;
    }
    assert total == DeclaredBytes(file.bytes);
    ViewOfTrack(file.bytes, track, total);
    if progress < total {
      var tail := HashDeviceTail(file, track, progress, total);
      if tail.None? {
        return Err(Failed), progress;
      }
      absorbed, progress := absorbed + tail.value, total;
    }
    return Ok(c.blake3(absorbed)), progress;
  }

  /** The cases of what hashing a device yields and reports. */
  lemma DeviceByParts(c: Crypto, view: Bytes, track: Bytes)
    ensures var device := RawDevice(track);
            if !HasPvd(view) then
              HashSpec(c, view, device) == Err(Failed) && HashBytes(c, view, device) == DeclaredOrNone(view) == 0
            else
              var total := DeclaredBytes(view);
              && DeclaredOrNone(view) == total && total % SECTOR == 0
              && if total <= |track| && (total <= |view| || |view| % SECTOR == 0)
                 then HashSpec(c, view, device) == Ok(c.blake3(Normalize(track[..total]))) &&
                      HashBytes(c, view, device) == total
                 else HashSpec(c, view, device) == Err(Failed) && HashBytes(c, view, device) == Min(total, |view|)
  {
    hide Normalize, Lawful;
  }

  /** What the view holds of the declared image. */
  lemma ViewOfTrack(view: Bytes, track: Bytes, total: nat)
    requires view <= track
    ensures total <= |view| ==> Prefix(view, Some(total)) == track[..total]
    ensures total >= |view| ==> Prefix(view, Some(total)) == view
  {
  }

  lemma NormalizePastArea(piece: Bytes, offset: nat)
    requires offset >= APP_END
    ensures NormalizeAt(piece, offset) == piece
  {
    forall i | 0 <= i < |piece| ensures NormalizeAt(piece, offset)[i] == piece[i] {
      assert !InArea(offset + i);
    }
  }

  /** `hash_device_tail_scsi`: the bytes it feeds to the hasher are the normalised
      continuation of what was hashed before. */
  method HashDeviceTail(file: DiskFile, track: Bytes, offset: nat, total: nat) returns (tail: Option<Bytes>)
    requires HasPvd(file.bytes) && file.bytes <= track
    requires offset == |file.bytes| < total == DeclaredBytes(file.bytes)
    ensures tail.Some? <==> offset % SECTOR == 0 && total <= |track|
    ensures tail.Some? ==> NormalizeAt(file.bytes, 0) + tail.value == Normalize(track[..total])
  {
    if offset % SECTOR != 0 || total % SECTOR != 0 {
      return None;
    }
    var lba := offset / SECTOR;
    if lba >= TWO32 {
      return None;
    }
    assert lba * SECTOR == offset && lba + (total - offset) / SECTOR == total / SECTOR;
    var commands;
    tail, commands := ReadSectorsScsi(track, lba, total - offset);
    if tail.Some? {
      NormalizePastArea(tail.value, offset);
      NormalizeConcat(file.bytes, tail.value, 0);
      assert track[..total] == file.bytes + tail.value;
    }
  }

  /** `compute_blake3_normalized_bytes`: blanks a copy, then hashes it. */
  method HashNormalizedBytes(c: Crypto, bytes: Bytes) returns (digest: Bytes)
    ensures digest == c.blake3(Normalize(bytes))
  {
    var copy := new Byte[|bytes|](i requires 0 <= i < |bytes| => bytes[i]);
    assert copy[..] == bytes;
    var end := Min(APP_END, copy.Length);
    forall i | APP_OFFSET <= i < end {
      copy[i] := FILL;
    }
    assert forall i :: 0 <= i < copy.Length ==> copy[i] == if InArea(0 + i) then FILL else bytes[i];
    assert copy[..] == Normalize(bytes);
    digest := c.blake3(copy[..]);
  }

  // ── Checking ────────────────────────────────────────────────────────────────

  /** What checking a medium yields when it is not aborted. */
  function CheckSpec(c: Crypto, bytes: Bytes, medium: Medium): Result<CheckOutcome> {
    if !SeesPvd(bytes, medium.RawDevice?) || |bytes| < APP_END then Err(Failed)
    else
      var stored := ReadMetadata(Area(bytes));
      if stored.None? then Ok(Missing)
      else
        var actual := HashSpec(c, bytes, medium);
        if actual.Err? then Err(Failed) else Ok(Compare(stored, actual.value))
  }

  /** The progress of an unstopped check: nothing is hashed without a record to compare. */
  function CheckBytes(c: Crypto, bytes: Bytes, medium: Medium): nat {
    if !SeesPvd(bytes, medium.RawDevice?) || |bytes| < APP_END || ReadMetadata(Area(bytes)).None? then 0
    else HashBytes(c, bytes, medium)
  }

  /** On regular files this is the meaning the in-memory check has. */
  lemma CheckSpecOnFiles(c: Crypto, bytes: Bytes)
    ensures CheckSpec(c, bytes, Regular) == Check(c, bytes)
  {
  }

  /** `check_iso_with_progress_and_cancel`. */
  method CheckIso(c: Crypto, file: DiskFile, medium: Medium, mayAbort: bool)
    returns (r: Result<CheckOutcome>, progress: nat)
    requires Consistent(file, medium)
    ensures r == Err(Aborted) ==> mayAbort
    ensures r != Err(Aborted) ==> r == CheckSpec(c, file.bytes, medium)
    ensures r != Err(Aborted) ==> progress == CheckBytes(c, file.bytes, medium)
    ensures progress <= if medium.Regular? then |file.bytes| else DeclaredOrNone(file.bytes)
  {
    var iso := IsProbablyIso(file, medium);
    if !iso {
      return Err(Failed), 0;
    }
    var area := ReadExactAt(file, medium, APP_OFFSET, APP_SIZE);
    if area.None? {
      return Err(Failed), 0;
    }
    var stored := ReadMetadata(area.value);
    if stored.None? {
      return Ok(Missing), 0;
    }
    var actual;
    actual, progress := HashNormalized(c, file, medium, CHUNK_SIZE, mayAbort);
    if actual.Err? {
      return Err(actual.error), progress;
    }
    var outcome := if stored.value == actual.value then Valid(actual.value) else Invalid(stored.value, actual.value);
    return Ok(outcome), progress;
  }

  /** `check_iso_bytes`: on every byte string it agrees with `check_iso` on a
      regular file holding those bytes. */
  method CheckIsoBytes(c: Crypto, bytes: Bytes) returns (r: Result<CheckOutcome>)
    ensures r == Check(c, bytes)
  {
    if |bytes| < PVD_OFFSET + 7 {
      return Err(Failed);
    }
    PvdBytes(bytes, 7);
    if !ValidPvdBytes(bytes[PVD_OFFSET..PVD_OFFSET + 7]) || |bytes| < APP_END {
      return Err(Failed);
    }
    var stored := ReadMetadata(bytes[APP_OFFSET..APP_END]);
    if stored.None? {
      return Ok(Missing);
    }
    var actual := HashNormalizedBytes(c, bytes);
    return Ok(if stored.value == actual then Valid(actual) else Invalid(stored.value, actual));
  }

  // ── Discs as they are written ───────────────────────────────────────────────

  /** A field that holds n, least significant byte first, declares n sectors of 2048. */
  lemma DeclaredSectors(bytes: Bytes, n: nat)
    requires |bytes| >= PVD_OFFSET + PVD_SIZE && n < TWO32
    requires bytes[16 * 2048 + 80..16 * 2048 + 84] == Le(n, 4)
    ensures DeclaredBytes(bytes) == n * 2048
  {
    Pow256Values();
    LeRoundTrip(n, 4);
  }

  /** A disc that declares n sectors hashes to the normalised image of its first n
      sectors, whether the view ends before or after them, and reports n sectors. */
  lemma DiscHashesDeclaredImage(c: Crypto, view: Bytes, track: Bytes, n: nat)
    requires view <= track && HasPvd(view) && n < TWO32 && n * 2048 <= |track|
    requires view[16 * 2048 + 80..16 * 2048 + 84] == Le(n, 4)
    requires |view| % 2048 == 0 || n * 2048 <= |view|
    ensures HashSpec(c, view, RawDevice(track)) == Ok(c.blake3(Normalize(track[..n * 2048])))
    ensures HashBytes(c, view, RawDevice(track)) == n * 2048
  {
    DeclaredSectors(view, n);
  }

  /** An image implanted, written to a disc with padding after it, and read back through
      a view that shows whole sectors, its descriptor among them: the record is valid. */
  lemma ImplantedDiscPasses(c: Crypto, image: Bytes, n: nat, force: bool, padding: Bytes, view: Bytes)
    requires MayImplant(image, force) && |image| == n * 2048 && n < TWO32 && |image| >= PVD_OFFSET + PVD_SIZE
    requires image[16 * 2048 + 80..16 * 2048 + 84] == Le(n, 4)
    requires view <= Implanted(c, image) + padding && |view| % 2048 == 0 && |view| >= PVD_OFFSET + PVD_SIZE
    ensures var disc := RawDevice(Implanted(c, image) + padding);
            && CheckSpec(c, view, disc) == Ok(Valid(c.blake3(Normalize(image))))
            && CheckBytes(c, view, disc) == |image|
  {
    hide ReadMetadata, HashSpec, HashBytes, Le;
    var implanted := Implanted(c, image);
    var track := implanted + padding;
    ImplantThenCheck(c, image, force);
    assert track[..n * 2048] == implanted;
    SameDescriptor(image, implanted, view);
    DiscHashesDeclaredImage(c, view, track, n);
    NormalizeIgnoresOnlyArea(implanted, image);
  }

  /** What the descriptor says is the same in the image, implanted, and in the view. */
  lemma SameDescriptor(image: Bytes, implanted: Bytes, view: Bytes)
    requires |image| == |implanted| >= PVD_OFFSET + PVD_SIZE && |view| >= PVD_OFFSET + PVD_SIZE
    requires forall i :: 0 <= i < |image| && !InArea(i) ==> implanted[i] == image[i]
    requires forall i :: 0 <= i < PVD_OFFSET + PVD_SIZE ==> view[i] == implanted[i]
    ensures ValidPvd(view) == ValidPvd(implanted) && Area(view) == Area(implanted)
    ensures view[16 * 2048 + 80..16 * 2048 + 84] == image[16 * 2048 + 80..16 * 2048 + 84]
  {
    assert view[PVD_OFFSET + 1..PVD_OFFSET + 6] == implanted[PVD_OFFSET + 1..PVD_OFFSET + 6];
  }

  // ── Implanting and removing ─────────────────────────────────────────────────

  method WriteAppdata(file: DiskFile, area: Bytes)
    requires |area| == APP_SIZE
    modifies file
    ensures file.bytes == Overwrite(old(file.bytes), APP_OFFSET, area)
  {
    var f := new Handle.Open(file);
    f.SeekTo(APP_OFFSET);
    f.WriteAll(area);
  }

  /** `implant_iso`. */
  method ImplantIso(c: Crypto, file: DiskFile, force: bool) returns (r: Result<Bytes>)
    modifies file
    ensures r.Ok? <==> MayImplant(old(file.bytes), force)
    ensures r.Ok? ==> r.value == c.blake3(Normalize(old(file.bytes))) && file.bytes == Implanted(c, old(file.bytes))
    ensures r.Err? ==> file.bytes == old(file.bytes)
  {
    var iso := IsProbablyIso(file, Regular);
    if !iso {
      return Err(Failed);
    }
    var existing := ReadExactAt(file, Regular, APP_OFFSET, APP_SIZE);
    if existing.None? {
      return Err(Failed);
    }
    ghost var image := file.bytes;
    assert existing.value == Area(image);
    if existing.value[..8] == RECORD_MAGIC && !force {
      // already ours: overwrite
    } else if existing.value != BLANK && !force {
      return Err(Failed);
    }
    RemovedIsBlank(image);
    WriteAppdata(file, BLANK);
    NormalizeIgnoresOnlyArea(file.bytes, image);
    var digest, _ := HashNormalized(c, file, Regular, CHUNK_SIZE, false);
    var record := RECORD_MAGIC + [1, 1] + Le(32, 2) + Le(0, 4) + digest.value + Filled(APP_SIZE - 48, FILL);
    WithAreaTwice(image, BLANK, record);
    WriteAppdata(file, record);
    assert file.bytes == WithArea(WithArea(image, BLANK), record);
    return digest;
  }

  /** `remove_iso`. */
  method RemoveIso(file: DiskFile) returns (r: Result<()>)
    modifies file
    ensures r.Ok? <==> ValidPvd(old(file.bytes))
    ensures file.bytes == if r.Ok? then Removed(old(file.bytes)) else old(file.bytes)
  {
    var iso := IsProbablyIso(file, Regular);
    if !iso {
      return Err(Failed);
    }
    WriteAppdata(file, BLANK);
    return Ok(());
  }
}
