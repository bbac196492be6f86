# Disc encryption and verification: a Dafny model

The repository encrypts directory trees for optical discs (`direnc`), decrypts them again
(`discdecrypt`), implants BLAKE3 records into ISO images (`blake3iso`), and verifies discs
in a GUI whose background workers check SHA-256 manifests and ISOB3 records. This project
models its five cores and proves what they promise each other.

| part | files | what it holds |
|---|---|---|
| codecs | `Pbkdf2`, `Legacy`, `FramedAead`, `Dbenc`, `Formats`, `Primitives` | the DBENC001 streaming CBC codec, the framed AEAD body of DBENC002 to 005, headers and dispatch |
| digest | `Isob3`, `Isob3Device` | the normalised hash, raw devices with a hidden track tail, implant, check and remove |
| workers | `Pool`, `PoolRuns`, `Phases`, `Planner`, `Plan`, `Jobs`, `WorkerRun`, `Budget` | the worker pool as a transition system, the two phases, the planner, one job with its byte accounting, a whole run as the GUI sees it, and its bytes |
| GUI | `Events`, `GuiApp`, `Epochs` | the reducer over worker events, the user actions, and all runs ever started sharing replaceable channels |
| trees | `Sha256sum`, `Trees` | the manifest grammar with its printer, and directory trees through both tools |
| common | `Prelude`, `Disk` | bytes, fixed-width integers, files and handles |

Conventions.

- Every `read` in a loop returns an arbitrary non-empty prefix of what remains, up to the
  buffer size (`Disk.Handle.Read`), so each contract holds for all ways of splitting them.
  The one read that detects a format is trusted as it comes; where it may fall short is a
  parameter, `mayFallShort`, and contracts say what still holds then.
- `mayAbort` stands for a cancel callback: where it is true, every poll may answer either
  way. A contract under `r != Err(Aborted)` says what happens unless a poll said stop.
- Ciphers, hashes, Argon2id and ML-KEM are function values of a `Library`; the subset type
  `Crypto` states their laws (block decryption and encryption invert each other, `open`
  succeeds exactly on `seal` outputs, decapsulation inverts encapsulation, output lengths)
  and has a witness. Random salts, nonces and coins are parameters or arbitrary choices.
- Errors keep one distinction, the "operation aborted" sentinel against everything else.
- `progress` is the sum of the byte deltas sent.

Where code and documentation differ, the model follows the code:

- A worker that leaves in the middle of a batch returns without a done token
  (src/worker/execute.rs:94-108), and the phase then returns `Err`, although
  src/worker/mod.rs:142-143 announces `Ok`: `PoolRuns.AbortMidBatchIsAnError`,
  `PoolRuns.WaitReturnsOkIff`.
- `Ok` alone does not mean complete: a worker that breaks at a batch boundary still sends
  its token (`PoolRuns.OkMayBeIncomplete`). It means complete exactly when no `Aborted`
  was sent (`PoolRuns.OkIsCompleteIff`). With `max_workers = 0` nothing runs
  (`PoolRuns.NoWorkersRunNothing`).
- Manifests that fail to load add to `done` but not to `total`, so `verifying` can fall
  before the last result. It does, and results are left over, exactly when a manifest
  failed and more than one job was planned (`WorkerRun.NoneLateIff`); for every such plan
  there is a run whose last result is counted for the run after it
  (`Epochs.LateResultHappens`).
- An abort during the ISOB3 pass makes a failed result, not an aborted job
  (`Jobs.VerifyManifestEntry`, `Jobs.VerifyEmbeddedDrive`).
- A decrypted target whose digest is wrong leaves its temporary file behind
  (`Jobs.VerifyManifestEntry`, `Jobs.WrongDigestLeavesTemp`).
- A DBENC005 target is decrypted with its key even where decryption is not enabled, and
  the estimate then misses a pass; `Jobs.UnplannedBudgetIff` says when it still suffices,
  `Jobs.UnplannedCanOverrun` gives a file for which it does not.
- On Linux an optical drive is hashed to its end like a file but reported by the size its
  descriptor declares: `Jobs.DriveFitsIff` says when its progress keeps to its estimate,
  `Jobs.EmbeddedCanOverrun` gives a drive, and `Budget.DiscCanOverrun` a whole run, that
  does not.
- The phase barrier rests on the cancel flag staying set. A start after an abort clears it
  under the old run, which can then enter its embedded phase with SHA-256 jobs undone:
  `Phases.FreeBarrierIff` gives the exact condition, `Phases.BarrierCanFail` a run.
- A detection read that falls short makes discdecrypt copy ciphertext as it is and a worker
  hash it as plaintext (`Trees.RestoreFile`, `Trees.TreeRoundTrip`,
  `Jobs.BuildVerificationInput`).
- `make_aead_nonce` overwrites the low bytes of the prefix and does not combine them by
  exclusive or; one to three bytes after the last frame count as a clean end
  (`FramedAead.EncodeInvertsDecode`).
- `remove_iso` writes without checking the length first and can lengthen a file that ends
  before the record area does (`Isob3.RemoveKeepsLength` gives the condition, `Isob3.RemoveCanLengthen` a file).
- An exclude of several components excludes what is below all of them, not every path whose
  first component matches as src/bin/direnc.rs:416 says (`Trees.ExcludeTakesOut`).
- The record area is hashed as spaces, not zeros as src/blake3iso_core/mod.rs:17 says
  (`Isob3.NormalizeBlanksField`).
- Manifests are skipped by file name (src/sha256sum.rs:57-70), not by content as
  docs/direnc.md:45 says; a file skipped this way that starts with a DBENC magic is the
  one thing that spoils the tree round trip (`Trees.TreeRoundTrip`,
  `Trees.SkippedMagicSpoils`).

## Model

| member | source | states |
|---|---|---|
| `Pbkdf2.Pbkdf2HmacSha256` | src/dbenc/mod.rs:331-347 | the nested in-place loops fill the buffer with T_1, T_2, … of section 5.2 of RFC 8018, truncated to its length |
| `Pbkdf2.ShorterKeyIsPrefix` | src/dbenc/mod.rs:331-347 | a shorter derived key is a prefix of a longer one |
| `Pbkdf2.BlockByte` | src/dbenc/mod.rs:331-347 | byte i of the key is byte i mod 32 of block i / 32 + 1 |
| `Pbkdf2.FirstInput` | src/dbenc/mod.rs:331-347 | the first value of a block is the PRF, keyed by the password, of the salt and the block number, most significant byte first |
| `Pbkdf2.ValuesAreChained` | src/dbenc/mod.rs:331-347 | every further value is the PRF of the one before it |
| `Pbkdf2.BitOfKey` | src/dbenc/mod.rs:331-347 | a bit of the key is set exactly when it is set in an odd number of the values of its block |
| `Pbkdf2.OnlyKeyedPrfMatters` | src/dbenc/mod.rs:331-347 | the password enters as the key of the PRF and nothing else of the library enters |
| `Prelude.BeDigit` | src/dbenc/mod.rs:336 | byte i of a big-endian field of w bytes is digit w - 1 - i to base 256 |
| `Prelude.LeDigit` | src/dbenc/aead.rs:59-60 | byte i of a little-endian field is digit i |
| `Prelude.FromLeDigit` | src/dbenc/aead.rs:183-187 | reading a little-endian field weighs byte i as digit i |
| `Prelude.XorAt` | src/dbenc/mod.rs:341-343 | a bit is set exactly when it is set in one of the operands |
| `Formats.DetectIffMagic` | src/dbenc/mod.rs:170-187 | a file is of a format exactly when it starts with that format's magic |
| `Formats.MagicIsInjective` | src/dbenc/mod.rs:45-49 | no two formats share a magic |
| `Formats.MagicSpells` | src/dbenc/mod.rs:45-49 | the magics byte by byte |
| `Dbenc.DetectFormat` | src/dbenc/mod.rs:170-187 | a single read decides: the format is found exactly if that read returns the whole magic, and missed only if it may fall short |
| `Legacy.CbcRoundTrip` | src/dbenc/legacy.rs:427-457 | CBC decryption undoes CBC encryption under the same key and IV |
| `Legacy.CbcInverse` | src/dbenc/legacy.rs:427-457 | CBC encryption undoes CBC decryption, so ciphertexts decode uniquely |
| `Legacy.UnpadInvertsPad` | src/dbenc/legacy.rs:341-355 | padding of section 6.3 of RFC 5652 is removed again, for every length |
| `Legacy.PadInvertsUnpad` | src/dbenc/legacy.rs:341-355 | what the padding test accepts is the padding of what it returns |
| `Legacy.HoldBackAgrees` | src/dbenc/legacy.rs:278-372 | holding one block back gives on every byte string what decoding the whole does, errors included |
| `Legacy.ParseInvertsHeaderBytes` | src/dbenc/legacy.rs:129-170 | a written header parses back to its salt, IV and MAC; the cipher key is the first PBKDF2 block after 600000 rounds, the MAC key the second |
| `Legacy.AcceptedHeaderIff` | src/dbenc/legacy.rs:129-170 | a header is accepted exactly when it is the one written for its salt and IV, up to the reserved bytes |
| `Legacy.DocumentedLayout` | src/dbenc/legacy.rs:5-12 | where each field of the file lies, with which keys, and that the MAC is that of header and ciphertext |
| `Legacy.CbcBlock` | src/dbenc/legacy.rs:443-457 | block i of a ciphertext is the cipher of plaintext block i exclusive-or the ciphertext block before it (section 6.2 of NIST SP 800-38A) |
| `Legacy.CbcPlainBlock` | src/dbenc/legacy.rs:427-440 | the same for decryption |
| `Legacy.OnlyMacAndCipherMatter` | src/dbenc/legacy.rs:173-194 | decoding depends on HMAC and block decryption and on nothing else of the library |
| `Legacy.DecodeInvertsEncode` | src/dbenc/legacy.rs:54-112 | the written file is header, HMAC of header and ciphertext, ciphertext; its length is 80 + 16(n/16 + 1); it decodes to the plaintext |
| `Legacy.EncodeInvertsDecode` | src/dbenc/legacy.rs:173-194 | an accepted file is the encoding of the plaintext it decodes to, under the header it carries |
| `Legacy.PlaintextIsShorter` | src/dbenc/legacy.rs:173-194 | a decoded plaintext is shorter than the ciphertext, by at most a block |
| `Legacy.EncryptReads` | src/dbenc/legacy.rs:379-424 | the `pending` loop writes the CBC encryption of all whole blocks, however reads split, and carries less than a block |
| `Legacy.EncryptStream` | src/dbenc/legacy.rs:379-424 | the stream written is the CBC encryption of the padded source |
| `Legacy.BuildHeader` | src/dbenc/legacy.rs:36-48 | the slice copies lay the header out as its parser expects |
| `Legacy.EncryptFile` | src/dbenc/legacy.rs:54-112 | after the MAC is patched in by seeking back, the file is exactly the encoding of the source |
| `Legacy.ParseLegacyHeader` | src/dbenc/legacy.rs:129-170 | magic and round count are checked, keys derived through the PBKDF2 loop |
| `Legacy.ReadHeader` | src/dbenc/legacy.rs:117-126 | a file's header is parsed, or the file is too short |
| `Legacy.DecryptCbcBytes` | src/dbenc/legacy.rs:460-491 | the in-memory loop computes whole-message CBC decoding with its errors |
| `Legacy.DecryptBytes` | src/dbenc/legacy.rs:173-194 | the in-memory decoder computes the file's meaning |
| `Legacy.VerifyHmac` | src/dbenc/legacy.rs:215-250 | the first pass accepts exactly the right MAC and counts every ciphertext byte once |
| `Legacy.DecryptReads` | src/dbenc/legacy.rs:308-340 | the second pass writes all but the block held back, whatever the splits |
| `Legacy.DecryptToWriter` | src/dbenc/legacy.rs:278-372 | the second pass yields the held-back decoding, its digest and its length |
| `Legacy.DecryptToTemp` | src/dbenc/legacy.rs:253-274 | the length check and the second pass decode the ciphertext, with exact progress in each case of failure |
| `Legacy.DecryptFileToTemp` | src/dbenc/legacy.rs:197-212 | the streaming decoder agrees with the in-memory decoder on every file: success, failure and plaintext; its progress is exact on failure too, is ciphertext plus plaintext on success, and never exceeds two passes |
| `Legacy.AcceptedProgress` | src/dbenc/legacy.rs:231-361 | on accepted files the exact progress is one pass and the plaintext |
| `FramedAead.DecodeInvertsEncode` | src/dbenc/aead.rs:263-342 | frames decode to their chunks, with up to three bytes after them ignored |
| `FramedAead.EncodeInvertsDecode` | src/dbenc/aead.rs:268-342 | an accepted body is the encoding of the returned chunks at consecutive indices, then fewer than four bytes |
| `FramedAead.AcceptedTrail` | src/dbenc/aead.rs:268-342 | an accepted body is unsealed throughout: plaintext, overhead and unread bytes add up to it |
| `FramedAead.AcceptedFrame` | src/dbenc/aead.rs:268-325 | an accepted frame is the sealing of its chunk under the index's nonce and AAD |
| `FramedAead.EncodedLength` | src/dbenc/aead.rs:103-155 | a body of k frames is n + 20k bytes |
| `FramedAead.FrameCount` | src/dbenc/aead.rs:103-155 | between ⌈n / 2^20⌉ and n frames carry n bytes |
| `FramedAead.NoncesAreDistinct` | src/dbenc/mod.rs:362-378 | nonces of one run are pairwise distinct for all indices below 2^64 |
| `FramedAead.AadIff` | src/dbenc/mod.rs:381-387 | two AADs agree exactly when format, length and the index modulo 2^32 agree |
| `FramedAead.MakeNonce` | src/dbenc/mod.rs:362-378 | overwriting the prefix in place gives the nonce of the index, cut to the cipher's width |
| `FramedAead.MakeAad` | src/dbenc/mod.rs:381-387 | the three copies into the buffer lay out magic, length and index |
| `FramedAead.DocumentedFrame` | src/dbenc/mod.rs:362-407 | chunk i lies at its offset as its length and its sealing by AES-GCM for DBENC002 and by XChaCha20-Poly1305 otherwise; nonce and AAD field by field |
| `FramedAead.OnlyItsCipherWrites` | src/dbenc/aead.rs:119-150 | a body is the same under every library with the same cipher for its format |
| `FramedAead.OnlyItsCipherReads` | src/dbenc/aead.rs:290-325 | so is what a body decodes to, and how far |
| `FramedAead.EncryptBody` | src/dbenc/aead.rs:103-155 | the loop writes the frames of some chunking of the source and returns the body length |
| `FramedAead.WriteFrame` | src/dbenc/mod.rs:390-407 | appends length and sealed chunk, returns their size |
| `FramedAead.ReadFrame` | src/dbenc/aead.rs:268-325 | one frame: clean end, failure, or a plaintext with the rest left to decode |
| `FramedAead.DecryptBody` | src/dbenc/aead.rs:241-342 | the loop computes the decoding of the body, its digest and exact byte counts; its progress is exact whether it succeeds or fails |
| `Dbenc.ParseInvertsAeadHeader` | src/dbenc/aead.rs:41-79 | a DBENC002 or 003 header parses back to key and nonce prefix |
| `Dbenc.AcceptedAeadHeaderIff` | src/dbenc/aead.rs:168-217 | a header is accepted as DBENC002 or 003 exactly when it is the one written for its salt and prefix, up to chunk size and reserved bytes |
| `Dbenc.ParseInvertsArgon2Header` | src/dbenc/argon2.rs:60-87 | a DBENC004 header parses back with the cost parameters it stores |
| `Dbenc.ParseInvertsPqeHeader` | src/dbenc/pqe.rs:77-117 | a DBENC005 header parses back to the decapsulated key and prefix |
| `Dbenc.AeadHeaderLayout` | src/dbenc/aead.rs:8-17 | every field of a DBENC002 or 003 header, byte by byte |
| `Dbenc.Argon2HeaderLayout` | src/dbenc/argon2.rs:68-75 | the same for DBENC004 |
| `Dbenc.PqeHeaderLayout` | src/dbenc/pqe.rs:99-105 | the same for DBENC005 |
| `Dbenc.StoredCostsAreUsed` | src/dbenc/argon2.rs:90-137 | whatever costs a DBENC004 header stores are those its key is derived with |
| `Dbenc.OnlyItsPrimitivesMatter` | src/dbenc/mod.rs:249-290 | a file opens the same under every library that agrees on the primitives of its format: each format has its own |
| `Dbenc.DecodeInvertsEncryption` | src/dbenc/mod.rs:249-290 | every encryption in every format is recognised and decrypts to the plaintext under a matching credential |
| `Dbenc.AcceptedFramedFile` | src/dbenc/aead.rs:268-342 | an accepted framed file is its header, the frames of the returned chunks counted from zero, and fewer than four bytes |
| `Dbenc.DeriveKey` | src/dbenc/aead.rs:67-68 | keys come from the PBKDF2 loop |
| `Dbenc.BuildAeadHeader` | src/dbenc/aead.rs:55-66 | the slice copies lay the header out as its parser expects |
| `Dbenc.BuildArgon2Header` | src/dbenc/argon2.rs:68-75 | the same for DBENC004 |
| `Dbenc.BuildPqeHeader` | src/dbenc/pqe.rs:99-105 | the same for DBENC005 |
| `Dbenc.EncryptFramed` | src/dbenc/argon2.rs:158-192 | header and body of some chunking are written; the total reported is n + 20k |
| `Dbenc.EncryptFile` | src/dbenc/mod.rs:225-246 | encryption succeeds exactly when the format fits the credential and key setup works; the file then opens under every matching credential |
| `Dbenc.EncryptAead` | src/dbenc/aead.rs:83-155 | a DBENC002 or 003 file starts with its documented header and opens to its source |
| `Dbenc.EncryptArgon2` | src/dbenc/argon2.rs:140-192 | a DBENC004 file starts with its documented header and opens to its source, if Argon2id accepts its parameters |
| `Dbenc.EncryptPqe` | src/dbenc/pqe.rs:77-151 | a DBENC005 file starts with its documented header and opens under the private key of the public key used |
| `Dbenc.DecryptFramedToTemp` | src/dbenc/pqe.rs:241-343 | temporary file, digest and counts are those of the decoding; `cipher_bytes` is n + 20k |
| `Dbenc.DecryptToTemp` | src/dbenc/mod.rs:265-290 | the dispatch by detected format computes the file's meaning under a password; a detection read that falls short makes it fail and do nothing; progress is exact and within two passes |
| `Dbenc.DecryptWithSecret` | src/worker/execute.rs:312-352 | with the credential a file's format needs, the chosen decryptor computes its meaning; DBENC005 does not detect again |
| `Dbenc.AcceptedProgress` | src/dbenc/aead.rs:286-330 | on every accepted file the exact progress is `cipher_bytes` plus plaintext |
| `Dbenc.PlaintextIsShorter` | src/dbenc/mod.rs:265-290 | in every format a plaintext is shorter than its file |
| `Dbenc.DecryptFile` | src/dbenc/mod.rs:199-219 | the in-memory decryptor gives the same plaintext and count, refuses DBENC005, and only fails if a detection read falls short |
| `Dbenc.RoundTrip` | src/dbenc/mod.rs:225-290 | encrypt then decrypt with independently split reads returns the plaintext by both decoders; a detection read that falls short can make decryption fail but never go wrong |
| `Isob3.NormalizeConcat` | src/blake3iso_core/hash.rs:108-125 | blanking piece by piece is blanking the whole, wherever pieces meet |
| `Isob3.NormalizeIgnoresOnlyArea` | src/blake3iso_core/hash.rs:168-176 | two images normalise alike exactly when they agree outside the area |
| `Isob3.ReadMetadataInvertsRecord` | src/blake3iso_core/mod.rs:110-123 | the record written for a digest reads back as that digest |
| `Isob3.ReadMetadataIff` | src/blake3iso_core/mod.rs:110-123 | a digest is read exactly from its own record, up to the flags and what follows the digest |
| `Isob3.ImplantThenCheck` | src/blake3iso_core/mod.rs:250-282 | an implanted image checks valid with its digest and differs only inside the area |
| `Isob3.ImplantTwice` | src/blake3iso_core/mod.rs:250-282 | implanting again is allowed and changes no byte |
| `Isob3.RemoveAfterImplant` | src/blake3iso_core/mod.rs:286-292 | removal makes the check report no record, and restores the image exactly when its area was blank |
| `Isob3.RemoveKeepsLength` | src/blake3iso_core/mod.rs:286-292 | removal keeps a file's length exactly when the file reaches the end of the area |
| `Isob3.RemoveCanLengthen` | src/blake3iso_core/mod.rs:286-292 | a file that removal lengthens |
| `Isob3.OutcomeIgnoresRest` | src/blake3iso_core/mod.rs:110-123 | record bytes 12..16 and 48..512 do not influence the outcome |
| `Isob3.ValidDigestFixesContent` | src/blake3iso_core/mod.rs:150-185 | images valid under one digest agree outside the area, or BLAKE3 collides |
| `Isob3.TamperingIsReported` | src/blake3iso_core/mod.rs:150-185 | a change outside the area that keeps the descriptor header is reported, or BLAKE3 collides |
| `Isob3.RecordLayout` | src/blake3iso_core/mod.rs:8-15 | the record byte by byte |
| `Isob3.PvdLayout` | src/blake3iso_core/mod.rs:88-93 | an image is recognised by the first seven bytes of sector 16 |
| `Isob3.NormalizeBlanksField` | src/blake3iso_core/hash.rs:168-176 | bytes 884 to 1395 of that sector are hashed as spaces and nothing else is changed |
| `Isob3.OnlyBlake3Matters` | src/blake3iso_core/mod.rs:191-225 | check and implant depend on BLAKE3 and on nothing else of the library |
| `Isob3.RemovalMakesRoom` | src/blake3iso_core/mod.rs:250-292 | after a removal an unforced implant is accepted, whatever was in the area, and checks as valid |
| `Isob3Device.ReadExactAtRaw` | src/blake3iso_core/io.rs:98-116 | whole sectors are read and the request cut out of them; it fails exactly when the covering sectors end past the file |
| `Isob3Device.ReadExactAt` | src/blake3iso_core/io.rs:83-95 | the two positioned reads return the same bytes and differ in how far the file must reach |
| `Isob3Device.EstimateIsoBytes` | src/blake3iso_core/mod.rs:232-243 | the declared size is read from a valid descriptor or refused |
| `Isob3Device.DeclaredSectors` | src/blake3iso_core/mod.rs:232-243 | a descriptor whose field was written as n declares n sectors of 2048 bytes |
| `Isob3Device.DiscHashesDeclaredImage` | src/blake3iso_core/hash.rs:57-165 | a disc that declares n sectors hashes to the normalised image of its first n sectors and reports their size |
| `Isob3Device.ImplantedDiscPasses` | src/blake3iso_core/mod.rs:150-185 | an implanted image written to a disc, padded, and read through any view of whole sectors checks as valid |
| `Isob3Device.TilesStayInside` | src/blake3iso_core/io.rs:230-302 | tiling commands are consecutive, stay inside the range, and read one to sixteen sectors each |
| `Isob3Device.ReadSectorsScsi` | src/blake3iso_core/io.rs:201-305 | commands of at most 16 sectors tile the range and return its bytes; below 2^32 sectors the LBA branch never fires |
| `Isob3Device.BlankOverlap` | src/blake3iso_core/hash.rs:108-121 | the in-place fill blanks exactly the overlap of a chunk with the area |
| `Isob3Device.AbsorbNormalized` | src/blake3iso_core/hash.rs:83-125 | for all splits the hasher sees the normalised prefix up to the limit |
| `Isob3Device.HashDeviceTail` | src/blake3iso_core/hash.rs:134-160 | after a view ending on a sector, the tail continues the normalised image; it never meets the area and no size or LBA branch fires |
| `Isob3Device.HashDevice` | src/blake3iso_core/hash.rs:67-131 | view plus tail hash to the normalised image of exactly the declared size |
| `Isob3Device.HashNormalized` | src/blake3iso_core/hash.rs:57-131 | files hash to their normalised whole, devices to the declared image; progress is exact, on failure too |
| `Isob3Device.HashNormalizedBytes` | src/blake3iso_core/hash.rs:168-176 | the in-memory hash is the hash of the normalised image |
| `Isob3Device.CheckSpecOnFiles` | src/blake3iso_core/mod.rs:150-185 | on files the streaming check means what the in-memory check means, on every byte string |
| `Isob3Device.CheckIso` | src/blake3iso_core/mod.rs:150-185 | the streaming check computes that meaning on files and devices; its progress is exact whether it succeeds or fails, and bounded by the file or the declared size even when stopped |
| `Isob3Device.CheckIsoBytes` | src/blake3iso_core/mod.rs:191-225 | the in-memory check computes the same outcome |
| `Isob3Device.ImplantIso` | src/blake3iso_core/mod.rs:250-282 | succeeds exactly when allowed, writes the record of the image's digest, and otherwise changes nothing |
| `Isob3Device.RemoveIso` | src/blake3iso_core/mod.rs:286-292 | blanks the area exactly of images with a valid descriptor |
| `Pool.StepKeepsInv` | src/worker/execute.rs:81-132 | every step of feeder and workers, at any value of the cancel flag, keeps ownership, order, token and completion invariants |
| `PoolRuns.PoolSafety` | src/worker/execute.rs:81-113 | in every reachable state a batch has at most one owner, at most min(max_workers, batches) are held, no job starts twice, results are a prefix of the jobs in order |
| `PoolRuns.FullOccupancy` | src/worker/execute.rs:60-113 | and min(max_workers, batches) batches are held at once in some reachable state |
| `PoolRuns.TokenAccounting` | src/worker/execute.rs:88-112 | tokens sent, live workers and mid-batch leavers add up to the workers |
| `PoolRuns.NoDeadlock` | src/worker/execute.rs:67-132 | short of termination some action is enabled, whatever the flag says |
| `PoolRuns.StepDecreases` | src/worker/execute.rs:67-132 | every step uses up a measure |
| `PoolRuns.RunsAreBounded` | src/worker/execute.rs:67-132 | no run is longer than the measure it starts with |
| `PoolRuns.WaitReturnsOkIff` | src/worker/execute.rs:128-132 | the wait loop returns `Ok` exactly when every worker left by loop end or `break` |
| `PoolRuns.OkIsCompleteIff` | src/worker/execute.rs:88-132 | for batches that are never empty, an `Ok`, early or late, means one result per job in order if and only if no `Aborted` was sent |
| `PoolRuns.QuietRunCompletes` | src/worker/execute.rs:67-132 | a run that never sees the flag set and has ended returned `Ok` with one result per job |
| `PoolRuns.ResultsOfCompletePhase` | src/worker/execute.rs:94-132 | the results of a complete phase number its jobs |
| `PoolRuns.NoWorkersRunNothing` | src/worker/execute.rs:77-79 | with `max_workers = 0` no job ever runs |
| `PoolRuns.OkMayBeIncomplete` | src/worker/execute.rs:88-92 | the failing input for it: a schedule in which the phase returns `Ok` with a job unrun |
| `PoolRuns.AbortMidBatchIsAnError` | src/worker/execute.rs:94-108 | a schedule in which a mid-batch abort makes the phase return an error |
| `Phases.PhaseBarrier` | src/worker/mod.rs:276-301 | as long as the flag of the run is only ever set, no embedded job exists before every SHA-256 job of every drive has sent its result and its workers are gone |
| `Phases.FreeBarrierIff` | src/worker/mod.rs:276-301 | whatever happens to the flag: once the embedded phase exists, every SHA-256 job has sent its result if and only if that pool sent no `Aborted` |
| `Phases.BarrierCanFail` | src/app/actions.rs:34-47 | the failing input for it: the flag is lowered by the next start and the embedded phase begins with a job undone |
| `Phases.EndedCompleteIff` | src/worker/mod.rs:276-303 | where a run has ended well in its embedded phase, each phase is complete if and only if its pool sent no `Aborted`, whatever happened to the flag |
| `Phases.CompleteIsFinal` | src/worker/mod.rs:276-292 | a pool complete without abort can do nothing more |
| `Phases.UncancelledRunCompletes` | src/worker/mod.rs:276-303 | an uncancelled run that has ended succeeded, with one result per job of both phases |
| `Phases.NoDeadlock` | src/worker/mod.rs:276-303 | short of the end of both phases some step other than a cancel is possible |
| `Phases.EveryRunEnds` | src/worker/mod.rs:276-303 | runs of both phases are bounded and stop only at the end; uncancelled they then have one result per job |
| `Phases.Finish` | src/worker/mod.rs:276-303 | every state of an uncancelled run can be carried on to the end without a cancel |
| `Planner.PlanEntries` | src/worker/mod.rs:200-214 | one job per entry in order, target bytes added with saturation |
| `Planner.PlanManifest` | src/worker/mod.rs:183-230 | a manifest is announced by progress and a log or by one failed result, and contributes its jobs and bytes |
| `Planner.PlanDrive` | src/worker/mod.rs:161-250 | a drive's jobs, events and totals; a cancel leaves only planning events and `Aborted` |
| `Planner.PlanDrives` | src/worker/mod.rs:158-270 | planning announces everything and ends with one `JobsReady` carrying count, workers and the exact byte sum up to saturation, or announces no totals |
| `Planner.ShaJobsBelong` | src/worker/mod.rs:177-214 | a drive's jobs are each entry of each loaded manifest, exactly once, manifest by manifest and line by line |
| `Planner.BatchesAreDrives` | src/worker/mod.rs:244-249 | every drive with a job is handed on whole, and nothing else is |
| `Planner.AllJobsCounted` | src/worker/mod.rs:257-270 | the announced number of jobs is that of all drives |
| `Planner.AnnouncedWorkersSuffice` | src/worker/mod.rs:267 | neither phase uses more workers than announced, and the first uses all of them if every drive with a job has files to hash |
| `Planner.FailuresAreInvalid` | src/worker/mod.rs:216-229 | what planning reports as results are failures that processed nothing |
| `Planner.DrivesAnnounced` | src/worker/mod.rs:158-231 | planning sends one result per manifest that failed to load and nothing else that is counted |
| `Planner.PhasesCoverJobs` | src/worker/mod.rs:276-301 | the two phases together run every planned job |
| `Planner.VerifyingFallsAtLast` | src/worker/mod.rs:217-266 | `verifying` falls exactly at the last result if and only if no manifest failed or at most one job was planned |
| `WorkerRun.ExecutionOfUncancelledRun` | src/worker/mod.rs:276-303 | the pools of an uncancelled run put on the channel, besides progress and logs, one result per planned job and no `Aborted` or `Fatal` |
| `WorkerRun.RunCompletes` | src/worker/mod.rs:145-304 | under every schedule an uncancelled run sends count + f results, and the GUI ends with `done` = count + f, not verifying |
| `WorkerRun.NoneLateIff` | src/app/events.rs:79-98 | for every uncancelled run, no result is unprocessed once `verifying` is down if and only if no manifest failed or at most one job was planned |
| `WorkerRun.RunExists` | src/worker/mod.rs:145-304 | every plan has an uncancelled run |
| `WorkerRun.EndedRunTellsGui` | src/worker/mod.rs:276-303 | whatever happens to the flag, by aborts and restarts: a run that has ended sent neither `Aborted` nor `Fatal` if and only if it sent one result for every planned job, in order |
| `GuiApp.EventsKeepConsistent` | src/app/events.rs:16-119 | for every event sequence `done` is the number of results, `valid` of those that passed, `invalid` of the others; never both discovering and verifying, and no finish time while verifying |
| `GuiApp.ActionsKeepConsistent` | src/app/actions.rs:78-171 | the user actions keep this too |
| `GuiApp.ResultsAreListed` | src/app/events.rs:79-98 | every result is listed, in the order it was sent |
| `GuiApp.EndIsTimed` | src/app/events.rs:45-119 | a verification that events end has a finish time |
| `GuiApp.StartsAreClean` | src/app/actions.rs:34-47 | a scan or verification starts without results or counts and with the flag down |
| `GuiApp.FailureFreesGui` | src/app/events.rs:112-117 | after a worker failed a scan can start, and a verification of what is selected |
| `GuiApp.AllAreSelected` | src/app/events.rs:23-30 | ticking the drives found selects them all, in order |
| `GuiApp.FoundDrivesAreSelected` | src/app/events.rs:23-30 | the answer to a scan selects exactly the drives found, and a verification can then start if there are any and the form suffices |
| `GuiApp.ScanThenVerify` | src/app/actions.rs:78-149 | a scan, its answer and a start hand exactly the drives found to the verification thread |
| `GuiApp.PlanningCounts` | src/app/events.rs:79-98 | before the totals arrive results are counted and end nothing |
| `GuiApp.ExecutionCounts` | src/app/events.rs:79-98 | afterwards `verifying` stands until the results, failed manifests included, reach the total |
| `GuiApp.RunProgress` | src/app/events.rs:45-98 | counters, announced workers and bytes, and `verifying` after any number of results of a run |
| `GuiApp.FallsAtLastIff` | src/app/events.rs:79-98 | the reducer drops `verifying` exactly at the last result if and only if f = 0 or at most one job |
| `GuiApp.App.ProcessEvents` | src/app/events.rs:16-119 | draining the channel is reducing its events in order |
| `GuiApp.App.StartDriveScan` | src/app/actions.rs:78-95 | a scan starts only when idle, on the current channel, with everything cleared |
| `GuiApp.App.SelectedDrives` | src/app/actions.rs:60-66 | exactly the ticked drives, in their order |
| `GuiApp.App.StartVerification` | src/app/actions.rs:102-149 | a run starts exactly when idle with a selection and a credential; it gets the current channel and the shared flag |
| `GuiApp.App.RequestAbort` | src/app/actions.rs:157-171 | an abort raises the flag, stops verifying and installs a fresh, empty channel |
| `Epochs.AlwaysConsistent` | src/app/events.rs:16-119 | the counters are consistent in every reachable state of the GUI with any number of runs |
| `Epochs.AbortedRunsAreSilenced` | src/app/actions.rs:157-171 | after an abort nothing sent by any run started before is ever processed, whatever is sent or started later |
| `Epochs.RestartLowersFlag` | src/app/actions.rs:34-47 | starting again lowers the shared flag, so the flag alone would not do |
| `Epochs.LateResultHappens` | src/app/events.rs:79-98 | for every plan with a failed manifest and more than one job there is an uncancelled worker run and a use of the GUI without abort in which that run sends exactly its stream and its last result is counted for the next run |
| `Plan.EncryptedManifestLoads` | src/worker/plan.rs:104-143 | an encrypted manifest loads to what its plaintext loads to, in every format |
| `Plan.PrintedManifestIsFound` | src/worker/plan.rs:45-77 | an encrypted manifest with entries is found under any file name and loads to those entries |
| `Plan.PlainCandidateIff` | src/worker/plan.rs:45-77 | a file that is not encrypted is a candidate exactly by its name |
| `Plan.EncryptedCandidateIff` | src/worker/plan.rs:45-77 | an encrypted file whose credential is at hand is one exactly by its name or by holding an entry |
| `Plan.EstimatedLikeTarget` | src/worker/plan.rs:176-205 | a manifest is estimated like a target of the same contents that is no ISO |
| `Plan.LoadManifestEntries` | src/worker/plan.rs:104-143 | loading computes that meaning; progress is sent exactly for a decrypted manifest and fits the estimate; a detection read that falls short makes it parse the file as it is, or fail |
| `Plan.LoadProgressFits` | src/worker/plan.rs:176-183 | what loading a manifest reports fits its estimate |
| `Jobs.TempKeepsIsoExtension` | src/dbenc/mod.rs:447-465 | a temporary file looks like an ISO exactly when its source does |
| `Jobs.IsoNameIff` | src/worker/execute.rs:473-482 | a name is an ISO's exactly if something comes before a final `.iso`, in any case |
| `Jobs.OpticalDevices` | src/worker/execute.rs:484-508 | which paths are optical devices on which system |
| `Jobs.ImplantedTargetPasses` | src/worker/execute.rs:176-298 | an implanted image, named as an ISO or not, passes exactly when its SHA-256 digest is the expected one |
| `Jobs.EncryptedTargetPasses` | src/worker/execute.rs:305-349 | a target encrypted in any format passes against its plaintext's digest, unless its name asks for a record it lacks |
| `Jobs.MatchingSettingsOpen` | src/worker/execute.rs:305-349 | what direnc wrote under a key opens with settings that hold the password, decryption enabled, or the private key |
| `Jobs.OnlyWholeKeysOpen` | src/worker/plan.rs:82-95 | a DBENC005 file opens only with a private key of exactly 64 bytes, and by it |
| `Jobs.HashFile` | src/sha256sum.rs:161-190 | the digest of the whole file, with progress equal to its length |
| `Jobs.BuildVerificationInput` | src/worker/execute.rs:305-372 | in each branch digest and plaintext are right, progress is exact on success and failure and equals `processed_bytes` where the reported length is true, and a temporary file exists exactly for decrypted targets; a detection read that falls short can make it take an encrypted target for plaintext |
| `Jobs.VerifyIsob3Target` | src/worker/execute.rs:424-467 | skipped unless the name asks for it, never reports an abort, exact progress on files and devices |
| `Jobs.VerifyManifestEntry` | src/worker/execute.rs:176-298 | for files and devices: the job aborts if and only if a poll stopped its first pass; a stop in the ISOB3 pass is a failed result with the temporary file removed; an unstopped job passes exactly the right targets, leaves a temporary file exactly on a digest mismatch of a decrypted target, and reports an exact number of bytes, within the estimate for all files but unplanned DBENC005 |
| `Jobs.WrongDigestLeavesTemp` | src/worker/execute.rs:218-232 | an encrypted target that decrypts leaves its temporary file exactly on a wrong digest |
| `Jobs.CheckInput` | src/worker/execute.rs:236-296 | the ISOB3 pass runs on the plaintext wherever it is and the temporary file is then removed |
| `Jobs.VerifyEmbeddedDrive` | src/worker/execute.rs:380-415 | on any platform: always completes, a stop is a failed result, otherwise it passes exactly on a valid record with exact progress; the result carries the estimate; a device read by sectors never passes it |
| `Jobs.DriveFitsIff` | src/worker/execute.rs:522-529 | the progress of an embedded drive keeps to its estimate if and only if there is no record to check, or it is read by sectors without a length, or what is read is no longer than the estimate |
| `Jobs.DriveBytesReported` | src/worker/execute.rs:390 | for a passing drive the bytes reported are those hashed if and only if the reported length is, or there is none and the medium is read by sectors or ends where it declares |
| `Jobs.EmbeddedCanOverrun` | src/worker/execute.rs:522-529 | the failing input for both: `/dev/sr0` with a valid record, longer than its descriptor declares |
| `Jobs.WithinBudget` | src/worker/plan.rs:189-205 | the passes of a target fit its estimate |
| `Jobs.UnplannedBudgetIff` | src/worker/plan.rs:189-205 | a DBENC005 target decrypted without being planned, whether or not it decrypts, stays within its estimate if and only if the plaintext unsealed and the ISOB3 bytes are no more than header, bytes left unread and, for an ISO name, the file's length |
| `Jobs.LongPlaintextOverruns` | src/worker/plan.rs:189-205 | encrypted plaintexts longer than the header by four do overrun under names that are no ISO's |
| `Jobs.UnplannedCanOverrun` | src/worker/plan.rs:189-205 | a concrete target that passes and overruns |
| `Jobs.JobFitsIff` | src/worker/plan.rs:189-205 | the exact cost of a file target fits its estimate if and only if it is not an unplanned DBENC005 file that is too long |
| `Jobs.PlainEstimateIsMet` | src/worker/plan.rs:189-205 | a plain file that passes reports exactly its estimate |
| `Jobs.EncryptedEstimateSlack` | src/worker/plan.rs:189-205 | how far an encrypted file that passes stays below its estimate, exactly |
| `Budget.ProcessedIsSum` | src/app/events.rs:71-73 | the reducer's byte count is the sum of the deltas, saturated |
| `Budget.PlanningWithinEstimates` | src/worker/mod.rs:183-186 | the progress of planning stays within the manifest estimates |
| `Budget.JobsWithinPlan` | src/worker/mod.rs:202-205 | the progress of all jobs stays within target and embedded estimates if each job's does |
| `Budget.EntryFitsIff` | src/worker/plan.rs:189-205 | an entry of a loaded manifest keeps to its planned estimate exactly when its target does |
| `Budget.DiscsFitIff` | src/worker/plan.rs:176-210 | every manifest and job of the drives on disc keeps to its estimate if and only if no unplanned DBENC005 target is too long and no embedded drive is longer than its estimate |
| `Budget.RunReportsTotal` | src/worker/mod.rs:276-303 | the pools of an uncancelled run report the cost of every planned job, derived from their traces |
| `Budget.MeteredRunExists` | src/worker/mod.rs:276-303 | every plan has such a run, whatever its jobs cost |
| `Budget.RunStaysWithinPlanIff` | src/worker/mod.rs:252-270 | the byte count of an uncancelled run never passes the announced total if and only if its exact costs add up to no more than its estimates |
| `Budget.TotalStands` | src/app/events.rs:45-54 | once announced the total stands to the end of the run |
| `Budget.TotalIsMet` | src/worker/mod.rs:252-270 | the announced total counts every manifest and every planned job once: jobs that meet their estimates report it but for the manifests' share |
| `Budget.FittingRunStaysWithinPlan` | src/worker/mod.rs:252-270 | it is enough that every manifest and job keeps to its own estimate |
| `Budget.DiscsStayWithinPlan` | src/worker/mod.rs:145-304 | so the run over drives within those bounds never passes its announced total |
| `Budget.DiscCanOverrun` | src/worker/mod.rs:232-243 | a run that passes it: one Linux drive longer than it declares |
| `Sha256sum.ParseText` | src/sha256sum.rs:88-118 | the loop classifies the lines of the text one by one |
| `Sha256sum.LinesAreAccountedFor` | src/sha256sum.rs:88-118 | lines are entries plus skipped plus ignored, for any text |
| `Sha256sum.IgnoredIff` | src/sha256sum.rs:92-97 | a line is passed over exactly if it is blank or its first mark is `#` or `;` |
| `Sha256sum.ManifestsConcat` | src/sha256sum.rs:88-118 | parsing manifests one after the other is parsing them in one |
| `Sha256sum.LastBreakIsOptional` | src/sha256sum.rs:88-118 | the last line need not be ended |
| `Sha256sum.SpaceIff` | src/sha256sum.rs:92 | the 25 characters that are trimmed |
| `Sha256sum.LowerIsCaseOnly` | src/sha256sum.rs:57-70 | two characters agree in lower case exactly if they are equal or one letter in its two cases |
| `Sha256sum.HexDigest` | src/sha256sum.rs:252-262 | the loop renders two digits a byte |
| `Sha256sum.HexIsInjective` | src/sha256sum.rs:252-262 | no two byte strings share a rendering |
| `Sha256sum.HexCarriesValue` | src/sha256sum.rs:252-262 | digits 2i and 2i + 1 stand for byte i, the higher one first |
| `Sha256sum.DigestNamesBytes` | src/worker/execute.rs:218-232 | a digest on a line, in either case, is lower-cased to the rendering of bytes exactly if its digits have their values |
| `Sha256sum.HexOfDigest` | src/sha256sum.rs:349-351 | a digest renders to 64 lower-case hexadecimal digits |
| `Sha256sum.GnuTextRoundTrip` | src/sha256sum.rs:313-333 | a GNU text line gives back its name exactly if the name is non-empty, does not start with a space or `*`, and does not end with a space |
| `Sha256sum.GnuBinaryRoundTrip` | src/sha256sum.rs:313-333 | a GNU binary line does exactly if the name does not end with a space |
| `Sha256sum.CloseIsFirst` | src/sha256sum.rs:335-347 | `") = "` cannot overlap itself, so closing a name adds no earlier match |
| `Sha256sum.BsdRoundTrip` | src/sha256sum.rs:335-347 | a BSD line gives back its name exactly if the name lacks `") = "` |
| `Sha256sum.LineRoundTrip` | src/sha256sum.rs:305-347 | the same for every style, and no entry line is ignored |
| `Sha256sum.ListedCanBePrinted` | src/sha256sum.rs:305-347 | whatever is accepted has a lower-case digest and a name that one of two styles can carry |
| `Sha256sum.PrintThenParse` | src/sha256sum.rs:88-118 | a printed manifest with comments and blanks parses back to its entries in order with nothing skipped if and only if every name fits its line's style |
| `Sha256sum.ManifestNameIff` | src/sha256sum.rs:57-70 | a name is a manifest's exactly if it contains `sha256` or `.sha` in any case |
| `Trees.NormalizeExclude` | src/bin/direnc.rs:207-217 | the components kept, in order: names and parents, without roots and single dots |
| `Trees.RootsDoNotMatter` | src/bin/direnc.rs:205-217 | however an exclude is rooted it normalises to its plain form, parents included |
| `Trees.DefaultSkips` | src/bin/direnc.rs:417-434 | without excludes exactly the files under `decryptor/` and those named as manifests are skipped |
| `Trees.ExcludedStaysPlain` | src/bin/direnc.rs:431-433 | files at or below an exclude keep their bytes, however far direnc came |
| `Trees.ExcludeTakesOut` | src/bin/direnc.rs:431-433 | one more exclude takes out exactly the files at or below it, component by component |
| `Trees.EncryptInPlace` | src/bin/direnc.rs:254-271 | one file is wholly replaced by its encryption or left alone |
| `Trees.EncryptTreeInPlace` | src/bin/direnc.rs:237-275 | exactly the unskipped files are encrypted and counted; after a failure each file is wholly old or wholly new |
| `Trees.RestoreFile` | src/bin/discdecrypt.rs:519-556 | a DBENC file is decrypted, any other copied; a first detection read that falls short copies ciphertext as it is, a later one only fails |
| `Trees.DecryptTree` | src/bin/discdecrypt.rs:468-566 | adds the restored tree, the files whose detection fell short as they are, with exact counts; with full reads it succeeds exactly when every DBENC file outside `decryptor/` decrypts |
| `Trees.TreeRoundTrip` | src/bin/discdecrypt.rs:500-566 | discdecrypt on direnc's result restores the tree without `decryptor/`, files that were DBENC before included, if and only if the files whose detection fell short are exactly the skipped files outside it that start with a magic; with full reads: if and only if there are none |
| `Trees.SkippedMagicSpoils` | src/bin/direnc.rs:417-434 | a failing tree for it: a manifest by name that starts with a DBENC magic |
| `Trees.CountsAgree` | src/bin/discdecrypt.rs:560-565 | `decrypted` is direnc's count and `copied` the other skipped files outside `decryptor/` |
| `Trees.EncryptThenDecrypt` | src/bin/direnc.rs:237-275 | both tools in sequence, for any walk orders and read splits, detection reads included |

## Left out

- The worker pool is a transition system, not threads: one step is one channel operation, flag check or job; channels and the flag are taken to be sequentially consistent.
- That each job ends is assumed by the pool; what a job does is `Jobs`.
- Phases.UncancelledRunCompletes: with no batches at all the source returns before the phases; the model runs two empty phases to the same effect.
- Internals of AES, GCM, XChaCha20-Poly1305, HMAC, SHA-256, BLAKE3, Argon2id and ML-KEM; incremental hashing is taken to be hashing the concatenation.
- Allocation failure, and I/O errors other than a short file: open, seek, write, rename and copy succeed.
- Formats.DetectIffMagic: speaks of the meaning `Detect` has for a detection read that is full; `Dbenc.DetectFormat` covers reads that fall short.
- Jobs.VerifyManifestEntry: what depends on the target's format is stated for full detection reads; the estimates take the planner's own detection read to be full.
- Budget.DiscsFitIff: takes manifest targets to be files, not devices, and detection reads to be full; what a name in a manifest leads to is a parameter.
- Budget.RunReportsTotal: takes the deltas of a run to add up to the costs of the jobs whose results its traces hold.
- WorkerRun: the order of signals is that of one phase after the other; after a cancel the workers of a phase may still send while the run itself has returned.
- The Windows uncached SHA-256 path and its fallback, which can report progress twice.
- `DeviceIoControl` itself and the retries and sleeps around reads; of the SCSI path only the command tiling and alignment are modelled.
- The class `GuiApp.App` groups the numeric fields of `App` in one record; log lines, timings, dialogs and rendering are omitted.
- Result and event texts; of a result only `ok` and `processed_bytes` are kept.
- Planner: what the file system says about drives and manifests is a parameter; `Plan` models loading one manifest separately.
- `resolve_manifest_target`, and converting bytes to UTF-8 text, which is a parameter.
- Temporary file names being unique, file-system races, symbolic links and permissions; a tree is a map from relative path to bytes, listed once before it is walked.
- `ensure_output_outside_input`, finding the decryptor binaries, parsing `--exclude` into components, credential lookup and prompts: easy members only.
- After a failed discdecrypt run nothing is said about the files already written.
- `info_iso`, `benchmark.rs`, `encfile.rs`, key files and their generation, drive discovery, `checkisomd5`, format-name tables: easy members or foreign calls.
