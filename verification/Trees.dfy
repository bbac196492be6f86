/** Directory trees through direnc and discdecrypt (src/bin/direnc.rs,
    src/bin/discdecrypt.rs): regular files by their path relative to the root. */
module Trees {
  import opened Prelude
  import opened Disk
  import opened Primitives
  import opened Formats
  import opened Dbenc
  import FramedAead
  import Sha256sum

  type RelPath = p: seq<string> | p != [] witness [""]

  type Tree = map<RelPath, Bytes>

  // ── What is skipped ─────────────────────────────────────────────────────────

  const DECRYPTOR := "decryptor"

  predicate UnderDecryptor(p: RelPath) {
    p[0] == DECRYPTOR
  }

  predicate Excluded(p: RelPath, excludes: seq<seq<string>>) {
    exists i :: 0 <= i < |excludes| && excludes[i] != [] && excludes[i] <= p
  }

  /** `should_skip` of direnc. */
  predicate Skips(p: RelPath, excludes: seq<seq<string>>) {
    Sha256sum.IsManifestName(p[|p| - 1]) || UnderDecryptor(p) || Excluded(p, excludes)
  }

  datatype Component = Prefix | RootDir | CurDir | ParentDir | Normal(name: string)

  /** What is left of a path when roots and single dots are dropped. */
  function Kept(components: seq<Component>): seq<string> {
    if components == [] then []
    else
      Kept(components[..|components| - 1]) +
      match components[|components| - 1]
      case ParentDir => [".."]
      case Normal(name) => [name]
      case Prefix => []
      case RootDir => []
      case CurDir => []
  }

  /** `normalize_exclude_path`: what is kept, in order, so that an exclude can be
      compared with a relative path. */
  method NormalizeExclude(components: seq<Component>) returns (out: seq<string>)
    ensures out == Kept(components)
  {
    out := [];
    for i := 0 to |components|
      invariant out == Kept(components[..i])
    {
      assert components[..i + 1][..i] == components[..i];
      match components[i] {
        case ParentDir => out := out + [".."];
        case Normal(name) => out := out + [name];
        case Prefix =>
        case RootDir =>
        case CurDir =>
      }
    }
    assert components[..|components|] == components;
  }

  /** The components a relative path is parsed into. */
  function Names(path: seq<string>): seq<Component> {
    seq(|path|, i requires 0 <= i < |path| => if path[i] == ".." then ParentDir else Normal(path[i]))
  }

  /** However an exclude is rooted, it excludes what its plain form excludes. */
  lemma RootsDoNotMatter(roots: seq<Component>, path: seq<string>)
    requires forall i :: 0 <= i < |roots| ==> !roots[i].ParentDir? && !roots[i].Normal?
    ensures Kept(roots + Names(path)) == path
  {
    KeptRoots(roots);
    KeptNames(path);
    KeptConcat(roots, Names(path));
  }

  lemma {:induction false} KeptRoots(roots: seq<Component>)
    requires forall i :: 0 <= i < |roots| ==> !roots[i].ParentDir? && !roots[i].Normal?
    ensures Kept(roots) == []
  {
    if roots != [] {
      KeptRoots(roots[..|roots| - 1]);
    }
  }

  lemma {:induction false} KeptNames(path: seq<string>)
    ensures Kept(Names(path)) == path
  {
    if path != [] {
      KeptNames(path[..|path| - 1]);
      assert Names(path)[..|path| - 1] == Names(path[..|path| - 1]);
    }
  }

  lemma {:induction false} KeptConcat(a: seq<Component>, b: seq<Component>)
    ensures Kept(a + b) == Kept(a) + Kept(b)
  {
    if b == [] {
      assert a + b == a;
    } else {
      KeptConcat(a, b[..|b| - 1]);
      assert (a + b)[..|a + b| - 1] == a + b[..|b| - 1];
    }
  }

  /** Without excludes, a file is skipped exactly if it is in the decryptor's directory or
      its name holds a manifest's mark, in any case. */
  lemma DefaultSkips(p: RelPath)
    ensures Skips(p, []) <==>
            || p[0] == "decryptor"
            || Sha256sum.Occurs(Sha256sum.Lower(p[|p| - 1]), "sha256")
            || Sha256sum.Occurs(Sha256sum.Lower(p[|p| - 1]), ".sha")
  {
    hide Sha256sum.IsManifestName, Sha256sum.Occurs;
    Sha256sum.ManifestNameIff(p[|p| - 1]);
  }

  /** Files at or below an exclude keep their bytes, however far direnc came. */
  lemma ExcludedStaysPlain(c: Crypto, key: EncKey, format: Format, excludes: seq<seq<string>>, before: Tree,
                           after: Tree, done: set<RelPath>, exclude: seq<string>, below: seq<string>, p: RelPath)
    requires done <= Encrypts(before, excludes) && EncryptedIn(c, key, format, before, after, done)
    requires exclude != [] && exclude in excludes && p == exclude + below && p in before
    ensures p in after && after[p] == before[p]
  {
    hide OpensTo, Sha256sum.IsManifestName;
    var i :| 0 <= i < |excludes| && excludes[i] == exclude;
    assert Excluded(p, excludes);
  }

  /** One more exclude takes out the files at or below it, path component by path
      component, and no others; an empty one takes out none. */
  lemma ExcludeTakesOut(t: Tree, excludes: seq<seq<string>>, exclude: seq<string>)
    ensures Encrypts(t, excludes + [exclude])
         == Encrypts(t, excludes) - set p | p in t && exclude != [] && exclude <= p
  {
    hide Sha256sum.IsManifestName, UnderDecryptor;
    var all := excludes + [exclude];
    forall p | p in t ensures Excluded(p, all) <==> Excluded(p, excludes) || (exclude != [] && exclude <= p) {
      assert all[|excludes|] == exclude && forall i :: 0 <= i < |excludes| ==> all[i] == excludes[i];
      if Excluded(p, excludes) {
        var i :| 0 <= i < |excludes| && excludes[i] != [] && excludes[i] <= p;
        assert all[i] == excludes[i];
      }
    }
  }

  // ── Meaning ─────────────────────────────────────────────────────────────────

  /** The files direnc encrypts. */
  function Encrypts(t: Tree, excludes: seq<seq<string>>): set<RelPath> {
    set p | p in t && !Skips(p, excludes)
  }

  /** Under every credential that matches the key, `bytes` opens to `plain`. */
  ghost predicate OpensTo(c: Crypto, key: EncKey, format: Format, plain: Bytes, bytes: Bytes) {
    && EffectiveFormat(key, format).Some?
    && forall secret :: Matches(c, key, secret) ==>
         EncodedBy(c, EffectiveFormat(key, format).value, secret, plain, bytes)
  }

  /** `after` is `before` with the files in `done` encrypted, each one wholly. */
  ghost predicate EncryptedIn(c: Crypto, key: EncKey, format: Format, before: Tree, after: Tree, done: set<RelPath>) {
    && after.Keys == before.Keys
    && forall p :: p in before ==>
         if p in done then OpensTo(c, key, format, before[p], after[p]) else after[p] == before[p]
  }

  /** What discdecrypt writes for one file. */
  function Restored(c: Crypto, bytes: Bytes, secret: Secret): Result<Bytes> {
    if Detect(bytes).Some? then DecodeFile(c, bytes, secret) else Ok(bytes)
  }

  function Outside(t: Tree): set<RelPath> {
    set p | p in t && !UnderDecryptor(p)
  }

  /** What is written for file p when the detection reads of the files in `missed` fell
      short: those are taken for plaintext. */
  function Written(c: Crypto, t: Tree, secret: Secret, missed: set<RelPath>, p: RelPath): Result<Bytes>
    requires p in t
  {
    if p in missed then Ok(t[p]) else Restored(c, t[p], secret)
  }

  predicate AllRestorable(c: Crypto, t: Tree, secret: Secret, missed: set<RelPath>) {
    forall p :: p in Outside(t) ==> Written(c, t, secret, missed, p).Ok?
  }

  /** The tree discdecrypt writes. */
  function RestoredTree(c: Crypto, t: Tree, secret: Secret, missed: set<RelPath>): Tree
    requires AllRestorable(c, t, secret, missed)
  {
    map p | p in Outside(t) :: Written(c, t, secret, missed, p).value
  }

  /** The tree without the decryptor's directory. */
  function OutsideTree(t: Tree): Tree {
    map p | p in Outside(t) :: t[p]
  }

  function SkippedOutside(t: Tree, excludes: seq<seq<string>>): set<RelPath> {
    set p | p in Outside(t) && Skips(p, excludes)
  }

  function Encrypted(t: Tree): set<RelPath> {
    set p | p in Outside(t) && Detect(t[p]).Some?
  }

  // ── Laws ────────────────────────────────────────────────────────────────────

  /** What spoils a round trip: files direnc skips, outside the decryptor's directory,
      that already start with a magic of ours. */
  function MagicSkipped(t: Tree, excludes: seq<seq<string>>): set<RelPath> {
    set p | p in Outside(t) && Skips(p, excludes) && Detect(t[p]).Some?
  }

  /** One file through both tools. */
  lemma FileRoundTrip(c: Crypto, key: EncKey, format: Format, secret: Secret, plain: Bytes, bytes: Bytes)
    requires OpensTo(c, key, format, plain, bytes) && Matches(c, key, secret)
    ensures Detect(bytes).Some? && Restored(c, bytes, secret) == Ok(plain)
  {
    DecodeInvertsEncryption(c, EffectiveFormat(key, format).value, secret, plain, bytes);
  }

  /** A skipped file comes back as it was exactly when it carries no magic. */
  lemma SkippedRoundTrip(c: Crypto, secret: Secret, bytes: Bytes)
    ensures Restored(c, bytes, secret) == Ok(bytes) <==> Detect(bytes).None?
  {
    if Detect(bytes).Some? && DecodeFile(c, bytes, secret).Ok? {
      PlaintextIsShorter(c, bytes, secret);
    }
  }

  /** discdecrypt run on direnc's result, the injected decryptor included, with the
      matching credential: the original tree without `decryptor/` comes back, files
      that were DBENC before among them, if and only if the files whose detection read
      falls short are exactly the skipped files outside `decryptor/` that start with a
      DBENC magic. With full reads that is: if and only if there are none of these. */
  lemma TreeRoundTrip(c: Crypto, key: EncKey, format: Format, excludes: seq<seq<string>>, secret: Secret,
                      original: Tree, encrypted: Tree, bundle: Tree, missed: set<RelPath>)
    requires Matches(c, key, secret)
    requires EncryptedIn(c, key, format, original, encrypted, Encrypts(original, excludes))
    requires forall p :: p in bundle ==> UnderDecryptor(p)
    requires missed <= Encrypted(encrypted + bundle)
    ensures var disc := encrypted + bundle;
            (AllRestorable(c, disc, secret, missed) && RestoredTree(c, disc, secret, missed) == OutsideTree(original))
            <==> missed == MagicSkipped(original, excludes)
  {
    hide Skips, Detect, DecodeFile, EncodedBy, Written;
    var disc := encrypted + bundle;
    OutsideOfDisc(original, encrypted, bundle);
    forall p | p in Outside(original)
      ensures Written(c, disc, secret, missed, p) == Ok(original[p])
              <==> (p in missed <==> p in MagicSkipped(original, excludes))
    {
      FileComesBack(c, key, format, excludes, secret, original, disc, missed, p);
    }
    if AllRestorable(c, disc, secret, missed) && RestoredTree(c, disc, secret, missed) == OutsideTree(original) {
      forall p | p in Outside(original) ensures p in missed <==> p in MagicSkipped(original, excludes) {
        assert RestoredTree(c, disc, secret, missed)[p] == original[p];
        assert Written(c, disc, secret, missed, p) == Ok(original[p]);
      }
    }
  }

  lemma FileComesBack(c: Crypto, key: EncKey, format: Format, excludes: seq<seq<string>>, secret: Secret,
                      original: Tree, disc: Tree, missed: set<RelPath>, p: RelPath)
    requires Matches(c, key, secret) && p in Outside(original) && p in disc && missed <= Encrypted(disc)
    requires if p in Encrypts(original, excludes) then OpensTo(c, key, format, original[p], disc[p])
             else disc[p] == original[p]
    ensures Written(c, disc, secret, missed, p) == Ok(original[p])
            <==> (p in missed <==> p in MagicSkipped(original, excludes))
  {
    hide Skips, Detect, DecodeFile, EncodedBy, OpensTo;
    if Skips(p, excludes) {
      SkippedRoundTrip(c, secret, original[p]);
    } else {
      FileRoundTrip(c, key, format, secret, original[p], disc[p]);
      PlaintextIsShorter(c, disc[p], secret);
    }
  }

  /** Such a file does spoil it: a manifest by name that begins like a DBENC file. */
  lemma SkippedMagicSpoils(c: Crypto) returns (key: EncKey, secret: Secret, original: Tree)
    ensures Matches(c, key, secret) && EncryptedIn(c, key, DbEnc001, original, original, Encrypts(original, []))
    ensures !(AllRestorable(c, original, secret, {}) && RestoredTree(c, original, secret, {}) == OutsideTree(original))
  {
    hide Detect, Magic, DecodeFile, Skips;
    key, secret := Password([]), Secret(Some([]), None);
    var path: RelPath := ["a.sha256"];
    original := map[path := Magic(DbEnc001)];
    DetectIffMagic(Magic(DbEnc001), DbEnc001);
    ManifestIsSkipped(path);
    assert Encrypts(original, []) == {};
    assert path in MagicSkipped(original, []);
    assert original + map[] == original;
    TreeRoundTrip(c, key, DbEnc001, [], secret, original, original, map[], {});
  }

  lemma ManifestIsSkipped(path: RelPath)
    requires path == ["a.sha256"]
    ensures Skips(path, []) && !UnderDecryptor(path)
  {
    var name := "a.sha256";
    assert Sha256sum.Lower(name)[1..5] == ".sha";
    assert Sha256sum.OccursAt(Sha256sum.Lower(name), ".sha", 1);
    Sha256sum.ManifestNameIff(name);
    assert path[0][0] == 'a' && DECRYPTOR[0] == 'd';
  }

  lemma OutsideOfDisc(original: Tree, encrypted: Tree, bundle: Tree)
    requires original.Keys == encrypted.Keys && forall p :: p in bundle ==> UnderDecryptor(p)
    ensures Outside(encrypted + bundle) == Outside(original)
    ensures forall p :: p in Outside(original) ==> (encrypted + bundle)[p] == encrypted[p]
  {
  }

  /** The summary then agrees with direnc's: as many files decrypted as direnc
      encrypted, and every other file outside `decryptor/` copied. */
  lemma CountsAgree(c: Crypto, key: EncKey, format: Format, excludes: seq<seq<string>>, secret: Secret,
                    original: Tree, encrypted: Tree, bundle: Tree)
    requires Matches(c, key, secret) && MagicSkipped(original, excludes) == {}
    requires EncryptedIn(c, key, format, original, encrypted, Encrypts(original, excludes))
    requires forall p :: p in bundle ==> UnderDecryptor(p)
    ensures Encrypted(encrypted + bundle) == Encrypts(original, excludes)
    ensures Outside(encrypted + bundle) - Encrypted(encrypted + bundle)
         == SkippedOutside(original, excludes)
  {
    hide Detect, DecodeFile, EncodedBy;
    var disc := encrypted + bundle;
    OutsideOfDisc(original, encrypted, bundle);
    forall p | p in Outside(original) ensures p in Encrypted(disc) <==> !Skips(p, excludes) {
      assert p !in MagicSkipped(original, excludes);
      if !Skips(p, excludes) {
        FileRoundTrip(c, key, format, secret, original[p], disc[p]);
      }
    }
  }

  // ── The code ────────────────────────────────────────────────────────────────

  class Directory {
    var files: Tree

    constructor (files: Tree)
      ensures this.files == files
    {
      this.files := files;
    }
  }

  /** Every file once, in any order. */
  method Walk(t: Tree) returns (paths: seq<RelPath>)
    ensures forall p :: p in paths <==> p in t
    ensures forall i, j :: 0 <= i < j < |paths| ==> paths[i] != paths[j]
  {
    paths := [];
    var rest := t.Keys;
    while rest != {}
      invariant forall p :: p in t <==> p in paths || p in rest
      invariant forall p :: p in paths ==> p !in rest
      invariant forall i, j :: 0 <= i < j < |paths| ==> paths[i] != paths[j]
      decreases rest
    {
      var p :| p in rest;
      paths, rest := paths + [p], rest - {p};
    }
  }

  /** Fresh random bytes. */
  method Random(n: nat) returns (b: Bytes)
    ensures |b| == n
  {
    assert |Zeros(n)| == n;
    b :| |b| == n;
  }

  /** The files among `paths` that direnc encrypts. */
  ghost function Chosen(paths: seq<RelPath>, excludes: seq<seq<string>>): set<RelPath> {
    set p | p in paths && !Skips(p, excludes)
  }

  lemma ChosenGrows(paths: seq<RelPath>, i: nat, excludes: seq<seq<string>>)
    requires i < |paths| && forall k, l :: 0 <= k < l < |paths| ==> paths[k] != paths[l]
    ensures paths[i] !in Chosen(paths[..i], excludes)
    ensures Chosen(paths[..i + 1], excludes)
         == Chosen(paths[..i], excludes) + if Skips(paths[i], excludes) then {} else {paths[i]}
  {
    hide Skips;
    assert paths[..i + 1] == paths[..i] + [paths[i]];
  }

  lemma ChosenAmong(paths: seq<RelPath>, t: Tree, i: nat, excludes: seq<seq<string>>)
    requires i <= |paths| && forall p :: p in paths <==> p in t
    ensures Chosen(paths[..i], excludes) <= Encrypts(t, excludes)
    ensures Chosen(paths[..|paths|], excludes) == Encrypts(t, excludes)
  {
    hide Skips;
    assert paths[..|paths|] == paths;
  }

  lemma OneMoreEncrypted(c: Crypto, key: EncKey, format: Format, before: Tree, mid: Tree, done: set<RelPath>,
                         path: RelPath, bytes: Bytes)
    requires EncryptedIn(c, key, format, before, mid, done) && path in before
    requires OpensTo(c, key, format, before[path], bytes)
    ensures EncryptedIn(c, key, format, before, mid[path := bytes], done + {path})
  {
    hide OpensTo;
  }

  /** One file: encrypted to a temporary sibling that then replaces it, or left alone. */
  method EncryptInPlace(c: Crypto, dir: Directory, path: RelPath, key: EncKey, format: Format) returns (ok: bool)
    requires path in dir.files
    modifies dir
    ensures if ok then path in dir.files && dir.files == old(dir.files)[path := dir.files[path]]
            else dir.files == old(dir.files)
    ensures ok ==> OpensTo(c, key, format, old(dir.files)[path], dir.files[path])
    ensures !ok ==> key.PublicKey? || format == DbEnc004 || format == DbEnc005
    ensures EffectiveFormat(key, format).None? ==> !ok
  {
    var salt := Random(16);
    var prefix := Random(FramedAead.PREFIX_LEN);
    var coins := Random(32);
    var source := new DiskFile(dir.files[path]);
    var temp := new DiskFile([]);
    var result := EncryptFile(c, source, temp, key, format, salt, prefix, coins);
    if result.Err? {
      return false;
    }
    dir.files := dir.files[path := temp.bytes];
    return true;
  }

  /** `encrypt_tree_in_place`: on success exactly the unskipped files are encrypted;
      on failure some of them are, but each file is wholly old or wholly new. */
  method EncryptTreeInPlace(c: Crypto, dir: Directory, key: EncKey, format: Format, excludes: seq<seq<string>>)
    returns (r: Result<nat>)
    modifies dir
    ensures r.Ok? ==>
              && EncryptedIn(c, key, format, old(dir.files), dir.files, Encrypts(old(dir.files), excludes))
              && r.value == |Encrypts(old(dir.files), excludes)|
    ensures exists done :: done <= Encrypts(old(dir.files), excludes) &&
              EncryptedIn(c, key, format, old(dir.files), dir.files, done)
    ensures r.Err? ==> key.PublicKey? || format == DbEnc004 || format == DbEnc005
    ensures EffectiveFormat(key, format).None? ==> dir.files == old(dir.files)
  {
    hide Skips, OpensTo, EncryptedIn, Chosen, Encrypts;
    ghost var before := dir.files;
    var paths := Walk(dir.files);
    var count := 0;
    NothingEncrypted(c, key, format, before, excludes);
    assert paths[..0] == [];
    for i := 0 to |paths|
      invariant count == |Chosen(paths[..i], excludes)| && dir.files.Keys == before.Keys
      invariant EncryptedIn(c, key, format, before, dir.files, Chosen(paths[..i], excludes))
      invariant EffectiveFormat(key, format).None? ==> dir.files == before
    {
      var path := paths[i];
      ChosenGrows(paths, i, excludes);
      if !Skips(path, excludes) {
        StillPlain(c, key, format, before, dir.files, Chosen(paths[..i], excludes), path);
        ghost var mid := dir.files;
        var ok := EncryptInPlace(c, dir, path, key, format);
        if !ok {
          ChosenAmong(paths, before, i, excludes);
          return Err(Failed);
        }
        OneMoreEncrypted(c, key, format, before, mid, Chosen(paths[..i], excludes), path, dir.files[path]);
        count := count + 1;
      }
    }
    ChosenAmong(paths, before, |paths|, excludes);
    return Ok(count);
  }

  lemma NothingEncrypted(c: Crypto, key: EncKey, format: Format, t: Tree, excludes: seq<seq<string>>)
    ensures Chosen([], excludes) == {} && EncryptedIn(c, key, format, t, t, {})
  {
  }

  lemma StillPlain(c: Crypto, key: EncKey, format: Format, before: Tree, mid: Tree, done: set<RelPath>, path: RelPath)
    requires EncryptedIn(c, key, format, before, mid, done) && path in before && path !in done
    ensures path in mid && mid[path] == before[path]
  {
  }

  /** `inject_decryptor`. */
  method InjectDecryptor(dir: Directory, bundle: Tree)
    requires forall p :: p in bundle ==> UnderDecryptor(p)
    modifies dir
    ensures dir.files == old(dir.files) + bundle
  {
    dir.files := dir.files + bundle;
  }

  datatype Summary = Summary(decrypted: nat, copied: nat)

  /** The files among `paths` that discdecrypt decrypts, or copies. */
  ghost function Met(t: Tree, paths: seq<RelPath>, missed: set<RelPath>, sealed: bool): set<RelPath> {
    set p | p in paths && p in Outside(t) && (Detect(t[p]).Some? && p !in missed <==> sealed)
  }

  /** `now` is `before`, perhaps with the file at hand. */
  predicate Misses(before: set<RelPath>, now: set<RelPath>, path: RelPath) {
    now == before || now == before + {path}
  }

  lemma MetGrows(t: Tree, paths: seq<RelPath>, i: nat, before: set<RelPath>, now: set<RelPath>, sealed: bool)
    requires i < |paths| && paths[i] in t && forall k, l :: 0 <= k < l < |paths| ==> paths[k] != paths[l]
    requires Misses(before, now, paths[i])
    ensures paths[i] !in Met(t, paths[..i], before, sealed)
    ensures Met(t, paths[..i + 1], now, sealed)
         == Met(t, paths[..i], before, sealed) +
            if !UnderDecryptor(paths[i]) && (Detect(t[paths[i]]).Some? && paths[i] !in now <==> sealed) then {paths[i]}
            else {}
  {
    hide Detect;
    assert paths[..i + 1] == paths[..i] + [paths[i]];
  }

  lemma MetAll(t: Tree, paths: seq<RelPath>, missed: set<RelPath>)
    requires forall p :: p in paths <==> p in t
    ensures Met(t, paths[..|paths|], missed, true) == Encrypted(t) - missed
    ensures Met(t, paths[..|paths|], missed, false) == Outside(t) - (Encrypted(t) - missed)
  {
    hide Detect;
    assert paths[..|paths|] == paths;
  }

  /** `written` is what is written for the files among `paths`. */
  ghost predicate WrittenAmong(c: Crypto, t: Tree, secret: Secret, missed: set<RelPath>, paths: seq<RelPath>,
                               written: Tree)
  {
    && (forall p :: p in written <==> p in paths && p in Outside(t))
    && (forall p :: p in written ==> Written(c, t, secret, missed, p) == Ok(written[p]))
    && (forall p :: p in missed ==> p in paths && p in Encrypted(t))
  }

  lemma OneMoreWritten(c: Crypto, t: Tree, secret: Secret, before: set<RelPath>, now: set<RelPath>,
                       paths: seq<RelPath>, i: nat, written: Tree, bytes: Bytes)
    requires i < |paths| && paths[i] in t && forall k, l :: 0 <= k < l < |paths| ==> paths[k] != paths[l]
    requires Misses(before, now, paths[i]) && WrittenAmong(c, t, secret, before, paths[..i], written)
    ensures UnderDecryptor(paths[i]) && now == before ==> WrittenAmong(c, t, secret, now, paths[..i + 1], written)
    ensures !UnderDecryptor(paths[i]) && Written(c, t, secret, now, paths[i]) == Ok(bytes) &&
            (paths[i] in now ==> Detect(t[paths[i]]).Some?) ==>
              WrittenAmong(c, t, secret, now, paths[..i + 1], written[paths[i] := bytes])
  {
    hide Restored, Detect;
    assert paths[..i + 1] == paths[..i] + [paths[i]];
  }

  lemma AllWritten(c: Crypto, t: Tree, secret: Secret, missed: set<RelPath>, paths: seq<RelPath>, written: Tree)
    requires WrittenAmong(c, t, secret, missed, paths, written) && forall p :: p in paths <==> p in t
    ensures missed <= Encrypted(t)
    ensures AllRestorable(c, t, secret, missed) && written == RestoredTree(c, t, secret, missed)
  {
    hide Written;
  }

  lemma NotRestorable(c: Crypto, t: Tree, secret: Secret, path: RelPath)
    requires path in t && !UnderDecryptor(path) && Restored(c, t[path], secret).Err?
    ensures !AllRestorable(c, t, secret, {})
  {
    hide Restored;
    assert path in Outside(t);
  }

  /** Decrypts or copies one file. The format is detected once to decide whether, again
      to decide how, and once more by the password decryptor; a first read that falls
      short lets ciphertext pass for plaintext, a later one can only fail. */
  method RestoreFile(c: Crypto, bytes: Bytes, secret: Secret, mayFallShort: bool)
    returns (r: Result<Bytes>, sealed: bool, ghost missed: bool)
    ensures missed ==> mayFallShort && Detect(bytes).Some? && r == Ok(bytes) && !sealed
    ensures !missed && r.Ok? ==> r == Restored(c, bytes, secret) && (sealed <==> Detect(bytes).Some?)
    ensures r.Err? && !mayFallShort ==> Restored(c, bytes, secret).Err?
  {
    hide Detect, DecodeFile;
    var source := new DiskFile(bytes);
    var first, _ := DetectFormat(source, mayFallShort);
    missed := first.None? && Detect(bytes).Some?;
    if first.None? {
      return Ok(bytes), false, missed;
    }
    var second, _ := DetectFormat(source, mayFallShort);
    var temp, size;
    if second == Some(DbEnc005) {
      if secret.privateKey.None? {
        NeedsCredential(c, bytes, secret);
        return Err(Failed), true, missed;
      }
      temp, size := DecryptWithSecret(c, DbEnc005, source, secret, false, mayFallShort);
    } else {
      if secret.password.None? {
        NeedsCredential(c, bytes, secret);
        return Err(Failed), true, missed;
      }
      temp, size := DecryptToTemp(c, source, secret.password.value, false, mayFallShort);
      PasswordFormats(c, bytes, secret);
    }
    return if temp.Ok? then Ok(temp.value.contents) else Err(Failed), true, missed;
  }

  lemma NeedsCredential(c: Crypto, bytes: Bytes, secret: Secret)
    ensures Detect(bytes) == Some(DbEnc005) && secret.privateKey.None? ==> DecodeFile(c, bytes, secret).Err?
    ensures Detect(bytes).Some? && Detect(bytes) != Some(DbEnc005) && secret.password.None? ==>
              DecodeFile(c, bytes, secret).Err?
  {
    hide Detect;
  }

  lemma PasswordFormats(c: Crypto, bytes: Bytes, secret: Secret)
    requires secret.password.Some?
    ensures var only := DecodeFile(c, bytes, Secret(secret.password, None));
            && (only.Ok? ==> DecodeFile(c, bytes, secret) == only)
            && (Detect(bytes) != Some(DbEnc005) && only.Err? ==> DecodeFile(c, bytes, secret).Err?)
  {
    hide DecodeFile;
    PasswordsOpenNoPqe(c, bytes, secret.password.value);
    if Detect(bytes).Some? && Detect(bytes) != Some(DbEnc005) {
      OnlyPasswordMatters(c, Detect(bytes).value, bytes, secret);
    } else if Detect(bytes).None? {
      NoFormatNoPlaintext(c, bytes, secret);
    }
  }

  lemma NoFormatNoPlaintext(c: Crypto, bytes: Bytes, secret: Secret)
    requires Detect(bytes).None?
    ensures DecodeFile(c, bytes, secret).Err?
  {
  }

  /** `run` of discdecrypt: on success it adds the restored tree to the output, the files
      whose detection fell short as they are. With full reads it succeeds exactly when
      every DBENC file outside `decryptor/` decrypts. */
  method DecryptTree(c: Crypto, input: Tree, output: Directory, secret: Secret, mayFallShort: bool)
    returns (r: Result<Summary>, ghost missed: set<RelPath>)
    modifies output
    ensures missed != {} ==> mayFallShort
    ensures !mayFallShort ==> (r.Ok? <==> AllRestorable(c, input, secret, {}))
    ensures r.Ok? ==>
              && missed <= Encrypted(input) && AllRestorable(c, input, secret, missed)
              && output.files == old(output.files) + RestoredTree(c, input, secret, missed)
              && r.value == Summary(|Encrypted(input) - missed|, |Outside(input) - (Encrypted(input) - missed)|)
  {
    hide Detect, Restored, Tally, AllRestorable, Encrypted, RestoredTree, Outside, Lawful;
    var paths := Walk(input);
    var decrypted, copied := 0, 0;
    ghost var written: Tree := map[];
    missed := {};
    NothingWritten(c, input, secret);
    MergeUpdate(output.files, written, [""], []);
    assert paths[..0] == [];
    for i := 0 to |paths|
      invariant Tally(c, input, secret, missed, paths[..i], written, decrypted, copied)
      invariant output.files == old(output.files) + written && (missed != {} ==> mayFallShort)
    {
      var path := paths[i];
      if UnderDecryptor(path) {
        TallySkipped(c, input, secret, missed, paths, i, written, decrypted, copied);
        continue;
      }
      var restored, sealed, short := RestoreFile(c, input[path], secret, mayFallShort);
      if restored.Err? {
        if !mayFallShort {
          NotRestorable(c, input, secret, path);
        }
        return Err(Failed), missed;
      }
      TallyFile(c, input, secret, missed, short, paths, i, written, restored.value, sealed, decrypted, copied);
      missed := if short then missed + {path} else missed;
      MergeUpdate(old(output.files), written, path, restored.value);
      output.files := output.files[path := restored.value];
      written := written[path := restored.value];
      if sealed {
        decrypted := decrypted + 1;
      } else {
        copied := copied + 1;
      }
    }
    TallyAll(c, input, secret, missed, paths, written, decrypted, copied);
    assert paths[..|paths|] == paths;
    return Ok(Summary(decrypted, copied)), missed;
  }

  /** Where the walk stands: what is written, what was missed, and the two counts. */
  ghost predicate Tally(c: Crypto, t: Tree, secret: Secret, missed: set<RelPath>, paths: seq<RelPath>, written: Tree,
                        decrypted: nat, copied: nat)
  {
    && WrittenAmong(c, t, secret, missed, paths, written)
    && decrypted == |Met(t, paths, missed, true)| && copied == |Met(t, paths, missed, false)|
  }

  lemma TallySkipped(c: Crypto, t: Tree, secret: Secret, missed: set<RelPath>, paths: seq<RelPath>, i: nat,
                     written: Tree, decrypted: nat, copied: nat)
    requires i < |paths| && paths[i] in t && forall k, l :: 0 <= k < l < |paths| ==> paths[k] != paths[l]
    requires Tally(c, t, secret, missed, paths[..i], written, decrypted, copied) && UnderDecryptor(paths[i])
    ensures Tally(c, t, secret, missed, paths[..i + 1], written, decrypted, copied)
  {
    hide Met, WrittenAmong, Written, Outside, Encrypted;
    MetGrows(t, paths, i, missed, missed, true);
    MetGrows(t, paths, i, missed, missed, false);
    OneMoreWritten(c, t, secret, missed, missed, paths, i, written, []);
    assert forall s: set<RelPath> :: s + {} == s;
  }

  lemma TallyFile(c: Crypto, t: Tree, secret: Secret, missed: set<RelPath>, short: bool, paths: seq<RelPath>, i: nat,
                  written: Tree, restored: Bytes, sealed: bool, decrypted: nat, copied: nat)
    requires i < |paths| && paths[i] in t && forall k, l :: 0 <= k < l < |paths| ==> paths[k] != paths[l]
    requires Tally(c, t, secret, missed, paths[..i], written, decrypted, copied) && !UnderDecryptor(paths[i])
    requires if short then Detect(t[paths[i]]).Some? && restored == t[paths[i]] && !sealed
             else Restored(c, t[paths[i]], secret) == Ok(restored) && (sealed <==> Detect(t[paths[i]]).Some?)
    ensures Tally(c, t, secret, if short then missed + {paths[i]} else missed, paths[..i + 1],
                  written[paths[i] := restored], if sealed then decrypted + 1 else decrypted,
                  if sealed then copied else copied + 1)
  {
    hide Met, WrittenAmong, Outside, Encrypted, Detect, Restored;
    var now := if short then missed + {paths[i]} else missed;
    NotYetMissed(c, t, secret, missed, paths, i, written);
    MetGrows(t, paths, i, missed, now, true);
    MetGrows(t, paths, i, missed, now, false);
    OneMoreWritten(c, t, secret, missed, now, paths, i, written, restored);
  }

  lemma TallyAll(c: Crypto, t: Tree, secret: Secret, missed: set<RelPath>, paths: seq<RelPath>, written: Tree,
                 decrypted: nat, copied: nat)
    requires forall p :: p in paths <==> p in t
    requires Tally(c, t, secret, missed, paths[..|paths|], written, decrypted, copied)
    ensures missed <= Encrypted(t) && AllRestorable(c, t, secret, missed)
    ensures written == RestoredTree(c, t, secret, missed)
    ensures decrypted == |Encrypted(t) - missed| && copied == |Outside(t) - (Encrypted(t) - missed)|
  {
    hide Met, WrittenAmong, Outside, Encrypted, RestoredTree, AllRestorable;
    assert paths[..|paths|] == paths;
    MetAll(t, paths, missed);
    AllWritten(c, t, secret, missed, paths, written);
  }

  lemma NotYetMissed(c: Crypto, t: Tree, secret: Secret, missed: set<RelPath>, paths: seq<RelPath>, i: nat,
                     written: Tree)
    requires i < |paths| && forall k, l :: 0 <= k < l < |paths| ==> paths[k] != paths[l]
    requires WrittenAmong(c, t, secret, missed, paths[..i], written)
    ensures paths[i] !in missed
  {
    hide Written, Encrypted, Outside;
  }

  lemma MergeUpdate(base: Tree, written: Tree, path: RelPath, bytes: Bytes)
    ensures (base + written)[path := bytes] == base + written[path := bytes]
    ensures map[] + written == written && base + map[] == base
  {
  }

  lemma NothingWritten(c: Crypto, t: Tree, secret: Secret)
    ensures Tally(c, t, secret, {}, [], map[], 0, 0)
  {
    assert Met(t, [], {}, true) == {} && Met(t, [], {}, false) == {};
  }

  /** Both tools, one after the other. */
  method EncryptThenDecrypt(c: Crypto, original: Tree, key: EncKey, format: Format, excludes: seq<seq<string>>,
                            bundle: Tree, secret: Secret, mayFallShort: bool)
    returns (encrypted: Result<nat>, summary: Result<Summary>, result: Tree, ghost missed: set<RelPath>)
    requires Matches(c, key, secret) && forall p :: p in bundle ==> UnderDecryptor(p)
    ensures missed != {} ==> mayFallShort
    ensures encrypted.Ok? && summary.Ok? ==>
              (result == OutsideTree(original) <==> missed == MagicSkipped(original, excludes))
    ensures encrypted.Ok? && !mayFallShort ==>
              (summary.Ok? && result == OutsideTree(original) <==> MagicSkipped(original, excludes) == {})
    ensures encrypted.Ok? && !mayFallShort && MagicSkipped(original, excludes) == {} ==>
              summary == Ok(Summary(encrypted.value, |SkippedOutside(original, excludes)|))
  {
    hide MagicSkipped, EncryptedIn, Encrypts, AllRestorable, Skips, RestoredTree, Outside, OutsideTree, SkippedOutside,
         Encrypted, Lawful, Matches;
    var dir := new Directory(original);
    missed := {};
    encrypted := EncryptTreeInPlace(c, dir, key, format, excludes);
    if encrypted.Err? {
      return encrypted, Err(Failed), map[], missed;
    }
    ghost var sealed := dir.files;
    InjectDecryptor(dir, bundle);
    var output := new Directory(map[]);
    summary, missed := DecryptTree(c, dir.files, output, secret, mayFallShort);
    result := output.files;
    if summary.Ok? {
      TreeRoundTrip(c, key, format, excludes, secret, original, sealed, bundle, missed);
      MergeUpdate(map[], RestoredTree(c, sealed + bundle, secret, missed), [""], []);
    }
    if !mayFallShort {
      TreeRoundTrip(c, key, format, excludes, secret, original, sealed, bundle, {});
      if MagicSkipped(original, excludes) == {} {
        CountsAgree(c, key, format, excludes, secret, original, sealed, bundle);
        assert Encrypted(sealed + bundle) - {} == Encrypted(sealed + bundle);
      }
    }
  }
}
