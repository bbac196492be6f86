/** The cryptographic libraries the tools call, as function values with the laws
    the tools rely on. Nothing is assumed about how they are computed. */
module Primitives {
  import opened Prelude

  const BLOCK: nat := 16
  const TAG: nat := 16
  const KEM_CT_LEN: nat := 1088

  /** An AEAD in the shape of section 2 of RFC 5116, tag appended. */
  datatype Aead = Aead(
    seal: (Bytes, Bytes, Bytes, Bytes) -> Bytes,
    open: (Bytes, Bytes, Bytes, Bytes) -> Option<Bytes>)

  ghost predicate LawfulAead(a: Aead) {
    && (forall k, n, d, p {:trigger a.seal(k, n, d, p)} ::
          |a.seal(k, n, d, p)| == |p| + TAG && a.open(k, n, d, a.seal(k, n, d, p)) == Some(p))
    && (forall k, n, d, s {:trigger a.open(k, n, d, s)} ::
          a.open(k, n, d, s).Some? ==> s == a.seal(k, n, d, a.open(k, n, d, s).value))
  }

  datatype Library = Library(
    blockEncrypt: (Bytes, Bytes) -> Bytes,
    blockDecrypt: (Bytes, Bytes) -> Bytes,
    hmac: (Bytes, Bytes) -> Bytes,
    sha256: Bytes -> Bytes,
    blake3: Bytes -> Bytes,
    gcm: Aead,
    xchacha: Aead,
    argon2id: (Bytes, Bytes, nat, nat, nat) -> Option<Bytes>,
    kemPublic: Bytes -> Bytes,
    kemEncapsulate: (Bytes, Bytes) -> Option<(Bytes, Bytes)>,
    kemDecapsulate: (Bytes, Bytes) -> Option<Bytes>)

  /** A block cipher permutes the blocks: decryption undoes encryption, and so,
      blocks being finitely many, encryption undoes decryption. */
  ghost predicate LawfulBlocks(c: Library) {
    && (forall k, b {:trigger c.blockEncrypt(k, b)} :: |b| == BLOCK ==>
          |c.blockEncrypt(k, b)| == BLOCK && c.blockDecrypt(k, c.blockEncrypt(k, b)) == b)
    && (forall k, b {:trigger c.blockDecrypt(k, b)} :: |b| == BLOCK ==>
          |c.blockDecrypt(k, b)| == BLOCK && c.blockEncrypt(k, c.blockDecrypt(k, b)) == b)
  }

  ghost predicate LawfulHashes(c: Library) {
    && (forall k, m {:trigger c.hmac(k, m)} :: |c.hmac(k, m)| == 32)
    && (forall m {:trigger c.sha256(m)} :: |c.sha256(m)| == 32)
    && (forall m {:trigger c.blake3(m)} :: |c.blake3(m)| == 32)
  }

  /** Decapsulation undoes encapsulation for the matching public key. */
  ghost predicate LawfulKem(c: Library) {
    && (forall ek, r {:trigger c.kemEncapsulate(ek, r)} :: c.kemEncapsulate(ek, r).Some? ==>
          |c.kemEncapsulate(ek, r).value.0| == KEM_CT_LEN)
    && (forall dk, r {:trigger c.kemEncapsulate(c.kemPublic(dk), r)} ::
          c.kemEncapsulate(c.kemPublic(dk), r).Some? ==>
            c.kemDecapsulate(dk, c.kemEncapsulate(c.kemPublic(dk), r).value.0)
            == Some(c.kemEncapsulate(c.kemPublic(dk), r).value.1))
  }

  ghost predicate Lawful(c: Library) {
    LawfulBlocks(c) && LawfulHashes(c) && LawfulKem(c) && LawfulAead(c.gcm) && LawfulAead(c.xchacha)
  }

  /** A toy AEAD and library that obey the laws: the laws are consistent. */
  function PlainSeal(k: Bytes, n: Bytes, d: Bytes, p: Bytes): Bytes {
    p + Zeros(TAG)
  }

  function PlainOpen(k: Bytes, n: Bytes, d: Bytes, s: Bytes): Option<Bytes> {
    if |s| >= TAG && s[|s| - TAG..] == Zeros(TAG) then Some(s[..|s| - TAG]) else None
  }

  const PLAIN_AEAD: Aead := Aead(PlainSeal, PlainOpen)

  const PLAIN_LIBRARY: Library := Library(
    (k, b) => b, (k, b) => b, (k, m) => Zeros(32), m => Zeros(32), m => Zeros(32),
    PLAIN_AEAD, PLAIN_AEAD, (p, s, m, t, l) => Some(Zeros(32)),
    dk => dk, (ek, r) => Some((Zeros(KEM_CT_LEN), Zeros(32))), (dk, ct) => Some(Zeros(32)))

  lemma PlainAeadIsLawful()
    ensures LawfulAead(PLAIN_AEAD)
  {
    forall k, n, d, p ensures PlainOpen(k, n, d, PlainSeal(k, n, d, p)) == Some(p) {
      assert PlainSeal(k, n, d, p)[..|p|] == p;
    }
    forall k, n, d, s | PlainOpen(k, n, d, s).Some?
      ensures s == PlainSeal(k, n, d, PlainOpen(k, n, d, s).value)
    {
      assert s == s[..|s| - TAG] + s[|s| - TAG..];
    }
  }

  lemma PlainLibraryIsLawful()
    ensures Lawful(PLAIN_LIBRARY)
  {
    PlainAeadIsLawful();
  }

  type Crypto = c: Library | Lawful(c) ghost witness (PlainLibraryIsLawful(); PLAIN_LIBRARY)
}
