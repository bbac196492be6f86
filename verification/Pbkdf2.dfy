/** PBKDF2 (src/dbenc/mod.rs): section 5.2 of RFC 8018, and the loop that computes it in place. */
module Pbkdf2 {
  import opened Prelude
  import opened Primitives

  const HASH_LEN: nat := 32

  /** U_1 = PRF(P, S || INT(i)), U_j = PRF(P, U_{j-1}). */
  function U(c: Crypto, password: Bytes, salt: Bytes, i: nat, j: nat): (u: Bytes)
    requires j >= 1
    ensures |u| == HASH_LEN
  {
    if j == 1 then c.hmac(password, salt + Be(i % TWO32, 4))
    else c.hmac(password, U(c, password, salt, i, j - 1))
  }

  /** F(P, S, rounds, i): the exclusive or of the first `rounds` values U_j. */
  function F(c: Crypto, password: Bytes, salt: Bytes, rounds: nat, i: nat): (t: Bytes)
    requires rounds >= 1
    ensures |t| == HASH_LEN
  {
    if rounds == 1 then U(c, password, salt, i, 1)
    else Xor(F(c, password, salt, rounds - 1, i), U(c, password, salt, i, rounds))
  }

  /** T_1 || T_2 || ... || T_blocks, with block numbers starting at one. */
  function Blocks(c: Crypto, password: Bytes, salt: Bytes, rounds: nat, blocks: nat): (t: Bytes)
    requires rounds >= 1
    ensures |t| == HASH_LEN * blocks
  {
    if blocks == 0 then []
    else Blocks(c, password, salt, rounds, blocks - 1) + F(c, password, salt, rounds, blocks)
  }

  /** The derived key: the blocks needed to cover `length`, cut to `length`. */
  function Derive(c: Crypto, password: Bytes, salt: Bytes, rounds: nat, length: nat): (key: Bytes)
    requires rounds >= 1
    ensures |key| == length
  {
    Blocks(c, password, salt, rounds, (length + HASH_LEN - 1) / HASH_LEN)[..length]
  }

  lemma {:induction false} BlocksPrefix(c: Crypto, password: Bytes, salt: Bytes, rounds: nat, m: nat, n: nat)
    requires rounds >= 1 && m <= n
    ensures Blocks(c, password, salt, rounds, m) <= Blocks(c, password, salt, rounds, n)
  {
    if m < n {
      BlocksPrefix(c, password, salt, rounds, m, n - 1);
    }
  }

  /** A shorter key is a prefix of a longer one: the 32-byte AEAD key is the
      first half of the 64 bytes DBENC001 derives. */
  lemma ShorterKeyIsPrefix(c: Crypto, password: Bytes, salt: Bytes, rounds: nat, short: nat, long: nat)
    requires rounds >= 1 && short <= long
    ensures Derive(c, password, salt, rounds, short) == Derive(c, password, salt, rounds, long)[..short]
  {
    var m, n := (short + HASH_LEN - 1) / HASH_LEN, (long + HASH_LEN - 1) / HASH_LEN;
    assert m <= n;
    BlocksPrefix(c, password, salt, rounds, m, n);
    var whole := Blocks(c, password, salt, rounds, n);
    assert Blocks(c, password, salt, rounds, m) == whole[..HASH_LEN * m];
  }

  /** Byte k of the key is byte k % 32 of T_{k / 32 + 1}. */
  lemma {:induction false} BlockByte(c: Crypto, password: Bytes, salt: Bytes, rounds: nat, blocks: nat, k: nat)
    requires rounds >= 1 && k < HASH_LEN * blocks
    ensures Blocks(c, password, salt, rounds, blocks)[k] == F(c, password, salt, rounds, k / HASH_LEN + 1)[k % HASH_LEN]
  {
    hide F;
    if k < HASH_LEN * (blocks - 1) {
      BlockByte(c, password, salt, rounds, blocks - 1, k);
    } else {
      assert k / HASH_LEN == blocks - 1 && k % HASH_LEN == k - HASH_LEN * (blocks - 1);
    }
  }

  // ── What the key is ─────────────────────────────────────────────────────────

  /** A 32-bit number, most significant byte first. */
  function Number(i: nat): (n: Bytes)
    requires i < TWO32
  {
    [(i / 0x100_0000) as Byte, (i / 0x1_0000 % 256) as Byte, (i / 0x100 % 256) as Byte, (i % 256) as Byte]
  }

  lemma BigEndian(i: nat)
    requires i < TWO32
    ensures Be(i, 4) == Number(i)
  {
    hide Be;
    assert Pow256(0) == 1 && Pow256(1) == 0x100 && Pow256(2) == 0x1_0000 && Pow256(3) == 0x100_0000;
    BeDigit(i, 4, 0);
    BeDigit(i, 4, 1);
    BeDigit(i, 4, 2);
    BeDigit(i, 4, 3);
  }

  /** The first value of a block is keyed by the password and made from the salt and
      the block number. */
  lemma FirstInput(c: Crypto, password: Bytes, salt: Bytes, i: nat)
    requires i < TWO32
    ensures U(c, password, salt, i, 1) == c.hmac(password, salt + Number(i))
  {
    BigEndian(i);
  }

  /** `u`, and n times more the PRF of the value before. */
  function Chained(c: Crypto, password: Bytes, u: Bytes, n: nat): Bytes
    decreases n
  {
    if n == 0 then u else Chained(c, password, c.hmac(password, u), n - 1)
  }

  lemma {:induction false} ChainedOnce(c: Crypto, password: Bytes, u: Bytes, n: nat)
    ensures Chained(c, password, u, n + 1) == c.hmac(password, Chained(c, password, u, n))
    decreases n
  {
    if n > 0 {
      ChainedOnce(c, password, c.hmac(password, u), n - 1);
    }
  }

  /** Every further value is the PRF of the one before: the salt enters once. */
  lemma {:induction false} ValuesAreChained(c: Crypto, password: Bytes, salt: Bytes, i: nat, j: nat)
    requires i < TWO32 && j >= 1
    ensures U(c, password, salt, i, j) == Chained(c, password, c.hmac(password, salt + Number(i)), j - 1)
  {
    if j == 1 {
      FirstInput(c, password, salt, i);
    } else {
      ValuesAreChained(c, password, salt, i, j - 1);
      ChainedOnce(c, password, c.hmac(password, salt + Number(i)), j - 2);
    }
  }

  /** How many of U_1, ..., U_rounds have a bit set. */
  function Ones(c: Crypto, password: Bytes, salt: Bytes, rounds: nat, i: nat, at: nat, bit: nat): nat
    requires at < HASH_LEN
  {
    if rounds == 0 then 0
    else Ones(c, password, salt, rounds - 1, i, at, bit) + Bit(U(c, password, salt, i, rounds)[at] as int, bit)
  }

  lemma {:induction false} BitOfBlock(c: Crypto, password: Bytes, salt: Bytes, rounds: nat, i: nat, at: nat, bit: nat)
    requires rounds >= 1 && at < HASH_LEN && bit < 8
    ensures Bit(F(c, password, salt, rounds, i)[at] as int, bit) == Ones(c, password, salt, rounds, i, at, bit) % 2
  {
    hide Bit;
    if rounds > 1 {
      BitOfBlock(c, password, salt, rounds - 1, i, at, bit);
      XorAt(F(c, password, salt, rounds - 1, i), U(c, password, salt, i, rounds), at, bit);
    } else {
      assert Ones(c, password, salt, 0, i, at, bit) == 0;
    }
  }

  /** A bit of the key is set exactly when it is set in an odd number of the values of
      its block. */
  lemma BitOfKey(c: Crypto, password: Bytes, salt: Bytes, rounds: nat, length: nat, k: nat, bit: nat)
    requires rounds >= 1 && k < length && bit < 8
    ensures Bit(Derive(c, password, salt, rounds, length)[k] as int, bit)
         == Ones(c, password, salt, rounds, k / HASH_LEN + 1, k % HASH_LEN, bit) % 2
  {
    hide Bit;
    BlockByte(c, password, salt, rounds, (length + HASH_LEN - 1) / HASH_LEN, k);
    BitOfBlock(c, password, salt, rounds, k / HASH_LEN + 1, k % HASH_LEN, bit);
  }

  /** The password enters as the key of the PRF and nowhere else, and nothing but the
      PRF enters: libraries that agree on it derive the same keys. */
  lemma {:induction false} OnlyKeyedPrfMatters(c: Crypto, d: Crypto, password: Bytes, salt: Bytes, rounds: nat,
                                               length: nat)
    requires rounds >= 1 && forall m :: c.hmac(password, m) == d.hmac(password, m)
    ensures Derive(c, password, salt, rounds, length) == Derive(d, password, salt, rounds, length)
  {
    SameBlocks(c, d, password, salt, rounds, (length + HASH_LEN - 1) / HASH_LEN);
  }

  lemma {:induction false} SameBlocks(c: Crypto, d: Crypto, password: Bytes, salt: Bytes, rounds: nat, blocks: nat)
    requires rounds >= 1 && forall m :: c.hmac(password, m) == d.hmac(password, m)
    ensures Blocks(c, password, salt, rounds, blocks) == Blocks(d, password, salt, rounds, blocks)
  {
    if blocks > 0 {
      SameBlocks(c, d, password, salt, rounds, blocks - 1);
      SameBlock(c, d, password, salt, rounds, blocks);
    }
  }

  lemma {:induction false} SameBlock(c: Crypto, d: Crypto, password: Bytes, salt: Bytes, rounds: nat, i: nat)
    requires rounds >= 1 && forall m :: c.hmac(password, m) == d.hmac(password, m)
    ensures U(c, password, salt, i, rounds) == U(d, password, salt, i, rounds)
    ensures F(c, password, salt, rounds, i) == F(d, password, salt, rounds, i)
  {
    if rounds > 1 {
      SameBlock(c, d, password, salt, rounds - 1, i);
    }
  }

  // ── The code ────────────────────────────────────────────────────────────────

  /** The innermost loop: exclusive-ors `u` into `t` byte by byte. */
  method XorInto(t: array<Byte>, u: Bytes)
    requires t.Length == |u|
    modifies t
    ensures t[..] == Xor(old(t[..]), u)
  {
    for k := 0 to t.Length
      invariant forall i :: 0 <= i < k ==> t[i] == XorByte(old(t[i]), u[i])
      invariant forall i :: k <= i < t.Length ==> t[i] == old(t[i])
    {
      t[k] := XorByte(t[k], u[k]);
    }
  }

  /** One block: the rounds loop, accumulating exclusive ors in place. */
  method DeriveBlock(c: Crypto, password: Bytes, salt: Bytes, rounds: nat, blockIndex: nat) returns (t: array<Byte>)
    ensures fresh(t) && t[..] == F(c, password, salt, Max(rounds, 1), blockIndex + 1)
  {
    var u := c.hmac(password, salt + Be((blockIndex + 1) % TWO32, 4));
    t := new Byte[HASH_LEN](i requires 0 <= i < HASH_LEN => u[i]);
    assert t[..] == u;
    for j := 1 to Max(rounds, 1)
      invariant u == U(c, password, salt, blockIndex + 1, j)
      invariant t[..] == F(c, password, salt, j, blockIndex + 1)
    {
      u := c.hmac(password, u);
      XorInto(t, u);
    }
  }

  /** One more block, whole or cut, extends the derived key. */
  lemma DeriveStep(c: Crypto, password: Bytes, salt: Bytes, rounds: nat, block: nat, count: nat)
    requires rounds >= 1 && 1 <= count <= HASH_LEN
    ensures Derive(c, password, salt, rounds, HASH_LEN * block + count)
         == Derive(c, password, salt, rounds, HASH_LEN * block) + F(c, password, salt, rounds, block + 1)[..count]
  {
    assert (HASH_LEN * block + HASH_LEN - 1) / HASH_LEN == block;
    assert (HASH_LEN * block + count + HASH_LEN - 1) / HASH_LEN == block + 1;
  }

  lemma NoKey(c: Crypto, password: Bytes, salt: Bytes, rounds: nat)
    requires rounds >= 1
    ensures Derive(c, password, salt, rounds, 0) == []
  {
  }

  /** Copies the first `count` bytes of a block into `output` at `start`. */
  method CopyBlock(t: array<Byte>, output: array<Byte>, start: nat, count: nat)
    requires t != output && count <= t.Length && start + count <= output.Length
    modifies output
    ensures output[..start + count] == old(output[..start]) + t[..count]
  {
    forall k | 0 <= k < count {
      output[start + k] := t[k];
    }
  }

  /** `pbkdf2_hmac_sha256`: fills `output` chunk by chunk. Zero rounds behave as one. */
  method Pbkdf2HmacSha256(c: Crypto, password: Bytes, salt: Bytes, rounds: nat, output: array<Byte>)
    modifies output
    ensures output[..] == Derive(c, password, salt, Max(rounds, 1), output.Length)
  {
    hide Derive, F;
    var start, blockIndex := 0, 0;
    NoKey(c, password, salt, Max(rounds, 1));
    while start < output.Length
      invariant start == Min(HASH_LEN * blockIndex, output.Length)
      invariant output[..start] == Derive(c, password, salt, Max(rounds, 1), start)
    {
      var t := DeriveBlock(c, password, salt, rounds, blockIndex);
      var count := Min(HASH_LEN, output.Length - start);
      CopyBlock(t, output, start, count);
      DeriveStep(c, password, salt, Max(rounds, 1), blockIndex, count);
      start, blockIndex := start + count, blockIndex + 1;
    }
    assert output[..start] == output[..];
  }
}
