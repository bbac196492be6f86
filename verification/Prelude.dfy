/** Shared vocabulary: results, bytes, exclusive-or, and fixed-width integers. */
module Prelude {

  datatype Option<+T> = None | Some(value: T)

  /** Every error text is reduced to the one distinction that routes control:
      the "operation aborted" sentinel, and everything else. */
  datatype Error = Aborted | Failed

  datatype Result<+T> = Ok(value: T) | Err(error: Error)

  newtype Byte = x: int | 0 <= x < 256

  type Bytes = seq<Byte>

  function Min(a: nat, b: nat): nat {
    if a <= b then a else b
  }

  function Max(a: nat, b: nat): nat {
    if a <= b then b else a
  }

  function Zeros(n: nat): (z: Bytes)
    ensures |z| == n
  {
    Filled(n, 0)
  }

  function Filled(n: nat, b: Byte): (z: Bytes)
    ensures |z| == n && forall i :: 0 <= i < n ==> z[i] == b
  {
    seq(n, _ => b)
  }

  /** The file contents after `data` is written at `pos`; a gap reads as zeros. */
  function Overwrite(s: Bytes, pos: nat, data: Bytes): (r: Bytes)
    ensures |r| == Max(|s|, pos + |data|)
    ensures forall i :: 0 <= i < |r| ==>
              r[i] == if pos <= i < pos + |data| then data[i - pos] else if i < |s| then s[i] else 0
  {
    var base := if |s| < pos then s + Zeros(pos - |s|) else s;
    base[..pos] + data + (if pos + |data| <= |base| then base[pos + |data|..] else [])
  }

  /** `copy_from_slice` into part of a buffer. */
  method CopyInto(buf: array<Byte>, at: nat, data: Bytes)
    requires at + |data| <= buf.Length
    modifies buf
    ensures buf[..at + |data|] == old(buf[..at]) + data
    ensures forall i :: at + |data| <= i < buf.Length ==> buf[i] == old(buf[i])
  {
    forall i | 0 <= i < |data| {
      buf[at + i] := data[i];
    }
    ghost var after := old(buf[..at]) + data;
    assert forall i :: at <= i < at + |data| ==> buf[i] == data[i - at];
    assert forall i :: 0 <= i < |after| ==> buf[i] == after[i];
  }

  lemma ConcatAssociates<T>(a: seq<T>, b: seq<T>, c: seq<T>)
    ensures a + (b + c) == (a + b) + c
  {
  }

  /** Moving a chunk from the unread rest to the carried bytes changes nothing. */
  lemma CarryChunk(carried: Bytes, rest: Bytes, chunk: Bytes)
    requires chunk <= rest
    ensures carried + rest == (carried + chunk) + rest[|chunk|..]
  {
    assert rest == chunk + rest[|chunk|..];
  }

  lemma SliceOfSlice(s: Bytes, start: nat, end: nat, lo: nat, hi: nat)
    requires start <= end <= |s| && lo <= hi <= end - start
    ensures s[start..end][lo..hi] == s[start + lo..start + hi]
  {
    var x, y := s[start..end][lo..hi], s[start + lo..start + hi];
    assert |x| == |y| && forall i :: 0 <= i < |x| ==> x[i] == y[i];
  }

  lemma TakeOfDrop(s: Bytes, start: nat, n: nat)
    requires start + n <= |s|
    ensures s[start..][..n] == s[start..start + n] && s[start..][n..] == s[start + n..]
  {
  }

  lemma QuotientOf(n: nat, d: nat, q: nat, r: nat)
    requires n == d * q + r && r < d
    ensures n / d == q
  {
    var e := n / d;
    assert n == d * e + n % d;
    if e < q {
      NextMultiple(d, e, q);
    } else if q < e {
      NextMultiple(d, q, e);
    }
  }

  lemma {:induction false} NextMultiple(d: nat, x: nat, y: nat)
    requires x < y
    ensures d * x + d <= d * y
    decreases y
  {
    assert d * y == d * (y - 1) + d;
    if x < y - 1 {
      NextMultiple(d, x, y - 1);
    }
  }

  lemma TimesByte(p: nat, q: nat)
    ensures 256 * (p * q) == (256 * p) * q
  {
  }

  lemma DivideByByte(n: nat, p: nat, d: nat)
    requires p > 0 && d == 256 * p
    ensures n / 256 / p == n / d
  {
    var m := n / 256;
    var q := m / p;
    assert m == p * q + m % p;
    TimesByte(p, q);
    QuotientOf(n, d, q, 256 * (m % p) + n % 256);
  }

  // ── Exclusive or ────────────────────────────────────────────────────────────

  function Pow2(k: nat): (p: nat)
    ensures p > 0
  {
    if k == 0 then 1 else 2 * Pow2(k - 1)
  }

  /** Bitwise exclusive or of the low `k` bits. */
  function XorBits(k: nat, a: nat, b: nat): (r: nat)
    ensures r < Pow2(k)
  {
    if k == 0 then 0
    else (if a % 2 == b % 2 then 0 else 1) + 2 * XorBits(k - 1, a / 2, b / 2)
  }

  lemma {:induction false} XorBitsCancels(k: nat, a: nat, b: nat)
    requires a < Pow2(k)
    ensures XorBits(k, XorBits(k, a, b), b) == a
  {
    if k > 0 {
      XorBitsCancels(k - 1, a / 2, b / 2);
      var r := XorBits(k - 1, a / 2, b / 2);
      var bit := if a % 2 == b % 2 then 0 else 1;
      assert XorBits(k, a, b) == bit + 2 * r;
      assert XorBits(k, a, b) / 2 == r && XorBits(k, a, b) % 2 == bit;
    }
  }

  /** The last bit after k halvings. */
  function Bit(n: nat, k: nat): (b: nat)
    ensures b <= 1
  {
    if k == 0 then n % 2 else Bit(n / 2, k - 1)
  }

  /** A bit of the result is set exactly when one of the operands has it set. */
  lemma {:induction false} XorBitsAt(w: nat, a: nat, b: nat, k: nat)
    requires k < w
    ensures Bit(XorBits(w, a, b), k) == (Bit(a, k) + Bit(b, k)) % 2
  {
    assert XorBits(w, a, b) == (if a % 2 == b % 2 then 0 else 1) + 2 * XorBits(w - 1, a / 2, b / 2);
    if k > 0 {
      XorBitsAt(w - 1, a / 2, b / 2, k - 1);
    }
  }

  function XorByte(a: Byte, b: Byte): Byte {
    assert Pow2(8) == 256;
    XorBits(8, a as int, b as int) as Byte
  }

  function Xor(x: Bytes, y: Bytes): (z: Bytes)
    requires |x| == |y|
    ensures |z| == |x|
  {
    seq(|x|, i requires 0 <= i < |x| => XorByte(x[i], y[i]))
  }

  lemma XorAt(x: Bytes, y: Bytes, i: nat, k: nat)
    requires i < |x| == |y| && k < 8
    ensures Bit(Xor(x, y)[i] as int, k) == (Bit(x[i] as int, k) + Bit(y[i] as int, k)) % 2
  {
    assert Pow2(8) == 256;
    XorBitsAt(8, x[i] as int, y[i] as int, k);
  }

  /** Exclusive or with the same mask twice is the identity. */
  lemma XorCancels(x: Bytes, y: Bytes)
    requires |x| == |y|
    ensures Xor(Xor(x, y), y) == x
  {
    forall i | 0 <= i < |x| ensures Xor(Xor(x, y), y)[i] == x[i] {
      assert Pow2(8) == 256;
      XorBitsCancels(8, x[i] as int, y[i] as int);
    }
  }

  // ── Fixed-width integers ────────────────────────────────────────────────────

  const TWO32: nat := 0x1_0000_0000
  const TWO64: nat := 0x1_0000_0000_0000_0000

  function Pow256(w: nat): (p: nat)
    ensures p > 0
  {
    if w == 0 then 1 else 256 * Pow256(w - 1)
  }

  lemma Pow256Values()
    ensures Pow256(4) == TWO32 && Pow256(8) == TWO64
  {
    assert Pow256(4) == 256 * (256 * (256 * (256 * Pow256(0))));
    assert Pow256(8) == 256 * (256 * (256 * (256 * Pow256(4))));
  }

  /** `to_le_bytes` of the low `w` bytes of `n`. */
  function Le(n: nat, w: nat): (b: Bytes)
    ensures |b| == w
  {
    if w == 0 then [] else [(n % 256) as Byte] + Le(n / 256, w - 1)
  }

  function FromLe(b: Bytes): nat {
    if b == [] then 0 else b[0] as int + 256 * FromLe(b[1..])
  }

  /** `to_be_bytes` of the low `w` bytes of `n`. */
  function Be(n: nat, w: nat): (b: Bytes)
    ensures |b| == w
  {
    if w == 0 then [] else Be(n / 256, w - 1) + [(n % 256) as Byte]
  }

  /** The least significant byte comes first. */
  lemma {:induction false} LeDigit(n: nat, w: nat, i: nat)
    requires i < w
    ensures Le(n, w)[i] as int == n / Pow256(i) % 256
  {
    if i > 0 {
      LeDigit(n / 256, w - 1, i - 1);
      DivideByByte(n, Pow256(i - 1), Pow256(i));
    }
  }

  /** The most significant byte comes first. */
  lemma {:induction false} BeDigit(n: nat, w: nat, i: nat)
    requires i < w
    ensures Be(n, w)[i] as int == n / Pow256(w - 1 - i) % 256
  {
    if i < w - 1 {
      BeDigit(n / 256, w - 1, i);
      DivideByByte(n, Pow256(w - 2 - i), Pow256(w - 1 - i));
    }
  }

  lemma {:induction false} LeRoundTrip(n: nat, w: nat)
    requires n < Pow256(w)
    ensures FromLe(Le(n, w)) == n
  {
    if w > 0 {
      LeRoundTrip(n / 256, w - 1);
      assert Le(n, w)[1..] == Le(n / 256, w - 1);
    }
  }

  lemma {:induction false} FromLeBound(b: Bytes)
    ensures FromLe(b) < Pow256(|b|)
  {
    if b != [] {
      FromLeBound(b[1..]);
    }
  }

  lemma {:induction false} LeInvertsFromLe(b: Bytes)
    ensures Le(FromLe(b), |b|) == b
  {
    if b != [] {
      var rest := FromLe(b[1..]);
      LeInvertsFromLe(b[1..]);
      LowDigit(b[0] as int, rest);
      assert b == [b[0]] + b[1..];
    }
  }

  lemma LowDigit(d: nat, rest: nat)
    requires d < 256
    ensures (d + 256 * rest) % 256 == d && (d + 256 * rest) / 256 == rest
  {
  }

  lemma FromLeRoundTrip(b: Bytes)
    ensures FromLe(b) < Pow256(|b|)
    ensures Le(FromLe(b), |b|) == b
  {
    FromLeBound(b);
    LeInvertsFromLe(b);
  }

  /** Reading a field weighs its first byte least. */
  lemma FromLeDigit(b: Bytes, i: nat)
    requires i < |b|
    ensures b[i] as int == FromLe(b) / Pow256(i) % 256
  {
    LeInvertsFromLe(b);
    LeDigit(FromLe(b), |b|, i);
  }
}
