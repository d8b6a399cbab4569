/** Integers as bytes, and fixed-width fields inside a byte buffer. */
module Bytes {
  import opened Common

  type Buffer = seq<byte>

  const U32_SPAN: nat := 0x1_0000_0000

  function Pow256(k: nat): (p: nat)
    ensures p > 0
  {
    if k == 0 then 1 else 256 * Pow256(k - 1)
  }

  /** Little-endian, `k` bytes; higher bytes are cut off. */
  function LE(n: nat, k: nat): (s: Buffer)
    ensures |s| == k
  {
    if k == 0 then [] else [n % 256] + LE(n / 256, k - 1)
  }

  function FromLE(s: Buffer): nat {
    if s == [] then 0 else s[0] + 256 * FromLE(s[1..])
  }

  /** Big-endian, `k` bytes; higher bytes are cut off. */
  function BE(n: nat, k: nat): (s: Buffer)
    ensures |s| == k
  {
    if k == 0 then [] else BE(n / 256, k - 1) + [n % 256]
  }

  function FromBE(s: Buffer): nat {
    if s == [] then 0 else FromBE(s[..|s| - 1]) * 256 + s[|s| - 1]
  }

  lemma {:induction false} FromLEBound(s: Buffer)
    ensures FromLE(s) < Pow256(|s|)
  {
    if s != [] { FromLEBound(s[1..]); }
  }

  lemma {:induction false} FromLEofLE(n: nat, k: nat)
    requires n < Pow256(k)
    ensures FromLE(LE(n, k)) == n
  {
    if k > 0 {
      FromLEofLE(n / 256, k - 1);
      assert LE(n, k)[1..] == LE(n / 256, k - 1);
    }
  }

  lemma LowByte(b: byte, n: nat)
    ensures (b + 256 * n) % 256 == b && (b + 256 * n) / 256 == n
  {}

  lemma {:induction false} LEofFromLE(s: Buffer)
    ensures LE(FromLE(s), |s|) == s
  {
    if s != [] {
      LEofFromLE(s[1..]);
      LowByte(s[0], FromLE(s[1..]));
      assert s == [s[0]] + s[1..];
    }
  }

  /** Dividing twice is dividing by the product. */
  lemma DivDiv(n: nat, d: nat)
    requires d > 0
    ensures n / 256 / d == n / (256 * d)
  {
    var q := n / 256 / d;
    var r := n / 256 % d;
    assert n == 256 * (q * d + r) + n % 256;
    assert 256 * (q * d + r) == q * (256 * d) + 256 * r;
    assert 0 <= 256 * r + n % 256 < 256 * d;
    Quotient(n, 256 * d, q, 256 * r + n % 256);
  }

  lemma Quotient(n: nat, d: nat, q: nat, r: nat)
    requires n == q * d + r && r < d
    ensures n / d == q
  {
    var q' := n / d;
    assert n == q' * d + n % d;
    assert q' < q ==> (q' + 1) * d <= q * d;
    assert q < q' ==> (q + 1) * d <= q' * d;
  }

  /** Little-endian: byte `i` has weight 256^i. */
  lemma {:induction false} LEAt(n: nat, k: nat, i: nat)
    requires i < k
    ensures LE(n, k)[i] == n / Pow256(i) % 256
    decreases k
  {
    if i > 0 {
      LEAt(n / 256, k - 1, i - 1);
      DivDiv(n, Pow256(i - 1));
    }
  }

  /** Big-endian: the last byte has weight 1. */
  lemma {:induction false} BEAt(n: nat, k: nat, i: nat)
    requires i < k
    ensures BE(n, k)[i] == n / Pow256(k - 1 - i) % 256
    decreases k
  {
    if i < k - 1 {
      BEAt(n / 256, k - 1, i);
      DivDiv(n, Pow256(k - 2 - i));
    }
  }

  lemma {:induction false} FromBEofBE(n: nat, k: nat)
    requires n < Pow256(k)
    ensures FromBE(BE(n, k)) == n
  {
    if k > 0 {
      FromBEofBE(n / 256, k - 1);
      assert BE(n, k)[..k - 1] == BE(n / 256, k - 1);
    }
  }

  lemma PowerSizes()
    ensures Pow256(4) == 0x1_0000_0000
    ensures Pow256(8) == 0x1_0000_0000_0000_0000
    ensures Pow256(16) == 0x1_0000_0000_0000_0000_0000_0000_0000_0000
  {
    assert Pow256(1) == 256 && Pow256(2) == 0x1_0000 && Pow256(3) == 0x100_0000;
    assert Pow256(4) == 0x1_0000_0000 && Pow256(5) == 0x100_0000_0000;
    assert Pow256(6) == 0x1_0000_0000_0000 && Pow256(7) == 0x100_0000_0000_0000;
    assert Pow256(8) == 0x1_0000_0000_0000_0000;
    assert Pow256(9) == 0x100_0000_0000_0000_0000;
    assert Pow256(10) == 0x1_0000_0000_0000_0000_0000;
    assert Pow256(11) == 0x100_0000_0000_0000_0000_0000;
    assert Pow256(12) == 0x1_0000_0000_0000_0000_0000_0000;
    assert Pow256(13) == 0x100_0000_0000_0000_0000_0000_0000;
    assert Pow256(14) == 0x1_0000_0000_0000_0000_0000_0000_0000;
    assert Pow256(15) == 0x100_0000_0000_0000_0000_0000_0000_0000;
  }

  /* ---------------- fields in a buffer ---------------- */

  function Field(c: Buffer, off: nat, k: nat): nat
    requires off + k <= |c|
  {
    FromLE(c[off..off + k])
  }

  /** Overwrites `k` bytes at `off` with a little-endian value. */
  function Put(c: Buffer, off: nat, k: nat, v: nat): (r: Buffer)
    requires off + k <= |c|
    ensures |r| == |c|
  {
    c[..off] + LE(v, k) + c[off + k..]
  }

  lemma PutAt(c: Buffer, off: nat, k: nat, v: nat, i: nat)
    requires off + k <= |c| && i < |c|
    ensures Put(c, off, k, v)[i] == if off <= i < off + k then LE(v, k)[i - off] else c[i]
  {}

  lemma FieldOfPut(c: Buffer, off: nat, k: nat, v: nat)
    requires off + k <= |c| && v < Pow256(k)
    ensures Field(Put(c, off, k, v), off, k) == v
  {
    assert Put(c, off, k, v)[off..off + k] == LE(v, k);
    FromLEofLE(v, k);
  }

  /** A slice that does not meet the field written is unchanged. */
  lemma SliceBesidePut(c: Buffer, off: nat, k: nat, v: nat, lo: nat, hi: nat)
    requires off + k <= |c| && lo <= hi <= |c| && (hi <= off || off + k <= lo)
    ensures Put(c, off, k, v)[lo..hi] == c[lo..hi]
  {
    forall i | lo <= i < hi ensures Put(c, off, k, v)[i] == c[i] { PutAt(c, off, k, v, i); }
  }
}
