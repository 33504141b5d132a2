/** Fixed-width unsigned integers, their little-endian byte images, and strings as bytes. */
module Bytes {

  type u8 = x: int | 0 <= x < 0x100
  type u16 = x: int | 0 <= x < 0x1_0000
  type u32 = x: int | 0 <= x < 0x1_0000_0000
  type u64 = x: int | 0 <= x < 0x1_0000_0000_0000_0000

  /** The bytes of a Rust `String`. */
  type Str = seq<u8>

  const U16_SPAN: nat := 0x1_0000
  const U32_SPAN: nat := 0x1_0000_0000

  function Pow256(n: nat): (p: nat)
    ensures p > 0
  {
    if n == 0 then 1 else 256 * Pow256(n - 1)
  }

  /** The `n` low-order bytes of `v`, least significant first. */
  function Le(v: nat, n: nat): (bs: seq<u8>)
    ensures |bs| == n
  {
    if n == 0 then [] else [v % 256] + Le(v / 256, n - 1)
  }

  function FromLe(bs: seq<u8>): nat
  {
    if bs == [] then 0 else bs[0] + 256 * FromLe(bs[1..])
  }

  lemma {:induction false} FromLeOfLe(v: nat, n: nat)
    requires v < Pow256(n)
    ensures FromLe(Le(v, n)) == v
  {
    if n > 0 {
      FromLeOfLe(v / 256, n - 1);
      assert Le(v, n)[1..] == Le(v / 256, n - 1);
    }
  }

  lemma {:induction false} LeOfFromLe(bs: seq<u8>)
    ensures FromLe(bs) < Pow256(|bs|)
    ensures Le(FromLe(bs), |bs|) == bs
  {
    if bs != [] {
      LeOfFromLe(bs[1..]);
      var tail := FromLe(bs[1..]);
      assert (bs[0] + 256 * tail) / 256 == tail;
      assert bs == [bs[0]] + bs[1..];
    }
  }

  lemma Spans()
    ensures Pow256(1) == 0x100
    ensures Pow256(2) == U16_SPAN
    ensures Pow256(4) == U32_SPAN
    ensures Pow256(8) == 0x1_0000_0000_0000_0000
  {
    assert Pow256(1) == 256 * Pow256(0);
    assert Pow256(2) == 256 * Pow256(1);
    assert Pow256(3) == 256 * Pow256(2);
    assert Pow256(4) == 256 * Pow256(3);
    assert Pow256(5) == 256 * Pow256(4);
    assert Pow256(6) == 256 * Pow256(5);
    assert Pow256(7) == 256 * Pow256(6);
    assert Pow256(8) == 256 * Pow256(7);
  }

  /** The `w`-byte field of a value that fits reads back as that value, whatever follows it. */
  lemma FieldReadsBack(v: nat, w: nat, rest: seq<u8>)
    requires v < Pow256(w)
    ensures FromLe((Le(v, w) + rest)[..w]) == v
    ensures (Le(v, w) + rest)[w..] == rest
  {
    FromLeOfLe(v, w);
    assert (Le(v, w) + rest)[..w] == Le(v, w);
  }

  // ---------------------------------------------------------------- which byte stands where

  lemma {:induction false} MulMono(d: nat, a: nat, b: nat)
    requires a <= b
    ensures d * a <= d * b
    decreases b - a
  {
    if a < b {
      MulMono(d, a, b - 1);
      assert d * b == d * (b - 1) + d;
    }
  }

  lemma DivIs(x: nat, d: nat, q: nat)
    requires d > 0 && d * q <= x < d * q + d
    ensures x / d == q
  {
    var p := x / d;
    assert d * p <= x < d * p + d;
    if p > q { MulMono(d, q + 1, p); }
    if p < q { MulMono(d, p + 1, q); }
  }

  lemma DivTwice(v: nat, d: nat)
    requires d > 0
    ensures v / (256 * d) == v / 256 / d
  {
    var s := v / 256 / d;
    assert d * s <= v / 256 < d * s + d;
    assert (256 * d) * s == 256 * (d * s);
    DivIs(v, 256 * d, s);
  }

  lemma ModTwice(v: nat, d: nat)
    requires d > 0
    ensures v % (256 * d) / 256 == v / 256 % d && v % (256 * d) % 256 == v % 256
  {
    var q, w := v / (256 * d), v % (256 * d);
    assert v == (256 * d) * q + w;
    assert (256 * d) * q == 256 * (d * q);
    assert v / 256 == d * q + w / 256;
    DivIs(v / 256, d, q);
  }

  /** A field holds its value modulo 256^n. */
  lemma {:induction false} LeWraps(v: nat, n: nat)
    ensures Le(v % Pow256(n), n) == Le(v, n)
  {
    if n > 0 {
      ModTwice(v, Pow256(n - 1));
      LeWraps(v / 256, n - 1);
    }
  }

  /** Byte `k` of a field has weight 256^k: the least significant byte comes first. */
  lemma {:induction false} LeByte(v: nat, n: nat, k: nat)
    requires k < n
    ensures Le(v, n)[k] == v / Pow256(k) % 256
    decreases k
  {
    if k > 0 {
      LeByte(v / 256, n - 1, k - 1);
      DivTwice(v, Pow256(k - 1));
    }
  }

  /** The first `n` bytes, byte `k` counted 256^k times. */
  function Weighted(bs: seq<u8>, n: nat): nat
    requires n <= |bs|
  {
    if n == 0 then 0 else Weighted(bs, n - 1) + bs[n - 1] * Pow256(n - 1)
  }

  lemma {:induction false} WeightedTail(bs: seq<u8>, n: nat)
    requires n < |bs|
    ensures Weighted(bs, n + 1) == bs[0] + 256 * Weighted(bs[1..], n)
    decreases n
  {
    if n == 0 {
      assert Weighted(bs, 0) == 0 && Pow256(0) == 1;
    } else {
      WeightedTail(bs, n - 1);
      assert bs[n] == bs[1..][n - 1];
      assert bs[n] * Pow256(n) == 256 * (bs[n] * Pow256(n - 1));
    }
  }

  lemma {:induction false} FromLeIsWeighted(bs: seq<u8>)
    ensures FromLe(bs) == Weighted(bs, |bs|)
  {
    if bs != [] {
      FromLeIsWeighted(bs[1..]);
      WeightedTail(bs, |bs| - 1);
    }
  }

  function U16At(b: seq<u8>, k: nat): u16
    requires k + 2 <= |b|
  {
    b[k] + 0x100 * (b[k + 1] as int)
  }

  function U32At(b: seq<u8>, k: nat): u32
    requires k + 4 <= |b|
  {
    b[k] + 0x100 * (b[k + 1] as int) + 0x1_0000 * (b[k + 2] as int) + 0x100_0000 * (b[k + 3] as int)
  }

  function U64At(b: seq<u8>, k: nat): u64
    requires k + 8 <= |b|
  {
    U32At(b, k) + 0x1_0000_0000 * U32At(b, k + 4)
  }

  lemma ReadsU16(b: seq<u8>, k: nat)
    requires k + 2 <= |b|
    ensures FromLe(b[k..k + 2]) == U16At(b, k)
  {
    var c := b[k..k + 2];
    assert c[1..] == [c[1]] && FromLe([c[1]][1..]) == 0;
  }

  lemma ReadsU32(b: seq<u8>, k: nat)
    requires k + 4 <= |b|
    ensures FromLe(b[k..k + 4]) == U32At(b, k)
  {
    var c := b[k..k + 4];
    assert c[2..] == b[k + 2..k + 4] && c[1..][1..] == c[2..];
    ReadsU16(b, k + 2);
  }

  lemma ReadsU64(b: seq<u8>, k: nat)
    requires k + 8 <= |b|
    ensures FromLe(b[k..k + 8]) == U64At(b, k)
  {
    var c := b[k..k + 8];
    ReadsU32(b, k + 4);
    assert c[1..][1..] == c[2..] && c[2..][1..] == c[3..] && c[3..][1..] == c[4..] && c[4..] == b[k + 4..k + 8];
    assert FromLe(c[3..]) == c[3] + 256 * FromLe(c[4..]);
    assert FromLe(c[2..]) == c[2] + 256 * FromLe(c[3..]);
    assert FromLe(c[1..]) == c[1] + 256 * FromLe(c[2..]);
  }
}
