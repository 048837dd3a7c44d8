/**
 * Unsigned machine integers as natural numbers: powers of two, the all-ones
 * value of an unsigned type of `k` bits, bitwise AND, and the little-endian byte layout that the
 * model fixes for the host's native byte order.
 */
module Bits {

  /** One byte of memory. */
  newtype byte = x: int | 0 <= x < 256

  function Pow2(k: nat): (r: nat)
    ensures r >= 1
  {
    if k == 0 then 1 else 2 * Pow2(k - 1)
  }

  lemma Pow2Of8()
    ensures Pow2(8) == 0x100
  {
    assert Pow2(4) == 16;
  }

  lemma Pow2Of16()
    ensures Pow2(16) == 0x1_0000
  {
    Pow2Of8();
    Pow2Add(8, 8);
  }

  lemma Pow2Of32()
    ensures Pow2(32) == 0x1_0000_0000
  {
    Pow2Of16();
    Pow2Add(16, 16);
  }

  lemma Pow2Of64()
    ensures Pow2(64) == 0x1_0000_0000_0000_0000
  {
    Pow2Of32();
    Pow2Add(32, 32);
  }

  lemma {:induction false} Pow2Add(a: nat, b: nat)
    ensures Pow2(a + b) == Pow2(a) * Pow2(b)
  {
    if a > 0 {
      Pow2Add(a - 1, b);
      assert Pow2(a + b) == 2 * Pow2(a - 1 + b);
    }
  }

  lemma MulAtLeast(m: int, d: int)
    requires m > 0 && d >= 1
    ensures m * d >= m
  {
    assert m * d == m + m * (d - 1);
  }

  /** Division with remainder has exactly one answer. */
  lemma DivModUnique(x: int, m: int, q: int, s: int)
    requires m > 0 && 0 <= s < m && x == m * q + s
    ensures x / m == q && x % m == s
  {
    var q', s' := x / m, x % m;
    assert x == m * q' + s';
    var d := q - q';
    assert m * d == s' - s;
    if d >= 1 {
      MulAtLeast(m, d);
    } else if d <= -1 {
      MulAtLeast(m, -d);
    }
  }

  lemma ModOfSmaller(x: nat, m: nat)
    requires m > 0
    ensures x < m ==> x % m == x
  {
    if x < m {
      DivModUnique(x, m, 0, x);
    }
  }

  lemma MulDistributes(a: int, b: int, c: int)
    ensures a * (b + c) == a * b + a * c
  {
  }

  lemma MulAssociates(a: int, b: int, c: int)
    ensures a * (b * c) == (a * b) * c
  {
  }

  lemma MulMonotone(a: nat, b: int, c: int)
    requires b <= c
    ensures a * b <= a * c
  {
    MulDistributes(a, b, c - b);
  }

  /** The remainder modulo `a * b`, split into the remainder modulo `a` and the next digit. */
  lemma ModMul(x: nat, a: nat, b: nat)
    requires a > 0 && b > 0
    ensures x % (a * b) == x % a + a * ((x / a) % b)
  {
    var q, r := x / a, x % a;
    var q2, r2 := q / b, q % b;
    assert x == a * q + r;
    assert q == b * q2 + r2;
    MulDistributes(a, b * q2, r2);
    MulAssociates(a, b, q2);
    MulMonotone(a, r2, b - 1);
    MulDistributes(a, b, -1);
    DivModUnique(x, a * b, q2, a * r2 + r);
  }

  /** The value with its low `bits` bits set: `~0` in an unsigned type of that many bits. */
  function AllOnes(bits: nat): nat
  {
    if bits == 0 then 0 else 2 * AllOnes(bits - 1) + 1
  }

  lemma {:induction false} AllOnesValue(bits: nat)
    ensures AllOnes(bits) == Pow2(bits) - 1
  {
    if bits > 0 {
      AllOnesValue(bits - 1);
    }
  }

  /** Bitwise AND (C's `&`) of two non-negative integers, least significant bit first. */
  function And(x: nat, y: nat): (r: nat)
    ensures r <= x && r <= y
  {
    if x == 0 || y == 0 then 0
    else 2 * And(x / 2, y / 2) + (if x % 2 == 1 && y % 2 == 1 then 1 else 0)
  }

  /** AND with a mask of `k` low one-bits keeps exactly the low `k` bits. */
  lemma {:induction false} AndAllOnes(x: nat, k: nat)
    ensures And(x, AllOnes(k)) == x % Pow2(k)
  {
    if k == 0 {
      assert Pow2(k) == 1;
    } else if x > 0 {
      var ones, p := AllOnes(k), Pow2(k - 1);
      assert ones / 2 == AllOnes(k - 1) && ones % 2 == 1;
      var low := And(x / 2, AllOnes(k - 1));
      assert And(x, ones) == 2 * low + x % 2;
      AndAllOnes(x / 2, k - 1);
      ModMul(x, 2, p);
      assert Pow2(k) == 2 * p;
      assert x % Pow2(k) == x % (2 * p);
    } else {
      assert And(x, AllOnes(k)) == 0;
    }
  }

  /** The unsigned value of bytes stored least significant first. */
  function FromLE(bs: seq<byte>): (v: nat)
    ensures v < Pow2(8 * |bs|)
  {
    if bs == [] then 0
    else
      var rest := FromLE(bs[1..]);
      var p := Pow2(8 * (|bs| - 1));
      Pow2Add(8, 8 * (|bs| - 1));
      Pow2Of8();
      MulMonotone(256, rest, p - 1);
      MulDistributes(256, p - 1, 1);
      bs[0] as nat + 256 * rest
  }

  /** The `n` bytes, least significant first, of `v` reduced modulo 2^(8n). */
  function ToLE(v: nat, n: nat): (bs: seq<byte>)
    ensures |bs| == n
  {
    if n == 0 then [] else [(v % 256) as byte] + ToLE(v / 256, n - 1)
  }

  /** Encoding and then decoding `n` bytes gives back the value truncated to `8n` bits. */
  lemma {:induction false} FromToLE(v: nat, n: nat)
    ensures FromLE(ToLE(v, n)) == v % Pow2(8 * n)
  {
    if n > 0 {
      var bs, p := ToLE(v, n), Pow2(8 * (n - 1));
      assert bs[1..] == ToLE(v / 256, n - 1);
      var rest := FromLE(bs[1..]);
      assert FromLE(bs) == v % 256 + 256 * rest;
      FromToLE(v / 256, n - 1);
      ModMul(v, 256, p);
      Pow2Add(8, 8 * (n - 1));
      Pow2Of8();
    }
  }

  /** Decoding and then encoding bytes gives back the same bytes. */
  lemma {:induction false} ToFromLE(bs: seq<byte>)
    ensures ToLE(FromLE(bs), |bs|) == bs
  {
    if bs != [] {
      var v, rest := FromLE(bs), FromLE(bs[1..]);
      DivModUnique(v, 256, rest, bs[0] as nat);
      ToFromLE(bs[1..]);
      assert ToLE(v, |bs|) == [bs[0]] + bs[1..];
    }
  }
}
