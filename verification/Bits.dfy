/**
 Bytes, bits and the two ways of packing an integer into bits that the codecs
 use: DEFLATE reads integers least significant bit first and Huffman codes
 most significant bit first (section 3.1.1 of RFC 1951); base64 is most
 significant bit first throughout.
 */
module Bits {

  type byte = x: int | 0 <= x < 256
  type bit = x: int | 0 <= x < 2

  function Pow2(n: nat): (r: nat)
    ensures r >= 1
  {
    if n == 0 then 1 else 2 * Pow2(n - 1)
  }

  function Min(a: int, b: int): (r: int)
  {
    if a < b then a else b
  }

  /** Bit k of a byte string, counting from the low end of each byte. */
  function BitAt(src: seq<byte>, k: nat): bit
    requires k < 8 * |src|
  {
    Lsb(src[k / 8], 8)[k % 8]
  }

  function BitsOf(src: seq<byte>): (bs: seq<bit>)
    ensures |bs| == 8 * |src|
    ensures forall k | 0 <= k < |bs| :: bs[k] == BitAt(src, k)
  {
    seq(8 * |src|, k requires 0 <= k < 8 * |src| => BitAt(src, k))
  }

  /** The n low bits of v, least significant first. */
  function Lsb(v: nat, n: nat): (bs: seq<bit>)
    ensures |bs| == n
  {
    if n == 0 then [] else [v % 2] + Lsb(v / 2, n - 1)
  }

  /** The n low bits of v, most significant first. */
  function Msb(v: nat, n: nat): (bs: seq<bit>)
    ensures |bs| == n
  {
    if n == 0 then [] else Msb(v / 2, n - 1) + [v % 2]
  }

  function LsbVal(bs: seq<bit>): (v: nat)
  {
    if bs == [] then 0 else bs[0] + 2 * LsbVal(bs[1..])
  }

  function MsbVal(bs: seq<bit>): (v: nat)
  {
    if bs == [] then 0 else 2 * MsbVal(bs[..|bs| - 1]) + bs[|bs| - 1]
  }

  /** The bit string w stands at position p of s. */
  ghost predicate At(s: seq<bit>, p: nat, w: seq<bit>)
  {
    p + |w| <= |s| && s[p..p + |w|] == w
  }

  lemma AtSplit(s: seq<bit>, p: nat, u: seq<bit>, w: seq<bit>)
    ensures At(s, p, u + w) <==> At(s, p, u) && At(s, p + |u|, w)
  {
    if At(s, p, u + w) {
      assert s[p..p + |u|] == s[p..p + |u + w|][..|u|];
      assert s[p + |u|..p + |u| + |w|] == s[p..p + |u + w|][|u|..];
    }
    if At(s, p, u) && At(s, p + |u|, w) {
      assert s[p..p + |u + w|] == s[p..p + |u|] + s[p + |u|..p + |u| + |w|];
    }
  }

  lemma {:induction false} PowAdd(m: nat, n: nat)
    ensures Pow2(m + n) == Pow2(m) * Pow2(n)
  {
    if m > 0 {
      PowAdd(m - 1, n);
      assert Pow2(m + n) == 2 * Pow2(m - 1 + n);
    }
  }

  lemma NoValue(s: seq<bit>, p: nat)
    requires p <= |s|
    ensures LsbVal(s[p..p]) == 0 && MsbVal(s[p..p]) == 0
  {
  }

  lemma {:induction false} LsbRoundTrip(v: nat, n: nat)
    requires v < Pow2(n)
    ensures LsbVal(Lsb(v, n)) == v
  {
    if n > 0 {
      LsbRoundTrip(v / 2, n - 1);
      assert Lsb(v, n)[1..] == Lsb(v / 2, n - 1);
    }
  }

  lemma {:induction false} MsbRoundTrip(v: nat, n: nat)
    requires v < Pow2(n)
    ensures MsbVal(Msb(v, n)) == v
  {
    if n > 0 {
      MsbRoundTrip(v / 2, n - 1);
      assert Msb(v, n)[..n - 1] == Msb(v / 2, n - 1);
    }
  }

  lemma {:induction false} LsbValBound(bs: seq<bit>)
    ensures LsbVal(bs) < Pow2(|bs|)
  {
    if bs != [] { LsbValBound(bs[1..]); }
  }

  lemma {:induction false} MsbValBound(bs: seq<bit>)
    ensures MsbVal(bs) < Pow2(|bs|)
  {
    if bs != [] { MsbValBound(bs[..|bs| - 1]); }
  }

  /** Appending a bit at the high end of an LSB-first integer. */
  lemma {:induction false} LsbSnoc(bs: seq<bit>, x: bit)
    ensures LsbVal(bs + [x]) == LsbVal(bs) + x * Pow2(|bs|)
  {
    if bs == [] {
      assert (bs + [x])[1..] == [];
      assert LsbVal([x]) == x;
    } else {
      assert (bs + [x])[1..] == bs[1..] + [x];
      LsbSnoc(bs[1..], x);
    }
  }

  lemma {:induction false} LsbOfVal(bs: seq<bit>)
    ensures Lsb(LsbVal(bs), |bs|) == bs
  {
    if bs != [] {
      LsbOfVal(bs[1..]);
      assert bs == [bs[0]] + bs[1..];
    }
  }

  lemma {:induction false} MsbOfVal(bs: seq<bit>)
    ensures Msb(MsbVal(bs), |bs|) == bs
  {
    if bs != [] {
      MsbOfVal(bs[..|bs| - 1]);
      assert bs == bs[..|bs| - 1] + [bs[|bs| - 1]];
    }
  }

  /** Concatenating two MSB-first fields. */
  lemma {:induction false} MsbConcat(a: nat, b: nat, m: nat, n: nat)
    requires b < Pow2(n)
    ensures Msb(a * Pow2(n) + b, m + n) == Msb(a, m) + Msb(b, n)
  {
    if n == 0 {
      assert Msb(a, m) + Msb(b, 0) == Msb(a, m);
    } else {
      assert a * Pow2(n) == 2 * (a * Pow2(n - 1)) by { MulAssoc(2, a, Pow2(n - 1)); }
      assert (a * Pow2(n) + b) / 2 == a * Pow2(n - 1) + b / 2;
      assert (a * Pow2(n) + b) % 2 == b % 2;
      MsbConcat(a, b / 2, m, n - 1);
    }
  }

  lemma MulAssoc(c: int, a: int, b: int)
    ensures a * (c * b) == c * (a * b)
  {
  }

  lemma {:induction false} MsbValConcat(u: seq<bit>, w: seq<bit>)
    ensures MsbVal(u + w) == MsbVal(u) * Pow2(|w|) + MsbVal(w)
  {
    if w == [] {
      assert u + w == u;
    } else {
      var w' := w[..|w| - 1];
      assert (u + w)[..|u + w| - 1] == u + w';
      MsbValConcat(u, w');
      MulAssoc(2, MsbVal(u), Pow2(|w'|));
    }
  }

  lemma DivUnique(v: int, d: int, q: int, r: int)
    requires 0 <= r < d && v == d * q + r
    ensures v / d == q && v % d == r
  {
    var q', r' := v / d, v % d;
    assert d * (q - q') == r' - r by { assert v == d * q' + r'; }
    ZeroMultiple(d, q - q');
  }

  lemma ZeroMultiple(d: int, k: int)
    requires d > 0 && -d < d * k < d
    ensures k == 0
  {
  }

  /** The sum of a byte string, before any truncation. */
  function ByteSum(s: seq<byte>): (n: nat)
  {
    if s == [] then 0 else ByteSum(s[..|s| - 1]) + s[|s| - 1]
  }

  /** A 32-bit value, high byte first. */
  function Big32(v: nat): (s: seq<byte>)
    requires v < 0x1_0000_0000
    ensures |s| == 4
  {
    [v / 0x100_0000, v / 0x1_0000 % 256, v / 256 % 256, v % 256]
  }

  /** The bytes of a text. */
  function Ascii(s: string): (r: seq<byte>)
    ensures |r| == |s| && forall i | 0 <= i < |r| :: r[i] == s[i] as int % 256
  {
    seq(|s|, i requires 0 <= i < |s| => s[i] as int % 256)
  }
}
