/**
 b64_encode, b64_val and b64_decode of allnet.c against section 4 of RFC 4648.
 The decoder keeps no more than six bits between characters, in an accumulator
 that wraps at 32 bits.
 */
module Base64 {
  import opened Bits

  const PAD: byte := 61

  // ------------------------------------------------------------ the alphabet

  function Digit(i: nat): (c: byte)
    requires i < 64
  {
    if i < 26 then 65 + i else if i < 52 then 71 + i else if i < 62 then i - 4 else if i == 62 then 43 else 47
  }

  /** b64_val: the value of an alphabet character, -1 for any other. */
  function B64Val(c: byte): (v: int)
    ensures -1 <= v < 64
  {
    if 65 <= c <= 90 then c - 65
    else if 97 <= c <= 122 then c - 97 + 26
    else if 48 <= c <= 57 then c - 48 + 52
    else if c == 43 then 62
    else if c == 47 then 63
    else -1
  }

  lemma DigitVal(i: nat)
    requires i < 64
    ensures B64Val(Digit(i)) == i
  {
  }

  /** The characters of the alphabet, in order; all others are dropped. */
  function Keep(s: seq<byte>): (k: seq<byte>)
  {
    if s == [] then []
    else Keep(s[..|s| - 1]) + if B64Val(s[|s| - 1]) >= 0 then [s[|s| - 1]] else []
  }

  // ------------------------------------------------------------ meaning of a base64 text

  /** The bit string spelled by the alphabet characters, six bits each. */
  function TextBits(s: seq<byte>): (w: seq<bit>)
  {
    if s == [] then [] else TextBits(s[..|s| - 1]) + CharBits(s[|s| - 1])
  }

  function CharBits(c: byte): (w: seq<bit>)
  {
    if B64Val(c) >= 0 then Msb(B64Val(c), 6) else []
  }

  /** Whole octets of a bit string; fewer than eight bits left over are dropped. */
  function Octets(w: seq<bit>): (o: seq<byte>)
    ensures |o| == |w| / 8
  {
    if |w| < 8 then [] else [ByteOf(w[..8])] + Octets(w[8..])
  }

  function ByteOf(w: seq<bit>): byte
    requires |w| == 8
  {
    MsbValBound(w);
    assert Pow2(8) == 256;
    MsbVal(w)
  }

  function Decoded(s: seq<byte>): seq<byte> {
    Octets(TextBits(s))
  }

  lemma {:induction false} TextBitsConcat(a: seq<byte>, b: seq<byte>)
    ensures TextBits(a + b) == TextBits(a) + TextBits(b)
  {
    hide CharBits;
    if b == [] {
      assert a + b == a;
    } else {
      assert (a + b)[..|a + b| - 1] == a + b[..|b| - 1];
      TextBitsConcat(a, b[..|b| - 1]);
    }
  }

  lemma {:induction false} KeepBits(s: seq<byte>)
    ensures TextBits(Keep(s)) == TextBits(s)
  {
    if s != [] {
      hide Msb;
      var k := Keep(s[..|s| - 1]);
      KeepBits(s[..|s| - 1]);
      if B64Val(s[|s| - 1]) >= 0 {
        assert Keep(s)[..|Keep(s)| - 1] == k;
      } else {
        assert Keep(s) == k;
        assert CharBits(s[|s| - 1]) == [];
      }
    }
  }

  /** The octets after whole ones are those of the rest. */
  lemma {:induction false} OctetsAfter(u: seq<bit>, w: seq<bit>, k: nat)
    requires |u| == 8 * k
    ensures Octets(u + w) == Octets(u) + Octets(w)
  {
    hide ByteOf;
    if k == 0 {
      assert u + w == w;
    } else {
      assert (u + w)[..8] == u[..8] && (u + w)[8..] == u[8..] + w;
      OctetsAfter(u[8..], w, k - 1);
    }
  }

  lemma OctetsConcat(u: seq<bit>, w: seq<bit>)
    requires |u| % 8 == 0
    ensures Octets(u + w) == Octets(u) + Octets(w)
  {
    hide Octets;
    OctetsAfter(u, w, |u| / 8);
  }

  // ------------------------------------------------------------ encoding

  function Quad(b0: byte, b1: byte, b2: byte, have: nat): (q: seq<byte>)
    ensures |q| == 4
  {
    var v := Word24(b0, b1, b2);
    [Digit(v / 262144 % 64), Digit(v / 4096 % 64),
     if have > 1 then Digit(v / 64 % 64) else PAD, if have > 2 then Digit(v % 64) else PAD]
  }

  function Word24(b0: nat, b1: nat, b2: nat): nat {
    (b0 * 256 + b1) * 256 + b2
  }

  /** How many groups n octets make, the last one possibly incomplete. */
  function GroupCount(n: nat): nat {
    (n + 2) / 3
  }

  lemma NextGroup(n: nat)
    ensures GroupCount(0) == 0 && GroupCount(1) == 1 && GroupCount(2) == 1
    ensures n >= 3 ==> GroupCount(n) == 1 + GroupCount(n - 3)
  {
  }

  function Encoded(d: seq<byte>): (s: seq<byte>)
    ensures |s| == 4 * GroupCount(|d|)
  {
    NextGroup(|d|);
    if d == [] then []
    else if |d| == 1 then Quad(d[0], 0, 0, 1)
    else if |d| == 2 then Quad(d[0], d[1], 0, 2)
    else Quad(d[0], d[1], d[2], 3) + Encoded(d[3..])
  }

  lemma ByteMsb(b: byte)
    ensures Octets(Msb(b, 8)) == [b]
  {
    assert Pow2(8) == 256;
    MsbRoundTrip(b, 8);
    assert Msb(b, 8)[..8] == Msb(b, 8);
  }

  lemma Sextets(v: nat)
    requires v < 0x1000000
    ensures v == ((v / 262144 % 64 * 64 + v / 4096 % 64) * 64 + v / 64 % 64) * 64 + v % 64
  {
  }

  /** Four six-bit digits spell the same 24 bits as three octets. */
  lemma QuadBits(b0: byte, b1: byte, b2: byte)
    ensures var v := Word24(b0, b1, b2);
            Msb(v / 262144 % 64, 6) + Msb(v / 4096 % 64, 6) + Msb(v / 64 % 64, 6) + Msb(v % 64, 6)
            == Msb(b0, 8) + Msb(b1, 8) + Msb(b2, 8)
  {
    hide Msb, Word24;
    var v := Word24(b0, b1, b2);
    WordBound(b0, b1, b2);
    Sextets(v);
    FourSixes(v / 262144 % 64, v / 4096 % 64, v / 64 % 64, v % 64);
    ThreeEights(b0, b1, b2);
  }

  lemma WordBound(b0: byte, b1: byte, b2: byte)
    ensures Word24(b0, b1, b2) < 0x1000000
  {
  }

  lemma Append6(a: nat, b: nat, m: nat)
    requires b < 64
    ensures Msb(a * 64 + b, m + 6) == Msb(a, m) + Msb(b, 6)
  {
    assert Pow2(6) == 64;
    MsbConcat(a, b, m, 6);
  }

  lemma Append8(a: nat, b: nat, m: nat)
    requires b < 256
    ensures Msb(a * 256 + b, m + 8) == Msb(a, m) + Msb(b, 8)
  {
    assert Pow2(8) == 256;
    MsbConcat(a, b, m, 8);
  }

  lemma FourSixes(a: nat, b: nat, c: nat, d: nat)
    requires a < 64 && b < 64 && c < 64 && d < 64
    ensures Msb(((a * 64 + b) * 64 + c) * 64 + d, 24) == Msb(a, 6) + Msb(b, 6) + Msb(c, 6) + Msb(d, 6)
  {
    hide Msb;
    ThreeSixes(a, b, c);
    Append6((a * 64 + b) * 64 + c, d, 18);
  }

  lemma ThreeSixes(a: nat, b: nat, c: nat)
    requires a < 64 && b < 64 && c < 64
    ensures Msb((a * 64 + b) * 64 + c, 18) == Msb(a, 6) + Msb(b, 6) + Msb(c, 6)
  {
    hide Msb;
    Append6(a, b, 6);
    Append6(a * 64 + b, c, 12);
  }

  lemma ThreeEights(b0: nat, b1: nat, b2: nat)
    requires b1 < 256 && b2 < 256
    ensures Msb(Word24(b0, b1, b2), 24) == Msb(b0, 8) + Msb(b1, 8) + Msb(b2, 8)
  {
    hide Msb;
    Append8(b0 * 256 + b1, b2, 16);
    Append8(b0, b1, 8);
  }

  lemma DigitBits(i: nat)
    requires i < 64
    ensures CharBits(Digit(i)) == Msb(i, 6)
  {
    hide Msb;
    DigitVal(i);
  }

  lemma FourText(q: seq<byte>)
    requires |q| == 4
    ensures TextBits(q) == CharBits(q[0]) + CharBits(q[1]) + CharBits(q[2]) + CharBits(q[3])
  {
    hide CharBits;
    assert q[..3][..2] == q[..2] && q[..2][..1] == q[..1] && q[..1][..0] == [];
    assert TextBits(q[..1]) == CharBits(q[0]);
    assert TextBits(q[..2]) == TextBits(q[..1]) + CharBits(q[1]);
    assert TextBits(q[..3]) == TextBits(q[..2]) + CharBits(q[2]);
  }

  /** A group of one, two or three octets is spelled by its first 12, 18 or 24 bits. */
  lemma QuadText(b0: byte, b1: byte, b2: byte, have: nat)
    requires 1 <= have <= 3
    ensures var v := Word24(b0, b1, b2);
            TextBits(Quad(b0, b1, b2, have))
            == Msb(v / 262144 % 64, 6) + Msb(v / 4096 % 64, 6) + (if have > 1 then Msb(v / 64 % 64, 6) else [])
               + (if have > 2 then Msb(v % 64, 6) else [])
  {
    hide Msb, Digit, Word24, TextBits, CharBits;
    var v := Word24(b0, b1, b2);
    FourText(Quad(b0, b1, b2, have));
    DigitBits(v / 262144 % 64);
    DigitBits(v / 4096 % 64);
    DigitBits(v / 64 % 64);
    DigitBits(v % 64);
    PadBits();
  }

  lemma PadBits()
    ensures CharBits(PAD) == []
  {
  }

  // ------------------------------------------------------------ round trip

  lemma OctetsPrefix(u: seq<bit>, w: seq<bit>)
    requires |u| % 8 == 0 && |w| < 8
    ensures Octets(u + w) == Octets(u)
  {
    OctetsConcat(u, w);
  }

  lemma QuadDecode(b0: byte, b1: byte, b2: byte, have: nat)
    requires 1 <= have <= 3
    ensures var t := TextBits(Quad(b0, b1, b2, have));
            Octets(t) == [b0, b1, b2][..have] && (have == 3 ==> |t| == 24)
  {
    hide Msb, Word24, Quad, TextBits;
    var v := Word24(b0, b1, b2);
    QuadText(b0, b1, b2, have);
    QuadBits(b0, b1, b2);
    var w := Msb(b0, 8) + Msb(b1, 8) + Msb(b2, 8);
    var t := TextBits(Quad(b0, b1, b2, have));
    assert t == w[..if have == 1 then 12 else if have == 2 then 18 else 24];
    ByteMsb(b0); ByteMsb(b1); ByteMsb(b2);
    OctetsConcat(Msb(b0, 8) + Msb(b1, 8), Msb(b2, 8));
    OctetsConcat(Msb(b0, 8), Msb(b1, 8));
    if have == 1 {
      assert t == Msb(b0, 8) + w[8..12];
      OctetsPrefix(Msb(b0, 8), w[8..12]);
    } else if have == 2 {
      assert t == (Msb(b0, 8) + Msb(b1, 8)) + w[16..18];
      OctetsPrefix(Msb(b0, 8) + Msb(b1, 8), w[16..18]);
    } else {
      assert t == w;
    }
  }

  lemma {:induction false} DecodeEncode(d: seq<byte>)
    ensures Decoded(Encoded(d)) == d
  {
    hide Quad, Octets, TextBits;
    if d == [] {
      NoText();
    } else if |d| <= 2 {
      QuadDecode(d[0], if |d| > 1 then d[1] else 0, 0, |d|);
    } else {
      var q := Quad(d[0], d[1], d[2], 3);
      DecodeEncode(d[3..]);
      TextBitsConcat(q, Encoded(d[3..]));
      QuadDecode(d[0], d[1], d[2], 3);
      OctetsConcat(TextBits(q), TextBits(Encoded(d[3..])));
      assert d == [d[0], d[1], d[2]] + d[3..];
    }
  }

  lemma NoText()
    ensures Decoded([]) == []
  {
  }

  /** Any text with the alphabet characters of an encoding, in order, decodes to the original:
      characters outside the alphabet, padding and line breaks included, do not matter. */
  lemma DecodeAnyLayout(d: seq<byte>, s: seq<byte>)
    requires Keep(s) == Keep(Encoded(d))
    ensures Decoded(s) == d
  {
    hide Octets, TextBits, Keep;
    KeepBits(s);
    KeepBits(Encoded(d));
    DecodeEncode(d);
  }

  /** Inserting a character outside the alphabet anywhere changes nothing. */
  lemma InsertIgnored(a: seq<byte>, c: byte, b: seq<byte>)
    requires B64Val(c) < 0
    ensures Decoded(a + [c] + b) == Decoded(a + b)
  {
    hide Octets;
    TextBitsConcat(a + [c], b);
    TextBitsConcat(a, b);
    assert (a + [c])[..|a|] == a;
    assert CharBits(c) == [];
    assert TextBits(a + [c]) == TextBits(a);
  }

  // ------------------------------------------------------------ the methods

  /** What the groups from position i on still contribute. */
  function Rest(d: seq<byte>, i: nat): seq<byte> {
    if i <= |d| then Encoded(d[i..]) else []
  }

  lemma RestStep(d: seq<byte>, i: nat)
    requires i < |d|
    ensures var r := |d| - i;
            Rest(d, i) == Quad(d[i], if r > 1 then d[i + 1] else 0, if r > 2 then d[i + 2] else 0, r) + Rest(d, i + 3)
  {
    hide Word24, Digit;
    assert |d| - i >= 3 ==> d[i..][3..] == d[i + 3..];
  }

  method PutQuad(out: array<byte>, o0: nat, q: seq<byte>) returns (o: nat)
    requires |q| == 4 && o0 + 4 <= out.Length
    modifies out
    ensures o == o0 + 4 && out[..o] == old(out[..o0]) + q
  {
    out[o0], out[o0 + 1], out[o0 + 2], out[o0 + 3] := q[0], q[1], q[2], q[3];
    o := o0 + 4;
  }

  /** b64_encode: whole groups of four while there is room, then a terminating zero. */
  method B64Encode(input: seq<byte>, out: array<byte>, cap: nat) returns (o: nat)
    requires 1 <= cap <= out.Length
    modifies out
    ensures o == Min(4 * GroupCount(|input|), 4 * ((cap - 1) / 4))
    ensures out[..o] == Encoded(input)[..o] && o < cap && out[o] == 0
  {
    o := PutGroups(input, out, cap);
    out[o] := 0;
  }

  /** The loop over the groups of three octets. */
  method PutGroups(input: seq<byte>, out: array<byte>, cap: nat) returns (o: nat)
    requires 1 <= cap <= out.Length
    modifies out
    ensures o == Min(4 * GroupCount(|input|), 4 * ((cap - 1) / 4)) && o < cap && out[..o] <= Encoded(input)
  {
    hide Quad, Rest, Encoded;
    ghost var e, groups := Encoded(input), 0;
    o := 0;
    var i := 0;
    RestEnds(input);
    while i < |input|
      invariant i == 3 * groups && o == 4 * groups && o < cap && i <= |input| + 2
      invariant e == out[..o] + Rest(input, i)
      decreases |input| - i
    {
      var r := |input| - i;
      var b0 := input[i];
      var b1 := if r > 1 then input[i + 1] else 0;
      var b2 := if r > 2 then input[i + 2] else 0;
      if o + 4 >= cap { break; }
      RestStep(input, i);
      ghost var head := out[..o];
      o := PutQuad(out, o, Quad(b0, b1, b2, r));
      i := i + 3;
      groups := groups + 1;
      Regroup(head, Quad(b0, b1, b2, r), Rest(input, i));
    }
    Groups(|input|, groups, cap);
  }

  lemma Regroup(a: seq<byte>, b: seq<byte>, c: seq<byte>)
    ensures a + (b + c) == a + b + c
  {
  }

  lemma Groups(n: nat, groups: nat, cap: nat)
    requires 4 * groups < cap && 3 * groups <= n + 2 && (3 * groups >= n || 4 * groups + 4 >= cap)
    ensures 4 * groups == Min(4 * GroupCount(n), 4 * ((cap - 1) / 4))
  {
    GroupsBound(n, groups);
    if 3 * groups < n { DivUnique(cap - 1, 4, groups, cap - 1 - 4 * groups); } else { FourFit(cap - 1, groups); }
  }

  lemma GroupsBound(n: nat, groups: nat)
    requires 3 * groups <= n + 2
    ensures groups <= GroupCount(n) && (3 * groups >= n ==> groups == GroupCount(n))
  {
  }

  lemma FourFit(m: nat, k: nat)
    requires 4 * k <= m
    ensures k <= m / 4
  {
  }

  lemma RestEnds(d: seq<byte>)
    ensures Rest(d, 0) == Encoded(d) && forall i: nat | i >= |d| :: Rest(d, i) == []
  {
    assert d[0..] == d && d[|d|..] == [];
  }

  // ------------------------------------------------------------ decoding

  function PowSmall(bits: nat): (p: nat)
    requires bits <= 6 && bits % 2 == 0
    ensures p == Pow2(bits) && p >= 1
  {
    assert Pow2(0) == 1 && Pow2(2) == 4 && Pow2(4) == 16 && Pow2(6) == 64;
    if bits == 0 then 1 else if bits == 2 then 4 else if bits == 4 then 16 else 64
  }

  /** The accumulator holds, in its low bits, the bits not yet output. */
  ghost predicate Pending(acc: nat, bits: nat, w: seq<bit>)
  {
    bits == |w| && bits <= 6 && bits % 2 == 0 && acc % PowSmall(bits) == MsbVal(w)
  }

  /** One more character: the accumulator wraps at 32 bits, but the pending bits are kept. */
  lemma Shift6(acc: nat, bits: nat, v: nat)
    requires bits <= 6 && bits % 2 == 0 && v < 64
    ensures (acc * 64 + v) % 0x1_0000_0000 % (PowSmall(bits) * 64) == acc % PowSmall(bits) * 64 + v
  {
    hide Pow2;
    var q := (acc * 64 + v) / 0x1_0000_0000;
    var r := (acc * 64 + v) % 0x1_0000_0000;
    if bits == 0 {
      DivUnique(r, 64, acc - 0x400_0000 * q, v);
    } else if bits == 2 {
      DivUnique(r, 256, acc / 4 - 0x100_0000 * q, acc % 4 * 64 + v);
    } else if bits == 4 {
      DivUnique(r, 1024, acc / 16 - 0x40_0000 * q, acc % 16 * 64 + v);
    } else {
      DivUnique(r, 4096, acc / 64 - 0x10_0000 * q, acc % 64 * 64 + v);
    }
  }

  /** Taking the top eight of 8, 10 or 12 pending bits. */
  lemma TakeByte(acc: nat, bits: nat, hi: nat, lo: nat)
    requires bits <= 4 && bits % 2 == 0 && hi < 256 && lo < PowSmall(bits)
    requires acc % (PowSmall(bits) * 256) == hi * PowSmall(bits) + lo
    ensures acc / PowSmall(bits) % 256 == hi && acc % PowSmall(bits) == lo
  {
    hide Pow2;
    if bits == 0 {
    } else if bits == 2 {
      var k := acc / 1024;
      DivUnique(acc, 4, 256 * k + hi, lo);
      DivUnique(256 * k + hi, 256, k, hi);
    } else {
      var k := acc / 4096;
      DivUnique(acc, 16, 256 * k + hi, lo);
      DivUnique(256 * k + hi, 256, k, hi);
    }
  }

  /** The shift keeps the pending bits and appends six more. */
  lemma PendingShift(acc: nat, bits: nat, w: seq<bit>, v: nat)
    requires Pending(acc, bits, w) && v < 64
    ensures (acc * 64 + v) % 0x1_0000_0000 % (PowSmall(bits) * 64) == MsbVal(w + Msb(v, 6))
  {
    hide PowSmall, MsbVal, Msb;
    Shift6(acc, bits, v);
    assert Pow2(6) == 64;
    MsbRoundTrip(v, 6);
    MsbValConcat(w, Msb(v, 6));
  }

  lemma PendingTake(acc: nat, bits: nat, w: seq<bit>)
    requires bits <= 4 && bits % 2 == 0 && |w| == bits + 8 && acc % (PowSmall(bits) * 256) == MsbVal(w)
    ensures acc / PowSmall(bits) % 256 == ByteOf(w[..8]) && Pending(acc, bits, w[8..])
  {
    hide PowSmall, MsbVal;
    assert w == w[..8] + w[8..];
    MsbValConcat(w[..8], w[8..]);
    MsbValBound(w[8..]);
    TakeByte(acc, bits, ByteOf(w[..8]), MsbVal(w[8..]));
  }

  lemma PowSteps(bits: nat)
    requires bits <= 6 && bits % 2 == 0
    ensures bits == 0 ==> PowSmall(bits) * 64 == PowSmall(6)
    ensures bits >= 2 ==> PowSmall(bits) * 64 == PowSmall(bits - 2) * 256
  {
  }

  lemma OctetsStep(w: seq<bit>, u: seq<bit>)
    requires |w| % 8 == 0 && |u| == 8
    ensures Octets(w + u) == Octets(w) + [ByteOf(u)]
  {
    OctetsConcat(w, u);
    assert u[..8] == u && u[8..] == [];
  }

  lemma TextStep(s: seq<byte>, i: nat)
    requires i < |s|
    ensures TextBits(s[..i + 1]) == TextBits(s[..i]) + CharBits(s[i])
  {
    assert s[..i + 1][..i] == s[..i];
  }

  /** b64_decode: the octets the text spells, as many as fit. */
  method B64Decode(input: seq<byte>, out: array<byte>, cap: nat) returns (o: nat)
    requires cap <= out.Length
    modifies out
    ensures o == Min(|Decoded(input)|, cap) && out[..o] == Decoded(input)[..o]
  {
    hide TextBits, CharBits, Octets, Pending, PowSmall, Msb, MsbVal, ByteOf, B64Val;
    o := 0;
    var bits, acc: nat := 0, 0;
    ghost var done: seq<bit>, left: seq<bit> := [], [];
    Start(input);
    for i := 0 to |input|
      invariant TextBits(input[..i]) == done + left && |done| % 8 == 0 && Pending(acc, bits, left)
      invariant bits == |left| <= 6 && bits % 2 == 0
      invariant o == Min(|Octets(done)|, cap) && out[..o] == Octets(done)[..o]
    {
      TextStep(input, i);
      var v := B64Val(input[i]);
      if v < 0 {
        Skip(input[i]);
        continue;
      }
      Digits(input[i]);
      PendingShift(acc, bits, left, v);
      PowSteps(bits);
      left := left + Msb(v, 6);
      acc := (acc * 64 + v) % 0x1_0000_0000;
      bits := bits + 6;
      if bits >= 8 {
        bits := bits - 8;
        PendingTake(acc, bits, left);
        OctetsStep(done, left[..8]);
        var c := acc / PowSmall(bits) % 256;
        if o < cap {
          out[o] := c;
          o := o + 1;
          assert out[..o] == out[..o - 1] + [c];
        }
        assert done + left == (done + left[..8]) + left[8..];
        done, left := done + left[..8], left[8..];
      } else {
        SixPending(acc, left);
      }
    }
    OctetsPrefix(done, left);
    assert input[..|input|] == input;
  }

  lemma SixPending(acc: nat, w: seq<bit>)
    requires |w| == 6 && acc % PowSmall(6) == MsbVal(w)
    ensures Pending(acc, 6, w)
  {
  }

  lemma Start(s: seq<byte>)
    ensures TextBits(s[..0]) == [] && Pending(0, 0, []) && Octets([]) == []
  {
  }

  lemma Skip(c: byte)
    requires B64Val(c) < 0
    ensures CharBits(c) == []
  {
  }

  lemma Digits(c: byte)
    requires B64Val(c) >= 0
    ensures CharBits(c) == Msb(B64Val(c), 6)
  {
  }

  // ------------------------------------------------------------ the alphabet and known texts

  /** The alphabet of table 1 of RFC 4648, and '=' for padding. */
  lemma AlphabetIs()
    ensures forall i | 0 <= i < 26 :: Digit(i) == 'A' as int + i
    ensures forall i | 26 <= i < 52 :: Digit(i) == 'a' as int + (i - 26)
    ensures forall i | 52 <= i < 62 :: Digit(i) == '0' as int + (i - 52)
    ensures Digit(62) == '+' as int && Digit(63) == '/' as int && PAD == '=' as int
  {
  }

  /** Texts of section 10 of RFC 4648. */
  lemma KnownTexts()
    ensures Encoded(Ascii("f")) == Ascii("Zg==")
    ensures Encoded(Ascii("fo")) == Ascii("Zm8=")
    ensures Encoded(Ascii("foobar")) == Ascii("Zm9vYmFy")
  {
    hide Encoded, Quad;
    KnownBytes();
    assert Ascii("f") == [102] && Ascii("fo") == [102, 111] && Ascii("foobar") == [102, 111, 111, 98, 97, 114];
    assert Ascii("Zg==") == [90, 103, 61, 61] && Ascii("Zm8=") == [90, 109, 56, 61];
    assert Ascii("Zm9vYmFy") == [90, 109, 57, 118, 89, 109, 70, 121];
  }

  lemma KnownBytes()
    ensures Encoded([102]) == [90, 103, 61, 61] && Encoded([102, 111]) == [90, 109, 56, 61]
    ensures Encoded([102, 111, 111, 98, 97, 114]) == [90, 109, 57, 118, 89, 109, 70, 121]
  {
    hide Quad;
    KnownQuads();
    var none: seq<byte> := [];
    assert [102, 111, 111, 98, 97, 114][3..] == [98 as byte, 97, 114] && [98 as byte, 97, 114][3..] == none;
    assert Encoded([98, 97, 114]) == [89, 109, 70, 121] + none;
  }

  lemma KnownQuads()
    ensures Quad(102, 0, 0, 1) == [90, 103, 61, 61] && Quad(102, 111, 0, 2) == [90, 109, 56, 61]
    ensures Quad(102, 111, 111, 3) == [90, 109, 57, 118] && Quad(98, 97, 114, 3) == [89, 109, 70, 121]
  {
    hide Digit;
    KnownDigits();
    assert Quad(102, 0, 0, 1) == [90, 103, 61, 61];
    assert Quad(102, 111, 0, 2) == [90, 109, 56, 61];
    assert Quad(102, 111, 111, 3) == [90, 109, 57, 118];
    assert Quad(98, 97, 114, 3) == [89, 109, 70, 121];
  }

  lemma KnownDigits()
    ensures Digit(25) == 90 && Digit(32) == 103 && Digit(38) == 109 && Digit(60) == 56 && Digit(61) == 57
    ensures Digit(47) == 118 && Digit(24) == 89 && Digit(5) == 70 && Digit(50) == 121
  {
  }
}
