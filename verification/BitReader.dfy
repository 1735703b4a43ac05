/** The bit reader of allnet.c: bytes are taken one at a time and shifted out low bit first. */
module BitReader {
  import opened Bits
  import opened Deflate
  import opened DeflateStream

  lemma FieldSnoc(s: seq<bit>, p: nat, i: nat)
    requires p + i < |s|
    ensures LsbVal(s[p..p + i + 1]) == LsbVal(s[p..p + i]) + s[p + i] * Pow2(i)
  {
    assert s[p..p + i + 1] == s[p..p + i] + [s[p + i]];
    LsbSnoc(s[p..p + i], s[p + i]);
  }

  lemma WholeByte(b: byte)
    ensures Lsb(b, 8)[0..] == Lsb(b, 8)
  {
  }

  /** The bit shifted out is the next bit of the byte being consumed. */
  lemma ShiftOut(buf: nat, cnt: nat, b: byte)
    requires 1 <= cnt <= 8 && Lsb(buf, cnt) == Lsb(b, 8)[8 - cnt..]
    ensures buf % 2 == Lsb(b, 8)[8 - cnt] && Lsb(buf / 2, cnt - 1) == Lsb(b, 8)[8 - (cnt - 1)..]
  {
    var w := Lsb(b, 8);
    assert Lsb(buf, cnt)[0] == buf % 2 && Lsb(buf, cnt)[1..] == Lsb(buf / 2, cnt - 1);
    assert w[8 - cnt..][0] == w[8 - cnt] && w[8 - cnt..][1..] == w[8 - (cnt - 1)..];
  }

  lemma InByte(pos: nat, cnt: nat)
    requires pos >= 1 && 1 <= cnt <= 8
    ensures (8 * pos - cnt) / 8 == pos - 1 && (8 * pos - cnt) % 8 == 8 - cnt
  {
  }

  class BitS {
    const src: seq<byte>
    var pos: nat
    var bitbuf: nat
    var bitcnt: nat

    /** bitbuf holds the bitcnt high bits of the byte last taken. */
    ghost predicate Valid()
      reads this
    {
      && pos <= |src| && bitcnt < 8
      && (bitcnt > 0 ==> pos > 0 && Lsb(bitbuf, bitcnt) == Lsb(src[pos - 1], 8)[8 - bitcnt..])
    }

    /** How many bits of src have been consumed. */
    ghost function At(): (p: nat)
      requires Valid()
      reads this
      ensures p <= 8 * |src|
    {
      8 * pos - bitcnt
    }

    constructor (src: seq<byte>)
      ensures Valid() && At() == 0 && this.src == src
    {
      this.src := src;
      pos, bitbuf, bitcnt := 0, 0, 0;
    }

    /** The next bit of the stream, or -1 at its end. */
    method Gb1() returns (r: int)
      requires Valid()
      modifies this
      ensures Valid()
      ensures if old(At()) < 8 * |src| then r == BitAt(src, old(At())) && At() == old(At()) + 1
              else r == -1 && At() == old(At())
    {
      hide Lsb;
      if bitcnt == 0 {
        if pos >= |src| { return -1; }
        bitbuf := src[pos];
        pos := pos + 1;
        bitcnt := 8;
      }
      WholeByte(src[pos - 1]);
      ShiftOut(bitbuf, bitcnt, src[pos - 1]);
      InByte(pos, bitcnt);
      r := bitbuf % 2;
      bitbuf := bitbuf / 2;
      bitcnt := bitcnt - 1;
    }

    /** The next n bits as an integer, or -1 (with the stream used up) if fewer are left. */
    method Gbn(n: nat) returns (v: int)
      requires Valid()
      modifies this
      ensures Valid()
      ensures if old(At()) + n <= 8 * |src| then v == BitField(BitsOf(src), old(At()), n) && At() == old(At()) + n
              else v == -1 && At() == 8 * |src|
    {
      hide Lsb, LsbVal;
      ghost var s, p := BitsOf(src), At();
      v := 0;
      NoValue(s, p);
      for i := 0 to n
        invariant Valid() && At() == p + i <= 8 * |src|
        invariant v == LsbVal(s[p..p + i])
      {
        var x := Gb1();
        if x < 0 { return -1; }
        FieldSnoc(s, p, i);
        v := v + x * Pow2(i);
      }
    }
  }
}
