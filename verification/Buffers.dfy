/** Filling and copying, as several devices and the DEFLATE decoder do it. */
module Buffers {
  import opened Bits

  /** n copies of one value. */
  function Fill<T>(n: nat, v: T): (f: seq<T>)
    ensures |f| == n && forall i | 0 <= i < n :: f[i] == v
  {
    seq(n, _ => v)
  }

  /** Copies src into dst at the given place and leaves the rest of dst alone. */
  method Blit<T>(dst: array<T>, at: nat, src: seq<T>)
    requires at + |src| <= dst.Length
    modifies dst
    ensures dst[..] == old(dst[..at]) + src + old(dst[at + |src|..])
  {
    for k := 0 to |src|
      invariant forall i | at <= i < at + k :: dst[i] == src[i - at]
      invariant forall i | 0 <= i < at || at + k <= i < dst.Length :: dst[i] == old(dst[i])
    {
      dst[at + k] := src[k];
    }
  }

  /** Moves queued bytes, those of src from off up to len, to the front of dst, as many as cap allows. */
  method Drain(src: array<byte>, off: nat, len: nat, dst: array<byte>, cap: nat) returns (o: nat)
    requires off <= len <= src.Length && cap <= dst.Length && src != dst
    modifies dst
    ensures o == Min(len - off, cap) && dst[..o] == src[off..off + o]
  {
    o := 0;
    while off + o < len && o < cap
      invariant o <= cap && off + o <= len
      invariant dst[..o] == src[off..off + o]
    {
      dst[o] := src[off + o];
      o := o + 1;
      assert dst[..o] == dst[..o - 1] + [src[off + o - 1]];
    }
  }

  lemma SliceSplit(s: seq<byte>, a: nat, b: nat, k: nat)
    requires a <= b <= |s| && a + k <= b
    ensures s[a..b][..k] == s[a..a + k] && s[a..b][k..] == s[a + k..b]
  {
  }
}
