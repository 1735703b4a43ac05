/**
 The two scanning loops of nrs_strings.c: every maximal run of at least five
 printable ASCII bytes, and every maximal run of at least five printable
 characters in UTF-16LE.
 */
module StringScan {
  import opened Bits

  const MIN_RUN: nat := 5

  predicate Printable(b: byte) {
    0x20 <= b <= 0x7E
  }

  datatype Hit = Hit(off: nat, text: seq<byte>)

  // ------------------------------------------------------------ ASCII

  /** d[i..j] is printable and cannot be extended at either end. */
  ghost predicate MaximalRun(d: seq<byte>, i: nat, j: nat)
  {
    && i < j <= |d| && (forall k | i <= k < j :: Printable(d[k]))
    && (i == 0 || !Printable(d[i - 1])) && (j == |d| || !Printable(d[j]))
  }

  ghost predicate AsciiHit(d: seq<byte>, h: Hit)
  {
    |h.text| >= MIN_RUN && MaximalRun(d, h.off, h.off + |h.text|) && h.text == d[h.off..h.off + |h.text|]
  }

  ghost predicate ByOffset(hits: seq<Hit>)
  {
    forall a, b | 0 <= a < b < |hits| :: hits[a].off < hits[b].off
  }

  /** Exactly the maximal runs long enough, each once, by increasing offset. */
  method ScanAscii(d: seq<byte>) returns (hits: seq<Hit>)
    ensures forall h :: h in hits <==> AsciiHit(d, h)
    ensures ByOffset(hits)
  {
    hits := [];
    var i := 0;
    while i < |d|
      invariant i <= |d| && (i == 0 || i == |d| || !Printable(d[i - 1]) || !Printable(d[i]))
      invariant forall h :: h in hits <==> AsciiHit(d, h) && h.off < i
      invariant ByOffset(hits) && forall a | 0 <= a < |hits| :: hits[a].off < i
      decreases |d| - i
    {
      if Printable(d[i]) {
        var j := i;
        while j < |d| && Printable(d[j])
          invariant i <= j <= |d| && forall k | i <= k < j :: Printable(d[k])
        {
          j := j + 1;
        }
        assert MaximalRun(d, i, j);
        if j - i >= MIN_RUN { hits := hits + [Hit(i, d[i..j])]; }
        RunOnce(d, i, j);
        i := j;
      } else {
        i := i + 1;
      }
    }
  }

  /** Maximal runs do not overlap. */
  lemma TwoRuns(d: seq<byte>, i: nat, j: nat, p: nat, q: nat)
    requires MaximalRun(d, i, j) && MaximalRun(d, p, q) && i <= p < j
    ensures p == i && q == j
  {
  }

  lemma RunOnce(d: seq<byte>, i: nat, j: nat)
    requires MaximalRun(d, i, j)
    ensures forall h | AsciiHit(d, h) && i <= h.off < j :: h == Hit(i, d[i..j])
  {
    forall h | AsciiHit(d, h) && i <= h.off < j ensures h == Hit(i, d[i..j]) {
      TwoRuns(d, i, j, h.off, h.off + |h.text|);
    }
  }

  // ------------------------------------------------------------ UTF-16LE

  predicate WideChar(d: seq<byte>, i: nat) {
    i + 1 < |d| && Printable(d[i]) && d[i + 1] == 0
  }

  /** n characters from offset i, one every two bytes, that cannot be extended at either end. */
  ghost predicate MaximalWide(d: seq<byte>, i: nat, n: nat)
  {
    && n >= 1 && (forall k: nat | k < n :: WideChar(d, i + 2 * k)) && !WideChar(d, i + 2 * n) && (i < 2 || !WideChar(d, i - 2))
  }

  ghost predicate WideHit(d: seq<byte>, h: Hit)
  {
    && |h.text| >= MIN_RUN && MaximalWide(d, h.off, |h.text|)
    && forall k: nat | k < |h.text| :: h.text[k] == d[h.off + 2 * k]
  }

  lemma PairIn(d: seq<byte>, i: nat, n: nat, k: nat)
    requires MaximalWide(d, i, n) && k < n
    ensures WideChar(d, i + 2 * k)
  {
  }

  lemma WideEnds(d: seq<byte>, i: nat, n: nat)
    requires MaximalWide(d, i, n)
    ensures n >= 1 && !WideChar(d, i + 2 * n) && (i < 2 || !WideChar(d, i - 2))
  {
  }

  lemma PairsApart(d: seq<byte>, i: nat)
    requires WideChar(d, i)
    ensures !WideChar(d, i + 1)
  {
  }

  /** Maximal runs of pairs do not overlap, not even at odd offsets. */
  lemma TwoWide(d: seq<byte>, i: nat, n: nat, p: nat, m: nat)
    requires MaximalWide(d, i, n) && MaximalWide(d, p, m) && i <= p < i + 2 * n
    ensures p == i && m == n
  {
    hide MaximalWide, WideChar;
    WideEnds(d, i, n);
    WideEnds(d, p, m);
    PairIn(d, p, m, 0);
    var q := (p - i) / 2;
    PairIn(d, i, n, q);
    PairsApart(d, i + 2 * q);
    if p == i + 2 * q {
      if q > 0 {
        PairIn(d, i, n, q - 1);
      } else if m < n {
        PairIn(d, i, n, m);
      } else if n < m {
        PairIn(d, p, m, n);
      }
    }
  }

  lemma WideOnce(d: seq<byte>, i: nat, n: nat, buf: seq<byte>)
    requires MaximalWide(d, i, n) && |buf| == n && forall k: nat | k < n :: buf[k] == d[i + 2 * k]
    ensures forall h | WideHit(d, h) && i <= h.off < i + 2 * n :: h == Hit(i, buf)
  {
    hide MaximalWide;
    forall h | WideHit(d, h) && i <= h.off < i + 2 * n ensures h == Hit(i, buf) {
      TwoWide(d, i, n, h.off, |h.text|);
      assert h.text == buf;
    }
  }

  /** The hits found so far are exactly those that start before i. */
  ghost predicate Found(d: seq<byte>, hits: seq<Hit>, i: nat)
  {
    && (forall h :: h in hits <==> WideHit(d, h) && h.off < i)
    && ByOffset(hits) && (forall a | 0 <= a < |hits| :: hits[a].off < i)
  }

  lemma FoundNone(d: seq<byte>)
    ensures Found(d, [], 0)
  {
  }

  /** A place where no character starts, or one inside an earlier run, starts no hit. */
  lemma FoundSkip(d: seq<byte>, hits: seq<Hit>, i: nat)
    requires Found(d, hits, i) && !WideChar(d, i)
    ensures Found(d, hits, i + 1)
  {
    hide WideChar;
    forall h | WideHit(d, h) ensures h.off != i { StartsWide(d, h); }
  }

  lemma StartsWide(d: seq<byte>, h: Hit)
    requires WideHit(d, h)
    ensures WideChar(d, h.off)
  {
    assert WideChar(d, h.off + 2 * 0);
  }

  /** The run of n characters at i gives one hit if it is long enough, and no other hit starts within it. */
  lemma FoundRun(d: seq<byte>, hits: seq<Hit>, i: nat, n: nat, buf: seq<byte>)
    requires Found(d, hits, i) && MaximalWide(d, i, n) && |buf| == n && forall k: nat | k < n :: buf[k] == d[i + 2 * k]
    ensures Found(d, if n >= MIN_RUN then hits + [Hit(i, buf)] else hits, i + 2 * n)
  {
    hide MaximalWide, WideChar;
    WideOnce(d, i, n, buf);
    var more := if n >= MIN_RUN then hits + [Hit(i, buf)] else hits;
    forall h ensures h in more <==> WideHit(d, h) && h.off < i + 2 * n {
      WideHere(d, i, n, buf);
    }
    WideLength(d, i, n);
  }

  lemma WideLength(d: seq<byte>, i: nat, n: nat)
    requires MaximalWide(d, i, n)
    ensures n >= 1
  {
  }

  lemma WideHere(d: seq<byte>, i: nat, n: nat, buf: seq<byte>)
    requires MaximalWide(d, i, n) && |buf| == n && forall k: nat | k < n :: buf[k] == d[i + 2 * k]
    ensures WideHit(d, Hit(i, buf)) <==> n >= MIN_RUN
  {
    hide MaximalWide;
  }

  /** No hit starts at or behind the last place of the data. */
  lemma FoundAll(d: seq<byte>, hits: seq<Hit>, i: nat)
    requires Found(d, hits, i) && i + 1 >= |d|
    ensures (forall h :: h in hits <==> WideHit(d, h)) && ByOffset(hits)
  {
    hide WideHit;
    forall h | WideHit(d, h) ensures h.off < i {
      StartsWide(d, h);
      if h.off >= i { NoChar(d, h.off); }
    }
  }

  lemma NoChar(d: seq<byte>, i: nat)
    ensures i + 1 >= |d| ==> !WideChar(d, i)
  {
  }

  method ScanWide(d: seq<byte>) returns (hits: seq<Hit>)
    ensures forall h :: h in hits <==> WideHit(d, h)
    ensures ByOffset(hits)
  {
    hide Found, WideHit, MaximalWide, ByOffset;
    hits := [];
    var i := 0;
    FoundNone(d);
    while i + 1 < |d|
      invariant i <= |d| && Outside(d, i) && Found(d, hits, i)
      decreases |d| - i
    {
      if WideChar(d, i) {
        var j, buf := i, [];
        ghost var n := 0;
        while WideChar(d, j)
          invariant j == i + 2 * n <= |d| && |buf| == n
          invariant forall k: nat | k < n :: WideChar(d, i + 2 * k) && buf[k] == d[i + 2 * k]
          decreases |d| - j
        {
          buf := buf + [d[j]];
          j := j + 2;
          n := n + 1;
        }
        RunEnds(d, i, n);
        FoundRun(d, hits, i, n, buf);
        if |buf| >= MIN_RUN { hits := hits + [Hit(i, buf)]; }
        i := j;
      } else {
        FoundSkip(d, hits, i);
        StillOutside(d, i);
        i := i + 1;
      }
    }
    FoundAll(d, hits, i);
  }

  /** A character at i would not continue a run that starts earlier. */
  ghost predicate Outside(d: seq<byte>, i: nat)
  {
    (i >= 1 ==> !WideChar(d, i - 1)) && (i >= 2 && WideChar(d, i - 2) ==> !WideChar(d, i))
  }

  lemma StillOutside(d: seq<byte>, i: nat)
    requires Outside(d, i) && !WideChar(d, i)
    ensures Outside(d, i + 1)
  {
  }

  lemma RunEnds(d: seq<byte>, i: nat, n: nat)
    requires Outside(d, i) && n >= 1 && (forall k: nat | k < n :: WideChar(d, i + 2 * k)) && !WideChar(d, i + 2 * n)
    ensures MaximalWide(d, i, n) && Outside(d, i + 2 * n)
  {
    assert WideChar(d, i + 2 * 0);
    assert WideChar(d, i + 2 * (n - 1));
  }

  // ------------------------------------------------------------ hits in numbers

  /** Five or more bytes from 0x20 to 0x7E with none before or behind. */
  lemma AsciiLiterally(d: seq<byte>, h: Hit)
    ensures AsciiHit(d, h)
            <==> var i, j := h.off, h.off + |h.text|;
                 && |h.text| >= 5 && j <= |d| && h.text == d[i..j]
                 && (forall k | i <= k < j :: 0x20 <= d[k] <= 0x7E)
                 && (i > 0 ==> d[i - 1] < 0x20 || d[i - 1] > 0x7E) && (j < |d| ==> d[j] < 0x20 || d[j] > 0x7E)
  {
  }

  /** A character is a byte from 0x20 to 0x7E followed by a zero byte, and a hit has at least five. */
  lemma WideLiterally(d: seq<byte>, h: Hit, i: nat)
    ensures WideChar(d, i) <==> i + 1 < |d| && 0x20 <= d[i] <= 0x7E && d[i + 1] == 0
    ensures WideHit(d, h) ==> |h.text| >= 5 && h.off + 10 <= |d|
    ensures WideHit(d, h) ==> (h.off < 2 || !WideChar(d, h.off - 2)) && !WideChar(d, h.off + 2 * |h.text|)
  {
    if WideHit(d, h) { assert WideChar(d, h.off + 2 * 4); }
  }
}
