/**
 The literal tables of allnet.c (sections 3.2.5 and 3.2.7 of RFC 1951), each
 shown to be the function the format is specified with.
 */
module DeflateTables {
  import opened Bits
  import opened Deflate
  import opened DeflateStream

  const LBASE: seq<nat> := [3,4,5,6,7,8,9,10,11,13,15,17,19,23,27,31,35,43,51,59,67,83,99,115,131,163,195,227,258]
  const LEXT: seq<nat> := [0,0,0,0,0,0,0,0,1,1,1,1,2,2,2,2,3,3,3,3,4,4,4,4,5,5,5,5,0]
  const DBASE: seq<nat> := [1,2,3,4,5,7,9,13,17,25,33,49,65,97,129,193,257,385,513,769,1025,1537,2049,3073,4097,6145,
                            8193,12289,16385,24577]
  const DEXT: seq<nat> := [0,0,0,0,1,1,2,2,3,3,4,4,5,5,6,6,7,7,8,8,9,9,10,10,11,11,12,12,13,13]
  const ORD: seq<nat> := [16,17,18,0,8,7,9,6,10,5,11,4,12,3,13,2,14,1,15]

  lemma LExtIs(i: nat)
    requires i < 29
    ensures LEXT[i] == LExt(i)
  {
  }

  lemma DExtIs(i: nat)
    requires i < 30
    ensures DEXT[i] == DExt(i)
  {
  }

  lemma OrdIs(i: nat)
    requires i < 19
    ensures ORD[i] == Ord(i)
  {
  }

  lemma PowersOfTwo()
    ensures Pow2(0) == 1 && Pow2(1) == 2 && Pow2(2) == 4 && Pow2(3) == 8 && Pow2(4) == 16 && Pow2(5) == 32
    ensures Pow2(6) == 64 && Pow2(7) == 128 && Pow2(8) == 256 && Pow2(9) == 512 && Pow2(10) == 1024
    ensures Pow2(11) == 2048 && Pow2(12) == 4096 && Pow2(13) == 8192
  {
  }

  lemma LBaseValues()
    ensures LBase(0) == 3 && LBase(1) == 4 && LBase(2) == 5 && LBase(3) == 6 && LBase(4) == 7 && LBase(5) == 8
    ensures LBase(6) == 9 && LBase(7) == 10 && LBase(8) == 11 && LBase(9) == 13 && LBase(10) == 15 && LBase(11) == 17
    ensures LBase(12) == 19 && LBase(13) == 23 && LBase(14) == 27 && LBase(15) == 31 && LBase(16) == 35 && LBase(17) == 43
    ensures LBase(18) == 51 && LBase(19) == 59 && LBase(20) == 67 && LBase(21) == 83 && LBase(22) == 99 && LBase(23) == 115
    ensures LBase(24) == 131 && LBase(25) == 163 && LBase(26) == 195 && LBase(27) == 227 && LBase(28) == 258
  {
  }

  lemma LBaseIs(i: nat)
    requires i < 29
    ensures LBASE[i] == LBase(i)
  {
    hide LBase;
    LBaseValues();
  }

  lemma DBaseValues()
    ensures DBase(0) == 1 && DBase(1) == 2 && DBase(2) == 3 && DBase(3) == 4 && DBase(4) == 5 && DBase(5) == 7
    ensures DBase(6) == 9 && DBase(7) == 13 && DBase(8) == 17 && DBase(9) == 25 && DBase(10) == 33 && DBase(11) == 49
    ensures DBase(12) == 65 && DBase(13) == 97 && DBase(14) == 129 && DBase(15) == 193 && DBase(16) == 257 && DBase(17) == 385
    ensures DBase(18) == 513 && DBase(19) == 769 && DBase(20) == 1025 && DBase(21) == 1537 && DBase(22) == 2049 && DBase(23) == 3073
    ensures DBase(24) == 4097 && DBase(25) == 6145 && DBase(26) == 8193 && DBase(27) == 12289 && DBase(28) == 16385 && DBase(29) == 24577
  {
  }

  lemma DBaseIs(i: nat)
    requires i < 30
    ensures DBASE[i] == DBase(i)
  {
    hide DBase;
    DBaseValues();
  }

  /** Every match length has a length symbol... */
  lemma {:induction false} LenSymbol(len: nat, i: nat) returns (ls: nat, lx: nat)
    requires i < 28 && 3 <= len < LBase(i) + Pow2(LExt(i))
    ensures ls <= i && lx < Pow2(LExt(ls)) && LBase(ls) + lx == len
  {
    if len >= LBase(i) {
      ls, lx := i, len - LBase(i);
    } else {
      ls, lx := LenSymbol(len, i - 1);
    }
  }

  /** ... and every distance a distance symbol. */
  lemma {:induction false} DistSymbol(dist: nat, i: nat) returns (ds: nat, dx: nat)
    requires i < 30 && 1 <= dist < DBase(i) + Pow2(DExt(i))
    ensures ds <= i && dx < Pow2(DExt(ds)) && DBase(ds) + dx == dist
  {
    if dist >= DBase(i) {
      ds, dx := i, dist - DBase(i);
    } else {
      ds, dx := DistSymbol(dist, i - 1);
    }
  }

  /** The tables cover the whole range of section 3.2.5: a token exists for every match of
      3..258 bytes at distance 1..32768, and none goes outside that range. */
  lemma MatchRange(len: nat, dist: nat)
    ensures (exists t: Token :: t.Valid() && t.Match? && t.Len() == len && t.Dist() == dist)
            <==> 3 <= len <= 258 && 1 <= dist <= 32768
  {
    hide LBase, DBase, Pow2, LExt, DExt;
    assert LBASE[27] == 227 && LEXT[27] == 5 && DBASE[29] == 24577 && DEXT[29] == 13;
    LBaseIs(27); LExtIs(27); DBaseIs(29); DExtIs(29);
    PowersOfTwo();
    if 3 <= len <= 258 && 1 <= dist <= 32768 {
      var ls, lx := LenSymbol(len, 27);
      var ds, dx := DistSymbol(dist, 29);
      var t := Match(ls, lx, ds, dx);
      assert t.Valid() && t.Match? && t.Len() == len && t.Dist() == dist;
    }
    forall t: Token | t.Valid() && t.Match? && t.Len() == len && t.Dist() == dist
      ensures 3 <= len <= 258 && 1 <= dist <= 32768
    {
      LenTop(t.ls);
      DistTop(t.ds);
    }
  }

  lemma {:induction false} LenTop(i: nat)
    requires i < 29
    ensures 3 <= LBase(i) && LBase(i) + Pow2(LExt(i)) <= 259
    decreases 29 - i
  {
    if i == 27 {
      LBaseIs(27);
      PowersOfTwo();
    } else if i < 27 {
      LenTop(i + 1);
      assert LBase(i + 1) == LBase(i) + Pow2(LExt(i));
    }
  }

  lemma {:induction false} DistTop(i: nat)
    requires i < 30
    ensures 1 <= DBase(i) && DBase(i) + Pow2(DExt(i)) <= 32769
    decreases 30 - i
  {
    if i == 29 {
      DBaseIs(29);
      PowersOfTwo();
    } else {
      DistTop(i + 1);
      assert DBase(i + 1) == DBase(i) + Pow2(DExt(i));
    }
  }
}
