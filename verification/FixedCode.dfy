/**
 The code words of the fixed block type, section 3.2.6 of RFC 1951, and of the
 worked example of section 3.2.2, in numbers.
 */
module FixedCode {
  import opened Bits
  import opened Buffers
  import opened Huffman
  import opened DeflateStream

  lemma {:induction false} CountFill(n: nat, v: nat, l: nat)
    ensures Count(Fill<nat>(n, v), l) == if v == l then n else 0
  {
    if n > 0 {
      assert Fill<nat>(n, v)[..n - 1] == Fill<nat>(n - 1, v);
      CountFill(n - 1, v, l);
    }
  }

  /** Runs of equal lengths, as the fixed code is described. */
  function Runs(a: nat, b: nat, c: nat, d: nat): (lens: seq<nat>)
    ensures |lens| == a + b + c + d
  {
    Fill<nat>(a, 8) + Fill<nat>(b, 9) + Fill<nat>(c, 7) + Fill<nat>(d, 8)
  }

  lemma CountRuns(a: nat, b: nat, c: nat, d: nat, l: nat)
    ensures Count(Runs(a, b, c, d), l)
            == (if l == 8 then a + d else if l == 9 then b else if l == 7 then c else 0)
  {
    hide Count, Fill;
    var x, y, z, w := Fill<nat>(a, 8), Fill<nat>(b, 9), Fill<nat>(c, 7), Fill<nat>(d, 8);
    CountConcat(x + y + z, w, l);
    CountConcat(x + y, z, l);
    CountConcat(x, y, l);
    CountFill(a, 8, l);
    CountFill(b, 9, l);
    CountFill(c, 7, l);
    CountFill(d, 8, l);
  }

  /** The fixed lengths up to symbol s. */
  lemma RunsPrefix(s: nat)
    requires s <= 288
    ensures FixedLL()[..s] == Runs(Min(s, 144), if s <= 144 then 0 else Min(s - 144, 112),
                                   if s <= 256 then 0 else Min(s - 256, 24), if s <= 280 then 0 else s - 280)
  {
    hide Min;
    MinIs(s, 144);
    if s > 144 { MinIs(s - 144, 112); }
    if s > 256 { MinIs(s - 256, 24); }
  }

  lemma MinIs(a: int, b: int)
    ensures Min(a, b) == if a < b then a else b
  {
  }

  /** Where the code words of each length start. */
  lemma FixedFirst()
    ensures First(FixedLL(), 7) == 0 && First(FixedLL(), 8) == 48 && First(FixedLL(), 9) == 400
  {
    hide Count, FixedLL, First;
    var lens := FixedLL();
    RunsPrefix(288);
    assert lens[..288] == lens;
    FirstOne(lens);
    FixedCount(lens, 1);
    FixedCount(lens, 2);
    FixedCount(lens, 3);
    FixedCount(lens, 4);
    FixedCount(lens, 5);
    FixedCount(lens, 6);
    FixedCount(lens, 7);
    FixedCount(lens, 8);
  }

  lemma FirstOne(lens: seq<nat>)
    ensures First(lens, 1) == 0
  {
  }

  lemma FixedCount(lens: seq<nat>, l: nat)
    requires l >= 1 && lens == Runs(144, 112, 24, 8)
    ensures First(lens, l + 1)
            == 2 * (First(lens, l) + if l == 8 then 152 else if l == 9 then 112 else if l == 7 then 24 else 0)
  {
    hide Count;
    CountRuns(144, 112, 24, 8, l);
  }

  /** The fixed literal/length code, word by word: 00110000 through 10111111 for 0 - 143, 110010000
      through 111111111 for 144 - 255, 0000000 through 0010111 for 256 - 279 and 11000000 through
      11000111 for 280 - 287. */
  lemma FixedLiteral(s: nat)
    requires s < 288
    ensures var w := EncodeSym(FixedLL(), s);
            if s < 144 then |w| == 8 && MsbVal(w) == 48 + s
            else if s < 256 then |w| == 9 && MsbVal(w) == 400 + (s - 144)
            else if s < 280 then |w| == 7 && MsbVal(w) == s - 256
            else |w| == 8 && MsbVal(w) == 192 + (s - 280)
  {
    hide Count, FixedLL, First, KraftUpTo, Runs, Msb, MsbVal, Pow2;
    var lens := FixedLL();
    FixedLength(s);
    FixedFirst();
    RunsPrefix(s);
    CountRuns(Min(s, 144), if s <= 144 then 0 else Min(s - 144, 112),
              if s <= 256 then 0 else Min(s - 256, 24), if s <= 280 then 0 else s - 280, lens[s]);
    FixedKraft();
    CodeFits(lens, s);
    MsbRoundTrip(Code(lens, s), lens[s]);
  }

  lemma FixedLength(s: nat)
    requires s < 288
    ensures FixedLL()[s] == if s < 144 then 8 else if s < 256 then 9 else if s < 280 then 7 else 8
  {
  }

  /** The fixed distance code: five bits, the symbol itself. */
  lemma FixedDistance(s: nat)
    requires s < 30
    ensures |EncodeSym(FixedDL(), s)| == 5 && MsbVal(EncodeSym(FixedDL(), s)) == s
  {
    hide Count, First, KraftUpTo, Msb, MsbVal, Pow2, Fill;
    var lens := FixedDL();
    assert lens == Fill<nat>(30, 5);
    assert lens[..s] == Fill<nat>(s, 5);
    CountFill(s, 5, 5);
    DistanceFirst();
    FixedKraft();
    CodeFits(lens, s);
    MsbRoundTrip(Code(lens, s), lens[s]);
  }

  lemma DistanceFirst()
    ensures First(FixedDL(), 5) == 0
  {
    hide Count, First;
    var lens := FixedDL();
    FirstOne(lens);
    DistanceStep(1);
    DistanceStep(2);
    DistanceStep(3);
    DistanceStep(4);
  }

  lemma DistanceStep(l: nat)
    requires 1 <= l < 5
    ensures First(FixedDL(), l + 1) == 2 * First(FixedDL(), l)
  {
    hide Count;
    CountFill(30, 5, l);
  }

  // ------------------------------------------------------------ the worked example of section 3.2.2

  /** Lengths (3, 3, 3, 3, 3, 2, 4, 4) give the code words 010, 011, 100, 101, 110, 00, 1110, 1111. */
  lemma WorkedExample()
    ensures var lens := [3, 3, 3, 3, 3, 2, 4, 4];
            && EncodeSym(lens, 0) == [0, 1, 0] && EncodeSym(lens, 1) == [0, 1, 1] && EncodeSym(lens, 2) == [1, 0, 0]
            && EncodeSym(lens, 3) == [1, 0, 1] && EncodeSym(lens, 4) == [1, 1, 0] && EncodeSym(lens, 5) == [0, 0]
            && EncodeSym(lens, 6) == [1, 1, 1, 0] && EncodeSym(lens, 7) == [1, 1, 1, 1]
  {
    hide Code, Msb;
    var lens := [3, 3, 3, 3, 3, 2, 4, 4];
    ExampleCodes();
    SmallMsb();
  }

  lemma SmallMsb()
    ensures Msb(0, 2) == [0, 0] && Msb(2, 3) == [0, 1, 0] && Msb(3, 3) == [0, 1, 1] && Msb(4, 3) == [1, 0, 0]
    ensures Msb(5, 3) == [1, 0, 1] && Msb(6, 3) == [1, 1, 0] && Msb(14, 4) == [1, 1, 1, 0] && Msb(15, 4) == [1, 1, 1, 1]
  {
    assert Msb(0, 0) == [];
    assert Msb(0, 1) == [0] && Msb(1, 1) == [1];
    assert Msb(1, 2) == [0, 1] && Msb(2, 2) == [1, 0] && Msb(3, 2) == [1, 1];
    assert Msb(7, 3) == [1, 1, 1];
  }

  lemma ExampleCodes()
    ensures var lens := [3, 3, 3, 3, 3, 2, 4, 4];
            && Code(lens, 0) == 2 && Code(lens, 1) == 3 && Code(lens, 2) == 4 && Code(lens, 3) == 5
            && Code(lens, 4) == 6 && Code(lens, 5) == 0 && Code(lens, 6) == 14 && Code(lens, 7) == 15
  {
    hide Count, First;
    var lens := [3, 3, 3, 3, 3, 2, 4, 4];
    assert lens == Fill<nat>(5, 3) + [2] + [4, 4];
    ExampleCounts();
    FirstOne(lens);
    ExampleFirst(lens, 1);
    ExampleFirst(lens, 2);
    ExampleFirst(lens, 3);
    ExampleFirst(lens, 4);
    forall s: nat | s < 5 ensures Count(lens[..s], 3) == s { assert lens[..s] == Fill<nat>(s, 3); CountFill(s, 3, 3); }
    ExampleRanks();
  }

  lemma ExampleFirst(lens: seq<nat>, l: nat)
    requires l >= 1
    ensures First(lens, l + 1) == 2 * (First(lens, l) + Count(lens, l))
  {
  }

  lemma ExampleCounts()
    ensures var lens := [3, 3, 3, 3, 3, 2, 4, 4];
            Count(lens, 1) == 0 && Count(lens, 2) == 1 && Count(lens, 3) == 5
  {
    hide Count;
    CountEight(1);
    CountEight(2);
    CountEight(3);
  }

  lemma ExampleRanks()
    ensures var lens := [3, 3, 3, 3, 3, 2, 4, 4];
            Count(lens[..5], 2) == 0 && Count(lens[..6], 4) == 0 && Count(lens[..7], 4) == 1
  {
    hide Count;
    var lens := [3, 3, 3, 3, 3, 2, 4, 4];
    assert lens[..5] == Fill<nat>(5, 3);
    CountFill(5, 3, 2);
    CountFill(5, 3, 4);
    CountStep(lens, 5, 4);
    CountStep(lens, 6, 4);
  }

  lemma CountEight(l: nat)
    ensures Count([3, 3, 3, 3, 3, 2, 4, 4], l) == if l == 3 then 5 else if l == 2 then 1 else if l == 4 then 2 else 0
  {
    hide Count;
    var lens := [3, 3, 3, 3, 3, 2, 4, 4];
    assert lens[..5] == Fill<nat>(5, 3) && lens[..8] == lens;
    CountFill(5, 3, l);
    CountStep(lens, 5, l);
    CountStep(lens, 6, l);
    CountStep(lens, 7, l);
  }
}
