/**
 seen_add of nrs_strings.c: an open-addressing hash set of NUL-free strings with
 linear probing over 65536 slots, against the mathematical set.
 */
module StringSet {
  import opened Bits

  const CAP: nat := 0x1_0000

  datatype Slot = Empty | Full(text: seq<byte>)

  /** A byte as the signed char the hash adds. */
  function Signed(b: byte): int {
    if b < 128 then b else (b as int) - 256
  }

  /** djb2 in 32-bit arithmetic. */
  function Djb2(s: seq<byte>): (h: nat)
    ensures h < 0x1_0000_0000
  {
    if s == [] then 5381 else (Djb2(s[..|s| - 1]) * 33 + Signed(s[|s| - 1])) % 0x1_0000_0000
  }

  function Home(s: seq<byte>): (h: nat)
    ensures h < CAP
  {
    Djb2(s) % CAP
  }

  /** The slot i steps after h, around the end of the table. */
  function Probe(h: nat, i: nat): (p: nat)
    requires h < CAP && i < CAP
    ensures p < CAP && p == (h + i) % CAP
  {
    if h + i < CAP then h + i else h + i - CAP
  }

  /** How many steps it takes from h to p. */
  function Distance(h: nat, p: nat): (i: nat)
    requires h < CAP && p < CAP
    ensures i < CAP && Probe(h, i) == p
  {
    if p >= h then p - h else p + CAP - h
  }

  // ------------------------------------------------------------ tables

  ghost predicate Reachable(t: seq<Slot>, s: seq<byte>, p: nat)
    requires |t| == CAP && p < CAP
  {
    forall j: nat | j < Distance(Home(s), p) :: t[Probe(Home(s), j)].Full?
  }

  /** Every stored string is reached from its home without crossing an empty slot, and is stored once. */
  ghost predicate Good(t: seq<Slot>)
  {
    && |t| == CAP
    && (forall p: nat | p < CAP && t[p].Full? :: Reachable(t, t[p].text, p))
    && (forall p: nat, q: nat | p < q < CAP && t[p].Full? && t[q].Full? :: t[p].text != t[q].text)
  }

  function Stored(t: seq<Slot>): (s: set<seq<byte>>)
  {
    if t == [] then {}
    else Stored(t[..|t| - 1]) + if t[|t| - 1].Full? then {t[|t| - 1].text} else {}
  }

  ghost predicate HasAt(t: seq<Slot>, x: seq<byte>, p: nat)
  {
    p < |t| && t[p] == Full(x)
  }

  lemma {:induction false} StoredIff(t: seq<Slot>, x: seq<byte>)
    ensures x in Stored(t) <==> exists p: nat :: HasAt(t, x, p)
  {
    if t != [] {
      var n := |t| - 1;
      StoredIff(t[..n], x);
      forall p: nat | p < n ensures HasAt(t, x, p) <==> HasAt(t[..n], x, p) {}
      if x in Stored(t[..n]) {
        var p: nat :| HasAt(t[..n], x, p);
        assert HasAt(t, x, p);
      } else if t[n] == Full(x) {
        assert HasAt(t, x, n);
      } else {
        forall p: nat ensures !HasAt(t, x, p) {
          if p < n { assert !HasAt(t[..n], x, p); }
        }
      }
    }
  }

  function Occupied(t: seq<Slot>): (n: nat)
    ensures n <= |t|
  {
    if t == [] then 0 else Occupied(t[..|t| - 1]) + if t[|t| - 1].Full? then 1 else 0
  }

  ghost predicate Distinct(t: seq<Slot>)
  {
    forall p: nat, q: nat | p < q < |t| && t[p].Full? && t[q].Full? :: t[p].text != t[q].text
  }

  lemma {:induction false} StoredSize(t: seq<Slot>)
    requires Distinct(t)
    ensures |Stored(t)| == Occupied(t)
  {
    if t != [] {
      var n := |t| - 1;
      StoredSize(t[..n]);
      if t[n].Full? {
        StoredIff(t[..n], t[n].text);
        assert t[n].text !in Stored(t[..n]);
      }
    }
  }

  lemma {:induction false} OccupiedAll(t: seq<Slot>)
    ensures Occupied(t) == |t| <==> forall p: nat | p < |t| :: t[p].Full?
  {
    if t != [] {
      var n := |t| - 1;
      OccupiedAll(t[..n]);
      if forall p: nat | p < |t| :: t[p].Full? {
        assert t[n].Full?;
        forall p: nat | p < n ensures t[..n][p].Full? { assert t[p].Full?; }
      }
      if Occupied(t) == |t| {
        forall p: nat | p < |t| ensures t[p].Full? {
          if p < n { assert t[..n][p].Full?; }
        }
      }
    }
  }

  /** A slot is free exactly while fewer than 65536 strings are stored. */
  lemma FullWhen(t: seq<Slot>)
    requires Good(t)
    ensures |Stored(t)| <= 65536
    ensures |Stored(t)| == 65536 <==> forall p: nat | p < 65536 :: t[p].Full?
  {
    hide Reachable;
    StoredSize(t);
    OccupiedAll(t);
  }

  // ------------------------------------------------------------ search and insertion

  /** The first i probes for x found other strings. */
  ghost predicate Passed(t: seq<Slot>, x: seq<byte>, i: nat)
    requires |t| == CAP && i <= CAP
  {
    forall j: nat | j < i :: t[Probe(Home(x), j)].Full? && t[Probe(Home(x), j)].text != x
  }

  /** An empty slot ends the search: the string is not stored anywhere. */
  lemma EmptyEnds(t: seq<Slot>, x: seq<byte>, i: nat)
    requires Good(t) && i < CAP && Passed(t, x, i) && t[Probe(Home(x), i)].Empty?
    ensures x !in Stored(t)
  {
    hide Home;
    StoredIff(t, x);
    forall p: nat ensures !HasAt(t, x, p) {
      if p < CAP { NotPast(t, x, i, p); }
    }
  }

  lemma NotPast(t: seq<Slot>, x: seq<byte>, i: nat, p: nat)
    requires Good(t) && |t| == CAP && i < CAP && Passed(t, x, i) && t[Probe(Home(x), i)].Empty? && p < CAP
    ensures t[p] != Full(x)
  {
    hide Home, Good;
    if i < Distance(Home(x), p) && t[p] == Full(x) { ReachFull(t, x, p, i); }
  }

  lemma ReachFull(t: seq<Slot>, x: seq<byte>, p: nat, i: nat)
    requires Good(t) && |t| == CAP && p < CAP && t[p] == Full(x) && i < Distance(Home(x), p)
    ensures t[Probe(Home(x), i)].Full?
  {
    hide Home;
    assert Reachable(t, x, p);
  }

  lemma AllPassed(t: seq<Slot>, x: seq<byte>)
    requires Good(t) && Passed(t, x, CAP)
    ensures x !in Stored(t) && |Stored(t)| == CAP
  {
    hide Home, Reachable;
    StoredIff(t, x);
    forall p: nat | p < CAP ensures t[p].Full? && t[p].text != x {
      var d := Distance(Home(x), p);
    }
    FullWhen(t);
  }

  lemma Insert(t: seq<Slot>, x: seq<byte>, i: nat)
    requires Good(t) && i < CAP && Passed(t, x, i) && t[Probe(Home(x), i)].Empty?
    ensures var u := t[Probe(Home(x), i) := Full(x)];
            Good(u) && Stored(u) == Stored(t) + {x} && |Stored(t)| < CAP
  {
    hide Home, Stored;
    var at := Probe(Home(x), i);
    var u := t[at := Full(x)];
    EmptyEnds(t, x, i);
    forall p: nat | p < CAP && u[p].Full? ensures Reachable(u, u[p].text, p) {
      if p != at { assert Reachable(t, t[p].text, p); } else { ProbeUnique(Home(x), i); }
    }
    forall p: nat, q: nat | p < q < CAP && u[p].Full? && u[q].Full? ensures u[p].text != u[q].text {
      StoredIff(t, x);
      assert p != at ==> HasAt(t, u[p].text, p);
      assert q != at ==> HasAt(t, u[q].text, q);
    }
    forall y ensures y in Stored(u) <==> y in Stored(t) + {x} {
      StoredIff(t, y);
      StoredIff(u, y);
      assert HasAt(u, x, at);
      forall p: nat | p != at ensures HasAt(t, y, p) <==> HasAt(u, y, p) {}
    }
    FullWhen(t);
  }

  lemma ProbeUnique(h: nat, i: nat)
    requires h < CAP && i < CAP
    ensures Distance(h, Probe(h, i)) == i
  {
  }

  // ------------------------------------------------------------ the set over every run

  /** What one call does to the stored set: once 65536 strings are in, nothing is added any more. */
  function Added(s: set<seq<byte>>, x: seq<byte>): set<seq<byte>> {
    if |s| < CAP then s + {x} else s
  }

  function AddedAll(s: set<seq<byte>>, xs: seq<seq<byte>>): set<seq<byte>> {
    if xs == [] then s else Added(AddedAll(s, xs[..|xs| - 1]), xs[|xs| - 1])
  }

  function AllOf(xs: seq<seq<byte>>): (s: set<seq<byte>>)
    ensures forall x :: x in s <==> x in xs
  {
    set x | x in xs
  }

  /** The stored set is the set of all strings ever offered exactly as long as no more than 65536
      distinct ones have been. */
  lemma StoredUntilFull(xs: seq<seq<byte>>)
    ensures AddedAll({}, xs) == AllOf(xs) <==> |AllOf(xs)| <= 65536
  {
    hide AddedAll, AllOf;
    AddedBound(xs);
    if |AllOf(xs)| <= CAP { StoredIsAll(xs); }
  }

  lemma {:induction false} AddedBound(xs: seq<seq<byte>>)
    ensures |AddedAll({}, xs)| <= CAP
  {
    if xs != [] { AddedBound(xs[..|xs| - 1]); }
  }

  lemma {:induction false} StoredIsAll(xs: seq<seq<byte>>)
    requires |AllOf(xs)| <= CAP
    ensures AddedAll({}, xs) == AllOf(xs)
  {
    if xs != [] {
      var init, x := xs[..|xs| - 1], xs[|xs| - 1];
      assert xs == init + [x];
      assert AllOf(xs) == AllOf(init) + {x};
      SubsetSize(AllOf(init), AllOf(xs));
      StoredIsAll(init);
      if |AllOf(init)| == CAP {
        SameSize(AllOf(init), AllOf(xs));
      }
    }
  }

  lemma {:induction false} SubsetSize(a: set<seq<byte>>, b: set<seq<byte>>)
    requires a <= b
    ensures |a| <= |b|
  {
    if a != {} {
      var x :| x in a;
      SubsetSize(a - {x}, b - {x});
    }
  }

  lemma SameSize(a: set<seq<byte>>, b: set<seq<byte>>)
    requires a <= b && |a| >= |b|
    ensures a == b
  {
    if x :| x in b && x !in a {
      SubsetSize(a, b - {x});
      assert false;
    }
  }

  class SeenSet {
    const slots: array<Slot>

    ghost predicate Valid()
      reads slots
    {
      slots.Length == CAP && Good(slots[..])
    }

    constructor ()
      ensures Valid() && fresh(slots) && Stored(slots[..]) == {}
    {
      slots := new Slot[CAP](_ => Empty);
      new;
      EmptyTable(slots[..]);
    }

    /** seen_add: 1 exactly if the string was not stored yet. */
    method SeenAdd(x: seq<byte>) returns (r: int)
      requires Valid()
      modifies slots
      ensures Valid()
      ensures r == if x in old(Stored(slots[..])) then 0 else 1
      ensures Stored(slots[..]) == Added(old(Stored(slots[..])), x)
      ensures r == 0 ==> slots[..] == old(slots[..])
    {
      hide Good, Stored, Home, Probe;
      ghost var t := slots[..];
      var h := Home(x);
      for i := 0 to CAP
        invariant slots[..] == t && Passed(t, x, i)
      {
        var idx := Probe(h, i);
        if slots[idx].Empty? {
          EmptyEnds(t, x, i);
          Insert(t, x, i);
          slots[idx] := Full(x);
          return 1;
        }
        if slots[idx].text == x {
          FoundIs(t, x, idx);
          assert Stored(t) + {x} == Stored(t);
          return 0;
        }
      }
      AllPassed(t, x);
      return 1;
    }
  }

  lemma FoundIs(t: seq<Slot>, x: seq<byte>, p: nat)
    requires p < |t| && t[p] == Full(x)
    ensures x in Stored(t)
  {
    StoredIff(t, x);
    assert HasAt(t, x, p);
  }

  lemma EmptyTable(t: seq<Slot>)
    requires |t| == CAP && forall p: nat | p < CAP :: t[p].Empty?
    ensures Good(t) && Stored(t) == {}
  {
    forall y ensures y !in Stored(t) { StoredIff(t, y); }
  }

  /** The hash in numbers: from 5381 on, each character is added to 33 times the hash, as a signed
      number and modulo 2^32; its low 16 bits are where the search begins. */
  lemma HashLiterally(s: seq<byte>, c: byte)
    ensures Djb2([]) == 5381 && Home(s) == Djb2(s) % 65536
    ensures Djb2(s + [c]) == (Djb2(s) * 33 + (if c < 128 then c else c as int - 256)) % 4294967296
  {
    assert (s + [c])[..|s|] == s;
  }
}
