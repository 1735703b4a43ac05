/**
 The receive loop of keychip_server.c: whatever the socket delivers is appended
 to a buffer, complete lines are cut off its front, and each non-empty line is
 answered.
 */
module LineServer {
  import opened Bits
  import opened Buffers

  const BUF: nat := 1024
  const CHUNK: nat := 512
  const LINE: nat := 600
  const LF: byte := 10
  const CR: byte := 13

  // ------------------------------------------------------------ meaning of a stream

  /** The place of the first newline. */
  function FindLf(s: seq<byte>): (k: nat)
    ensures k <= |s| && LF !in s[..k] && (k < |s| ==> s[k] == LF)
  {
    if s == [] || s[0] == LF then 0
    else
      var k := 1 + FindLf(s[1..]);
      assert s[..k] == [s[0]] + s[1..][..k - 1];
      k
  }

  /** A line without one trailing carriage return. */
  function Trim(l: seq<byte>): seq<byte> {
    if l != [] && l[|l| - 1] == CR then l[..|l| - 1] else l
  }

  /** The complete lines of a stream, in order, empty ones dropped. */
  function Lines(s: seq<byte>): (ls: seq<seq<byte>>)
  {
    var k := FindLf(s);
    if k == |s| then [] else Nonempty(Trim(s[..k])) + Lines(s[k + 1..])
  }

  function Nonempty(l: seq<byte>): seq<seq<byte>> {
    if l == [] then [] else [l]
  }

  /** What follows the last newline. */
  function Tail(s: seq<byte>): (t: seq<byte>)
    ensures |t| <= |s| && LF !in t
  {
    var k := FindLf(s);
    if k == |s| then s else Tail(s[k + 1..])
  }

  /** The stream has no line of more than n bytes, its unfinished last line included. */
  predicate ShortLines(s: seq<byte>, n: nat)
  {
    var k := FindLf(s);
    k <= n && (k == |s| || ShortLines(s[k + 1..], n))
  }

  lemma FindIs(s: seq<byte>, k: nat)
    requires k <= |s| && LF !in s[..k] && (k < |s| ==> s[k] == LF)
    ensures FindLf(s) == k
  {
    hide FindLf;
    var f := FindLf(s);
    if f < k { NotBefore(s, k, f); }
  }

  lemma NotBefore(s: seq<byte>, k: nat, i: nat)
    requires i < k <= |s| && LF !in s[..k]
    ensures s[i] != LF
  {
    assert s[..k][i] == s[i];
  }

  lemma FindSplit(s: seq<byte>, t: seq<byte>)
    ensures FindLf(s) < |s| ==> FindLf(s + t) == FindLf(s)
    ensures FindLf(s) == |s| ==> FindLf(s + t) == |s| + FindLf(t)
  {
    hide FindLf;
    var k := FindLf(s);
    if k < |s| {
      assert (s + t)[..k] == s[..k];
      FindIs(s + t, k);
    } else {
      var m := |s| + FindLf(t);
      assert (s + t)[..m] == s[..k] + t[..FindLf(t)];
      FindIs(s + t, m);
    }
  }

  /** Appending to a stream: its lines are kept, and its tail is completed by what follows. */
  lemma {:induction false} LinesConcat(s: seq<byte>, t: seq<byte>)
    ensures Lines(s + t) == Lines(s) + Lines(Tail(s) + t) && Tail(s + t) == Tail(Tail(s) + t)
    decreases |s|
  {
    hide FindLf, Trim, Nonempty;
    var k := FindLf(s);
    FindSplit(s, t);
    if k == |s| {
      assert [] + Lines(s + t) == Lines(s + t);
    } else {
      var first, rest := Nonempty(Trim(s[..k])), s[k + 1..];
      assert (s + t)[..k] == s[..k] && (s + t)[k + 1..] == rest + t;
      LinesConcat(rest, t);
      Assoc(first, Lines(rest), Lines(Tail(rest) + t));
    }
  }

  lemma {:induction false} ShortConcat(s: seq<byte>, t: seq<byte>, n: nat)
    ensures ShortLines(s + t, n) ==> ShortLines(s, n) && ShortLines(Tail(s) + t, n)
    decreases |s|
  {
    hide FindLf;
    var k := FindLf(s);
    FindSplit(s, t);
    if k < |s| {
      assert (s + t)[k + 1..] == s[k + 1..] + t;
      ShortConcat(s[k + 1..], t, n);
    }
  }

  // ------------------------------------------------------------ the buffer as a value

  /** strchr(in, LF): stops at the first newline or NUL. */
  function StrChr(s: seq<byte>): (k: nat)
    ensures k <= |s| && (forall i | 0 <= i < k :: s[i] != LF && s[i] != 0) && (k < |s| ==> s[k] == LF || s[k] == 0)
  {
    if s == [] || s[0] == LF || s[0] == 0 then 0 else 1 + StrChr(s[1..])
  }

  predicate HasLine(s: seq<byte>) {
    StrChr(s) < |s| && s[StrChr(s)] == LF
  }

  /** As much of a line as the line buffer holds. */
  function Clip(l: seq<byte>): seq<byte> {
    l[..Min(|l|, LINE - 1)]
  }

  /** A line as it is answered: without a carriage return, and no longer than the line buffer. */
  function Clipped(l: seq<byte>): seq<byte> {
    Clip(Trim(l))
  }

  /** The lines cut off the front of a buffer, and what stays in it. */
  function Cut(s: seq<byte>): (ls: seq<seq<byte>>)
  {
    if !HasLine(s) then [] else Nonempty(Clipped(s[..StrChr(s)])) + Cut(s[StrChr(s) + 1..])
  }

  function Left(s: seq<byte>): (r: seq<byte>)
    ensures |r| <= |s|
  {
    if !HasLine(s) then s else Left(s[StrChr(s) + 1..])
  }

  /** A chunk that does not fit behind what is pending replaces it. */
  function Joined(pending: seq<byte>, chunk: seq<byte>): (s: seq<byte>)
  {
    if |pending| + |chunk| > BUF - 1 then chunk else pending + chunk
  }

  /** The lines answered while receiving a stream in pieces, and the bytes then pending. */
  function Answered(chunks: seq<seq<byte>>): seq<seq<byte>> {
    if chunks == [] then []
    else
      var n := |chunks| - 1;
      Answered(chunks[..n]) + Cut(Joined(Pending(chunks[..n]), chunks[n]))
  }

  function Pending(chunks: seq<seq<byte>>): seq<byte> {
    if chunks == [] then [] else Left(Joined(Pending(chunks[..|chunks| - 1]), chunks[|chunks| - 1]))
  }

  function Whole(chunks: seq<seq<byte>>): seq<byte> {
    if chunks == [] then [] else Whole(chunks[..|chunks| - 1]) + chunks[|chunks| - 1]
  }

  predicate ValidChunks(chunks: seq<seq<byte>>) {
    forall i | 0 <= i < |chunks| :: 1 <= |chunks[i]| <= CHUNK
  }

  lemma ChrIsFind(s: seq<byte>)
    requires 0 !in s
    ensures StrChr(s) == FindLf(s)
  {
    hide StrChr, FindLf;
    var k := StrChr(s);
    FindIs(s, k);
  }

  function ClipAll(ls: seq<seq<byte>>): (r: seq<seq<byte>>)
    ensures |r| == |ls|
  {
    if ls == [] then [] else [Clip(ls[0])] + ClipAll(ls[1..])
  }

  lemma {:induction false} ClipConcat(a: seq<seq<byte>>, b: seq<seq<byte>>)
    ensures ClipAll(a + b) == ClipAll(a) + ClipAll(b)
  {
    hide Clip;
    if a == [] {
      assert a + b == b;
    } else {
      assert (a + b)[1..] == a[1..] + b;
      ClipConcat(a[1..], b);
    }
  }

  lemma ClipOne(l: seq<byte>)
    ensures Nonempty(Clipped(l)) == ClipAll(Nonempty(Trim(l)))
  {
    hide Trim;
    if Trim(l) != [] { assert [Trim(l)][1..] == []; }
  }

  /** On a NUL-free buffer cutting lines off the front is splitting it, but for the clipping. */
  lemma {:induction false} CutIs(s: seq<byte>)
    requires 0 !in s
    ensures Cut(s) == ClipAll(Lines(s)) && Left(s) == Tail(s)
    decreases |s|
  {
    hide StrChr, FindLf, Trim, Nonempty, Clipped;
    ChrIsFind(s);
    var k := FindLf(s);
    if k < |s| {
      CutIs(s[k + 1..]);
      ClipOne(s[..k]);
      ClipConcat(Nonempty(Trim(s[..k])), Lines(s[k + 1..]));
    }
  }

  /** No line is longer than the line buffer. */
  predicate AllShort(ls: seq<seq<byte>>) {
    forall i | 0 <= i < |ls| :: |ls[i]| <= LINE - 1
  }

  lemma {:induction false} ClipIff(ls: seq<seq<byte>>)
    ensures ClipAll(ls) == ls <==> AllShort(ls)
  {
    if ls != [] {
      var r := ls[1..];
      ClipIff(r);
      assert ClipAll(ls)[0] == Clip(ls[0]) && ClipAll(ls)[1..] == ClipAll(r);
      assert ls == [ls[0]] + r;
      ShortCons(ls[0], r);
      assert Clip(ls[0]) == ls[0] <==> |ls[0]| <= LINE - 1;
    }
  }

  lemma ShortCons(l: seq<byte>, ls: seq<seq<byte>>)
    ensures AllShort([l] + ls) <==> |l| <= LINE - 1 && AllShort(ls)
  {
    if AllShort([l] + ls) {
      assert ([l] + ls)[0] == l;
      forall i | 0 <= i < |ls| ensures |ls[i]| <= LINE - 1 { assert ls[i] == ([l] + ls)[i + 1]; }
    }
  }

  /** On a NUL-free stream of short lines, cutting the buffer is splitting the stream. */
  lemma CutIsLines(s: seq<byte>)
    requires 0 !in s && AllShort(Lines(s))
    ensures Cut(s) == Lines(s) && Left(s) == Tail(s)
  {
    hide Cut, Left, Lines, Tail, ClipAll;
    CutIs(s);
    ClipIff(Lines(s));
  }

  lemma {:induction false} ShortTail(s: seq<byte>, n: nat)
    requires ShortLines(s, n)
    ensures |Tail(s)| <= n
    decreases |s|
  {
    hide FindLf;
    var k := FindLf(s);
    if k < |s| { ShortTail(s[k + 1..], n); }
  }

  lemma {:induction false} ShortAll(s: seq<byte>, n: nat)
    requires ShortLines(s, n) && n <= LINE - 1
    ensures AllShort(Lines(s))
    decreases |s|
  {
    hide FindLf;
    var k := FindLf(s);
    if k < |s| { ShortAll(s[k + 1..], n); }
  }

  lemma {:induction false} TailNulFree(s: seq<byte>)
    requires 0 !in s
    ensures 0 !in Tail(s)
    decreases |s|
  {
    hide FindLf;
    var k := FindLf(s);
    if k < |s| { TailNulFree(s[k + 1..]); }
  }

  lemma {:induction false} TailHasNoLf(s: seq<byte>)
    ensures FindLf(Tail(s)) == |Tail(s)|
  {
    hide FindLf, Tail;
    FindIs(Tail(s), |Tail(s)|);
  }

  // ------------------------------------------------------------ which chunkings are answered in full

  /** Every chunk fits into the buffer behind the line that is unfinished when it arrives. */
  predicate Fits(chunks: seq<seq<byte>>)
  {
    chunks == []
    || (var n := |chunks| - 1;
        Fits(chunks[..n]) && |Tail(Whole(chunks[..n]))| + |chunks[n]| <= BUF - 1)
  }

  /** As long as everything fits, all lines are answered, but for the clipping. */
  lemma {:induction false} FitsAnswered(chunks: seq<seq<byte>>)
    requires Fits(chunks) && 0 !in Whole(chunks)
    ensures Answered(chunks) == ClipAll(Lines(Whole(chunks))) && Pending(chunks) == Tail(Whole(chunks))
  {
    hide Lines, Tail, Cut, Left, ClipAll;
    if chunks == [] {
      NoLines();
    } else {
      var n := |chunks| - 1;
      var s, t := Whole(chunks[..n]), chunks[n];
      assert forall b :: b in s + t <==> b in s || b in t;
      FitsAnswered(chunks[..n]);
      LinesConcat(s, t);
      TailNulFree(s);
      CutIs(Tail(s) + t);
      ClipConcat(Lines(s), Lines(Tail(s) + t));
    }
  }

  lemma NoLines()
    ensures Lines([]) == [] && Tail([]) == [] && ClipAll([]) == []
  {
  }

  /** How many bytes lines have in all. */
  function Weight(ls: seq<seq<byte>>): (n: nat)
  {
    if ls == [] then 0 else |ls[0]| + Weight(ls[1..])
  }

  lemma {:induction false} WeightConcat(a: seq<seq<byte>>, b: seq<seq<byte>>)
    ensures Weight(a + b) == Weight(a) + Weight(b)
  {
    if a == [] {
      assert a + b == b;
    } else {
      assert (a + b)[1..] == a[1..] + b;
      WeightConcat(a[1..], b);
    }
  }

  lemma {:induction false} ClipLighter(ls: seq<seq<byte>>)
    ensures Weight(ClipAll(ls)) <= Weight(ls)
  {
    if ls != [] {
      ClipLighter(ls[1..]);
      assert ClipAll(ls)[1..] == ClipAll(ls[1..]);
    }
  }

  lemma TrimWeight(l: seq<byte>)
    ensures |l| - 1 <= Weight(Nonempty(Trim(l))) <= |l|
  {
    if Trim(l) != [] { assert [Trim(l)][1..] == []; }
  }

  /** p is what is left of t after losing nothing, or more than one byte, at its front. */
  predicate Cropped(t: seq<byte>, p: seq<byte>) {
    |p| <= |t| && t[|t| - |p|..] == p && |t| - |p| != 1
  }

  /** A stream from its first newline on. */
  lemma LinesAfter(t: seq<byte>, c: seq<byte>)
    requires FindLf(t) == |t|
    ensures var k := FindLf(c);
            if k == |c| then Lines(t + c) == [] && Tail(t + c) == t + c
            else Lines(t + c) == Nonempty(Trim(t + c[..k])) + Lines(c[k + 1..]) && Tail(t + c) == Tail(c[k + 1..])
  {
    hide FindLf, Trim, Nonempty;
    FindSplit(t, c);
    var k := FindLf(c);
    if k < |c| {
      assert (t + c)[..|t| + k] == t + c[..k] && (t + c)[|t| + k + 1..] == c[k + 1..];
    }
  }

  /** Bytes lost from an unfinished line are missing from what is pending or from what is answered. */
  lemma CroppedStep(t: seq<byte>, p: seq<byte>, c: seq<byte>)
    requires FindLf(t) == |t| && FindLf(p) == |p| && Cropped(t, p)
    ensures Cropped(Tail(t + c), Tail(p + c)) && Weight(Lines(p + c)) <= Weight(Lines(t + c))
    ensures p != t ==> Tail(p + c) != Tail(t + c) || Weight(Lines(p + c)) < Weight(Lines(t + c))
  {
    hide FindLf, Trim, Nonempty, Lines, Tail, Weight;
    LinesAfter(t, c);
    LinesAfter(p, c);
    var k := FindLf(c);
    if k == |c| {
      assert (t + c)[|t| - |p|..] == t[|t| - |p|..] + c;
      assert |t + c| - |p + c| == |t| - |p|;
    } else {
      WeightConcat(Nonempty(Trim(t + c[..k])), Lines(c[k + 1..]));
      WeightConcat(Nonempty(Trim(p + c[..k])), Lines(c[k + 1..]));
      TrimWeight(t + c[..k]);
      TrimWeight(p + c[..k]);
    }
  }

  /** What is pending is always a cropped form of the unfinished line, and the lines answered never have
      more bytes than the lines of the stream; once a chunk did not fit, bytes are missing for good. */
  ghost predicate Lossy(chunks: seq<seq<byte>>)
  {
    && Cropped(Tail(Whole(chunks)), Pending(chunks))
    && Weight(Answered(chunks)) <= Weight(Lines(Whole(chunks)))
    && (Fits(chunks) || Pending(chunks) != Tail(Whole(chunks)) || Weight(Answered(chunks)) < Weight(Lines(Whole(chunks))))
  }

  lemma {:induction false} Losses(chunks: seq<seq<byte>>)
    requires ValidChunks(chunks) && 0 !in Whole(chunks)
    ensures Lossy(chunks)
  {
    hide Lines, Tail, Cut, Left, Weight, Answered, Pending, FindLf, Cropped, Lossy;
    if chunks == [] {
      NothingLost();
    } else {
      var n := |chunks| - 1;
      var s, c := Whole(chunks[..n]), chunks[n];
      assert forall b :: b in s + c <==> b in s || b in c;
      Losses(chunks[..n]);
      LossStep(chunks);
    }
  }

  lemma NothingLost()
    ensures Lossy([])
  {
  }

  /** The pending bytes a chunk is joined to are a cropped form of the unfinished line too. */
  lemma JoinedTo(t: seq<byte>, p: seq<byte>, c: seq<byte>) returns (q: seq<byte>)
    requires Cropped(t, p) && 1 <= |c| <= CHUNK
    ensures Cropped(t, q) && q <= p && Joined(p, c) == q + c
    ensures p == t && |t| + |c| > BUF - 1 ==> q != t
    ensures p != t ==> q != t
  {
    if |p| + |c| > BUF - 1 {
      q := [];
      assert [] + c == c;
    } else {
      q := p;
    }
  }

  lemma SameKind(t: seq<byte>, q: seq<byte>)
    requires Cropped(t, q) && FindLf(t) == |t|
    ensures FindLf(q) == |q| && (0 !in t ==> 0 !in q)
  {
    hide FindLf;
    forall i | 0 <= i < |q| ensures q[i] == t[|t| - |q| + i] {}
    assert LF !in t;
    FindIs(q, |q|);
  }

  lemma LossStep(chunks: seq<seq<byte>>)
    requires ValidChunks(chunks) && chunks != [] && 0 !in Whole(chunks) && Lossy(chunks[..|chunks| - 1])
    ensures Lossy(chunks)
  {
    hide Lines, Tail, Cut, Left, Weight, Joined, FindLf, Cropped;
    var n := |chunks| - 1;
    var s, c, a := Whole(chunks[..n]), chunks[n], Answered(chunks[..n]);
    var t := Tail(s);
    assert forall b :: b in s + c <==> b in s || b in c;
    var q := JoinedTo(t, Pending(chunks[..n]), c);
    TailNulFree(s);
    TailHasNoLf(s);
    SameKind(t, q);
    CutIs(q + c);
    ClipLighter(Lines(q + c));
    CroppedStep(t, q, c);
    LinesConcat(s, c);
    WeightConcat(Lines(s), Lines(t + c));
    WeightConcat(a, Cut(q + c));
    assert Whole(chunks) == s + c;
    assert Answered(chunks) == a + Cut(q + c) && Pending(chunks) == Left(q + c);
  }

  lemma {:induction false} FitsIs(chunks: seq<seq<byte>>)
    ensures Fits(chunks) <==> forall i | 0 <= i < |chunks| :: |Tail(Whole(chunks[..i]))| + |chunks[i]| <= 1023
  {
    hide Tail, Whole;
    if chunks != [] {
      var n := |chunks| - 1;
      var before := chunks[..n];
      FitsIs(before);
      forall i | 0 <= i < n
        ensures before[..i] == chunks[..i] && before[i] == chunks[i]
      {
      }
      if Fits(chunks) {
        forall i | 0 <= i < |chunks|
          ensures |Tail(Whole(chunks[..i]))| + |chunks[i]| <= 1023
        {
          if i < n { assert |Tail(Whole(before[..i]))| + |before[i]| <= 1023; }
        }
      } else if Fits(before) {
        assert |Tail(Whole(chunks[..n]))| + |chunks[n]| > 1023;
      } else {
        var i :| 0 <= i < n && |Tail(Whole(before[..i]))| + |before[i]| > 1023;
        assert |Tail(Whole(chunks[..i]))| + |chunks[i]| > 1023;
      }
    }
  }

  /** For any NUL-free stream and any way of cutting it into receives of 1 to 512 bytes: the lines
      answered are exactly the lines of the stream, and what is pending is exactly its unfinished last
      line, if and only if every chunk fits behind the unfinished line before it and no line is longer
      than the line buffer. */
  lemma ChunkingIff(chunks: seq<seq<byte>>)
    requires ValidChunks(chunks) && 0 !in Whole(chunks)
    ensures Answered(chunks) == Lines(Whole(chunks)) && Pending(chunks) == Tail(Whole(chunks))
            <==> (forall i | 0 <= i < |chunks| :: |Tail(Whole(chunks[..i]))| + |chunks[i]| <= 1023)
                 && (forall i | 0 <= i < |Lines(Whole(chunks))| :: |Lines(Whole(chunks))[i]| <= 599)
  {
    hide Lines, Tail, Cut, Left, Weight, Answered, Pending, Whole, Fits, Cropped;
    FitsIs(chunks);
    Losses(chunks);
    if Fits(chunks) {
      FitsAnswered(chunks);
      ClipIff(Lines(Whole(chunks)));
    }
  }

  /** In particular, no chunking loses anything of a stream with lines of at most 511 bytes. */
  lemma AnyChunking(chunks: seq<seq<byte>>)
    requires ValidChunks(chunks) && 0 !in Whole(chunks) && ShortLines(Whole(chunks), 511)
    ensures Answered(chunks) == Lines(Whole(chunks)) && Pending(chunks) == Tail(Whole(chunks))
  {
    hide Lines, Tail, Cut, Left, ShortLines, Answered, Pending, Whole, Fits;
    ShortAll(Whole(chunks), 511);
    ShortFits(chunks);
    FitsIs(chunks);
    ChunkingIff(chunks);
  }

  lemma {:induction false} ShortFits(chunks: seq<seq<byte>>)
    requires ValidChunks(chunks) && ShortLines(Whole(chunks), 511)
    ensures Fits(chunks)
  {
    hide Lines, Tail, ShortLines;
    if chunks != [] {
      var n := |chunks| - 1;
      var s := Whole(chunks[..n]);
      ShortConcat(s, chunks[n], 511);
      ShortFits(chunks[..n]);
      ShortTail(s, 511);
    }
  }

  /** Beyond that it can fail: 512 bytes of a line of 592 arrive first, and the rest of the line with
      the beginning of the next makes 1024, so that the first part is thrown away and 80 bytes are
      answered as if they were the line. */
  lemma LosesLine()
    ensures var chunks := [Fill<byte>(512, 97), Fill<byte>(80, 97) + [LF] + Fill<byte>(431, 97)];
            && ValidChunks(chunks) && 0 !in Whole(chunks)
            && Lines(Whole(chunks)) == [Fill<byte>(592, 97)] && Answered(chunks) == [Fill<byte>(80, 97)]
  {
    hide Lines, Tail, Cut, Left, FindLf, Fill;
    var x, y, z := Fill<byte>(512, 97), Fill<byte>(80, 97), Fill<byte>(431, 97);
    var c := y + [LF] + z;
    var chunks := [x, c];
    var none: seq<seq<byte>> := [];
    assert chunks[..1] == [x] && [x][..0] == none;
    assert Whole([x]) == [] + x == x;
    assert Whole(chunks) == x + c;
    assert x + c == (x + y) + [LF] + z;
    assert x + y == Fill<byte>(592, 97) by { assert forall i | 0 <= i < 592 :: (x + y)[i] == 97; }
    LfThen(x + y, z);
    LfThen(y, z);
    NoLf(x);
    CutIs(x);
    CutIs(c);
    NoLines();
    assert Answered(none) == [] && Pending(none) == [] && Whole(none) == [];
    assert Joined([], x) == [] + x == x;
    assert Answered([x]) == [] + Cut(x) && Pending([x]) == Left(x);
    assert Answered(chunks) == Answered([x]) + Cut(Joined(Pending([x]), c));
    ClipAs(y);
  }

  lemma NoLf(a: seq<byte>)
    requires forall i | 0 <= i < |a| :: a[i] == 97
    ensures Lines(a) == [] && Tail(a) == a
  {
    hide FindLf;
    FindIs(a, |a|);
  }

  lemma LfThen(a: seq<byte>, b: seq<byte>)
    requires a != [] && (forall i | 0 <= i < |a| :: a[i] == 97) && (forall i | 0 <= i < |b| :: b[i] == 97)
    ensures Lines(a + [LF] + b) == [a]
  {
    hide FindLf;
    var s := a + [LF] + b;
    assert s[..|a|] == a && s[|a| + 1..] == b;
    FindIs(s, |a|);
    FindIs(b, |b|);
    assert Lines(b) == [];
    assert Nonempty(Trim(a)) == [a];
  }

  lemma ClipAs(a: seq<byte>)
    requires |a| <= LINE - 1
    ensures ClipAll([a]) == [a]
  {
    ClipIff([a]);
  }

  // ------------------------------------------------------------ the connection object

  class Client {
    const buf: array<byte>
    var inlen: nat
    var answered: seq<seq<byte>>

    ghost predicate Valid()
      reads this, buf
    {
      buf.Length == BUF && inlen < BUF && buf[inlen] == 0
    }

    function Contents(): seq<byte>
      requires inlen <= buf.Length
      reads this, buf
    {
      buf[..inlen]
    }

    constructor ()
      ensures Valid() && Contents() == [] && answered == [] && fresh(buf)
    {
      buf := new byte[BUF];
      inlen := 0;
      answered := [];
      new;
      buf[0] := 0;
    }

    /** strchr(in, LF), relying on the NUL behind the contents. */
    method FindLine() returns (k: nat, found: bool)
      requires Valid()
      ensures k == StrChr(Contents()) && found == HasLine(Contents())
    {
      k := 0;
      while buf[k] != LF && buf[k] != 0
        invariant k <= inlen && forall i | 0 <= i < k :: buf[i] != LF && buf[i] != 0
        decreases inlen - k
      {
        k := k + 1;
      }
      StrChrIs(Contents(), k);
      found := buf[k] == LF;
      if k == inlen { assert !found; }
    }

    /** memmove of what follows the line to the front of the buffer. */
    method DropFront(n: nat)
      requires Valid() && n <= inlen
      modifies buf, `inlen
      ensures Valid() && Contents() == old(Contents())[n..]
    {
      var rest := inlen - n;
      for i := 0 to rest
        invariant forall j | 0 <= j < i :: buf[j] == old(buf[n + j])
        invariant forall j | n + i <= j < BUF :: buf[j] == old(buf[j])
      {
        buf[i] := buf[n + i];
      }
      inlen := rest;
      buf[inlen] := 0;
    }

    /** Answer the first complete line, if there is one. */
    method AnswerOne() returns (found: bool)
      requires Valid()
      modifies this, buf
      ensures Valid() && found == HasLine(old(Contents())) && (found ==> inlen < old(inlen))
      ensures var s := old(Contents());
              if found then Contents() == s[StrChr(s) + 1..] && answered == old(answered) + Nonempty(Clipped(s[..StrChr(s)]))
              else Contents() == s && answered == old(answered)
    {
      hide StrChr, Clipped;
      ghost var s, a := Contents(), answered;
      var k;
      k, found := FindLine();
      if !found { return; }
      var line := Clipped(buf[..k]);
      assert buf[..k] == s[..k];
      DropFront(k + 1);
      if line != [] { answered := answered + [line]; }
      NonemptyIs(a, line);
    }

    /** The inner loop: answer every complete line. */
    method AnswerLines()
      requires Valid()
      modifies this, buf
      ensures Valid() && Contents() == Left(old(Contents()))
      ensures answered == old(answered) + Cut(old(Contents()))
    {
      hide StrChr, Clipped, Nonempty, Cut, Left, HasLine;
      ghost var s0, a0 := Contents(), answered;
      var more := true;
      while more
        invariant Valid()
        invariant Left(s0) == Left(Contents()) && a0 + Cut(s0) == answered + Cut(Contents())
        invariant !more ==> !HasLine(Contents())
        decreases more, inlen
      {
        ghost var s, a := Contents(), answered;
        CutStep(s, a);
        more := AnswerOne();
      }
      CutStep(Contents(), answered);
    }

    /** One turn of the receive loop. */
    method Receive(chunk: seq<byte>)
      requires Valid() && 1 <= |chunk| <= CHUNK
      modifies this, buf
      ensures Valid() && Contents() == Left(Joined(old(Contents()), chunk))
      ensures answered == old(answered) + Cut(Joined(old(Contents()), chunk))
    {
      hide Left, Cut;
      ghost var pending := Contents();
      if inlen + |chunk| > BUF - 1 { inlen := 0; }
      var at := inlen;
      for i := 0 to |chunk|
        invariant inlen == at && answered == old(answered) && forall j | 0 <= j < at :: buf[j] == old(buf[j])
        invariant forall j | 0 <= j < i :: buf[at + j] == chunk[j]
      {
        buf[at + i] := chunk[i];
      }
      inlen := inlen + |chunk|;
      buf[inlen] := 0;
      assert Contents() == Joined(pending, chunk);
      AnswerLines();
    }
  }

  lemma {:induction false} StrChrIs(s: seq<byte>, k: nat)
    requires k <= |s| && (forall i | 0 <= i < k :: s[i] != LF && s[i] != 0) && (k < |s| ==> s[k] == LF || s[k] == 0)
    ensures StrChr(s) == k
  {
    hide StrChr;
    var f := StrChr(s);
  }

  lemma CutStep(s: seq<byte>, a: seq<seq<byte>>)
    ensures if HasLine(s) then
              var k := StrChr(s);
              Left(s) == Left(s[k + 1..]) && a + Cut(s) == a + Nonempty(Clipped(s[..k])) + Cut(s[k + 1..])
            else Left(s) == s && a + Cut(s) == a
  {
    hide StrChr, Clipped, Nonempty;
    if HasLine(s) {
      var k := StrChr(s);
      Assoc(a, Nonempty(Clipped(s[..k])), Cut(s[k + 1..]));
    } else {
      Assoc(a, [], []);
    }
  }

  lemma Assoc(a: seq<seq<byte>>, b: seq<seq<byte>>, c: seq<seq<byte>>)
    ensures a + (b + c) == a + b + c && a + [] == a
  {
  }

  lemma NonemptyIs(a: seq<seq<byte>>, l: seq<byte>)
    ensures a + Nonempty(l) == if l == [] then a else a + [l]
  {
  }

  /** Lines end in byte 10, one byte 13 before it is dropped, and so are lines left empty; what no byte
      10 follows is the unfinished line. */
  lemma LinesLiterally(a: seq<byte>, b: seq<byte>)
    requires 10 !in a
    ensures Lines(a) == [] && Tail(a) == a
    ensures Tail(a + [10] + b) == Tail(b)
    ensures a == [] || a == [13] ==> Lines(a + [10] + b) == Lines(b)
    ensures a != [] && a[|a| - 1] != 13 ==> Lines(a + [10] + b) == [a] + Lines(b)
    ensures |a| >= 2 && a[|a| - 1] == 13 ==> Lines(a + [10] + b) == [a[..|a| - 1]] + Lines(b)
  {
    hide Lines, Tail, FindLf, Trim, Nonempty;
    LineAt(a, b);
    NoLine(a);
    Trimmed(a);
    assert [] + Lines(b) == Lines(b);
  }

  lemma LineAt(a: seq<byte>, b: seq<byte>)
    requires 10 !in a
    ensures Lines(a + [10] + b) == Nonempty(Trim(a)) + Lines(b) && Tail(a + [10] + b) == Tail(b)
  {
    hide FindLf, Trim, Nonempty;
    var s := a + [10] + b;
    assert s[..|a|] == a && s[|a| + 1..] == b;
    FindIs(s, |a|);
  }

  lemma NoLine(a: seq<byte>)
    requires 10 !in a
    ensures Lines(a) == [] && Tail(a) == a
  {
    hide FindLf;
    FindIs(a, |a|);
  }

  lemma Trimmed(a: seq<byte>)
    ensures a == [] || a == [13] ==> Nonempty(Trim(a)) == []
    ensures a != [] && a[|a| - 1] != 13 ==> Nonempty(Trim(a)) == [a]
    ensures |a| >= 2 && a[|a| - 1] == 13 ==> Nonempty(Trim(a)) == [a[..|a| - 1]]
  {
  }
}
