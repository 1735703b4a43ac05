/**
 The scene list difference of scene_diag in api.c: the current nodes are matched
 greedily against the previous ones, each previous node at most once; unmatched
 current nodes were added, unmatched previous ones deleted.
 */
module SceneDelta {

  const CAP: nat := 64

  datatype Node = Node(va: nat, tag: nat)

  datatype Delta = Delta(add: seq<Node>, del: seq<Node>)

  /** The nodes of prev not marked as used, below n. */
  function Unused(prev: seq<Node>, used: seq<bool>, n: nat): (s: seq<Node>)
    requires n <= |prev| && |used| == |prev|
  {
    if n == 0 then [] else Unused(prev, used, n - 1) + if used[n - 1] then [] else [prev[n - 1]]
  }

  /** Marking one more occurrence of x removes exactly one x from the unused nodes. */
  lemma {:induction false} UseOne(prev: seq<Node>, used: seq<bool>, j: nat, n: nat)
    requires |used| == |prev| && j < n <= |prev| && !used[j]
    ensures multiset(Unused(prev, used, n)) == multiset(Unused(prev, used[j := true], n)) + multiset{prev[j]}
  {
    hide Unused;
    var u := used[j := true];
    UnusedNext(prev, used, n - 1);
    UnusedNext(prev, u, n - 1);
    if j < n - 1 {
      UseOne(prev, used, j, n - 1);
      Snoc(Unused(prev, used, n - 1), prev[n - 1]);
      Snoc(Unused(prev, u, n - 1), prev[n - 1]);
    } else {
      UnusedSame(prev, used, j, j);
      Snoc(Unused(prev, used, j), prev[j]);
    }
  }

  lemma Snoc(s: seq<Node>, x: Node)
    ensures multiset(s + [x]) == multiset(s) + multiset{x}
  {
  }

  lemma {:induction false} UnusedSame(prev: seq<Node>, used: seq<bool>, j: nat, n: nat)
    requires |used| == |prev| && n <= j < |prev|
    ensures Unused(prev, used[j := true], n) == Unused(prev, used, n)
  {
    if n > 0 { UnusedSame(prev, used, j, n - 1); }
  }

  /** A node that no unused previous node equals is not among the unused ones. */
  lemma {:induction false} NotUnused(prev: seq<Node>, used: seq<bool>, x: Node, n: nat)
    requires |used| == |prev| && n <= |prev| && forall j | 0 <= j < n :: used[j] || prev[j] != x
    ensures x !in Unused(prev, used, n)
  {
    if n > 0 { NotUnused(prev, used, x, n - 1); }
  }

  lemma {:induction false} AllUnused(prev: seq<Node>, used: seq<bool>, n: nat)
    requires |used| == |prev| && n <= |prev| && forall j | 0 <= j < n :: !used[j]
    ensures Unused(prev, used, n) == prev[..n]
  {
    if n > 0 { AllUnused(prev, used, n - 1); }
  }

  /** What the two lists of a delta are: the multiset differences. */
  ghost predicate IsDelta(prev: seq<Node>, cur: seq<Node>, d: Delta)
  {
    && multiset(d.add) == multiset(cur) - multiset(prev)
    && multiset(d.del) == multiset(prev) - multiset(cur)
  }

  /** prev - del + add = cur, and both lists are empty exactly when the lists are permutations. */
  lemma DeltaLaws(prev: seq<Node>, cur: seq<Node>, d: Delta)
    requires IsDelta(prev, cur, d)
    ensures multiset(d.del) <= multiset(prev)
    ensures multiset(prev) - multiset(d.del) + multiset(d.add) == multiset(cur)
    ensures d.add == [] && d.del == [] <==> multiset(prev) == multiset(cur)
  {
    var p, c := multiset(prev), multiset(cur);
    if p == c {
      assert p - c == multiset{} && c - p == multiset{};
      assert |multiset(d.add)| == 0 && |multiset(d.del)| == 0;
    }
    if d.add == [] && d.del == [] {
      assert c - p == multiset{} && p - c == multiset{};
      forall x ensures p[x] == c[x] {
        assert (c - p)[x] == 0 && (p - c)[x] == 0;
      }
    }
  }

  /** The outer loop's state after i current nodes: what is matched is accounted for on both sides. */
  ghost predicate Matched(prev: seq<Node>, cur: seq<Node>, i: nat, used: seq<bool>, add: seq<Node>)
  {
    && i <= |cur| && |used| == |prev|
    && multiset(add) == multiset(cur[..i]) - multiset(prev)
    && multiset(Unused(prev, used, |prev|)) == multiset(prev) - multiset(cur[..i])
  }

  lemma MatchedHit(prev: seq<Node>, cur: seq<Node>, i: nat, used: seq<bool>, add: seq<Node>, j: nat)
    requires Matched(prev, cur, i, used, add) && i < |cur| && j < |prev| && !used[j] && prev[j] == cur[i]
    ensures Matched(prev, cur, i + 1, used[j := true], add)
  {
    hide Unused;
    UseOne(prev, used, j, |prev|);
    TakeNext(cur, i);
    MoveOne(multiset(prev), multiset(cur[..i]), cur[i], multiset(Unused(prev, used[j := true], |prev|)));
  }

  /** Counting one more matched x on both sides. */
  lemma MoveOne(p: multiset<Node>, c: multiset<Node>, x: Node, v: multiset<Node>)
    requires p - c == v + multiset{x}
    ensures p - (c + multiset{x}) == v && (c + multiset{x}) - p == c - p
  {
    assert (p - c)[x] == v[x] + 1;
    forall y ensures (p - (c + multiset{x}))[y] == v[y] && ((c + multiset{x}) - p)[y] == (c - p)[y] {
      assert (p - c)[y] == (v + multiset{x})[y];
    }
  }

  lemma MissOne(p: multiset<Node>, c: multiset<Node>, x: Node)
    requires (p - c)[x] == 0
    ensures p - (c + multiset{x}) == p - c && (c + multiset{x}) - p == (c - p) + multiset{x}
  {
    assert p[x] <= c[x];
  }

  lemma MatchedMiss(prev: seq<Node>, cur: seq<Node>, i: nat, used: seq<bool>, add: seq<Node>)
    requires Matched(prev, cur, i, used, add) && i < |cur|
    requires forall j | 0 <= j < |prev| :: used[j] || prev[j] != cur[i]
    ensures Matched(prev, cur, i + 1, used, add + [cur[i]])
  {
    hide Unused;
    NotUnused(prev, used, cur[i], |prev|);
    TakeNext(cur, i);
    MissOne(multiset(prev), multiset(cur[..i]), cur[i]);
  }

  lemma TakeNext(cur: seq<Node>, i: nat)
    requires i < |cur|
    ensures multiset(cur[..i + 1]) == multiset(cur[..i]) + multiset{cur[i]}
  {
    assert cur[..i + 1] == cur[..i] + [cur[i]];
  }

  /** The search for an unused equal node. */
  method FindHit(prev: seq<Node>, used: array<bool>, x: Node) returns (hit: int)
    requires used.Length == |prev|
    ensures hit >= 0 ==> hit < |prev| && !used[hit] && prev[hit] == x
                         && forall k | 0 <= k < hit :: used[k] || prev[k] != x
    ensures hit < 0 ==> forall j | 0 <= j < |prev| :: used[j] || prev[j] != x
  {
    for j := 0 to |prev|
      invariant forall k | 0 <= k < j :: used[k] || prev[k] != x
    {
      if !used[j] && prev[j] == x { return j; }
    }
    hit := -1;
  }

  /** The matching of scene_diag on lists of at most 64 nodes. */
  method Diff(prev: seq<Node>, cur: seq<Node>) returns (d: Delta)
    requires |prev| <= CAP && |cur| <= CAP
    ensures IsDelta(prev, cur, d)
  {
    hide Unused, Matched;
    var used := new bool[|prev|](_ => false);
    var add, del := [], [];
    MatchedStart(prev, cur, used[..]);
    for i := 0 to |cur|
      invariant Matched(prev, cur, i, used[..], add)
    {
      var hit := FindHit(prev, used, cur[i]);
      if hit >= 0 {
        MatchedHit(prev, cur, i, used[..], add, hit);
        used[hit] := true;
      } else {
        MatchedMiss(prev, cur, i, used[..], add);
        add := add + [cur[i]];
      }
    }
    ghost var u := used[..];
    MatchedEnd(prev, cur, u, add);
    NoneYet(prev, u);
    for j := 0 to |prev|
      invariant used[..] == u && del == Unused(prev, u, j)
    {
      UnusedNext(prev, u, j);
      if !used[j] { del := del + [prev[j]]; }
    }
    d := Delta(add, del);
  }

  lemma MatchedStart(prev: seq<Node>, cur: seq<Node>, used: seq<bool>)
    requires |used| == |prev| && forall j | 0 <= j < |prev| :: !used[j]
    ensures Matched(prev, cur, 0, used, [])
  {
    AllUnused(prev, used, |prev|);
    assert prev[..|prev|] == prev && cur[..0] == [];
  }

  lemma NoneYet(prev: seq<Node>, used: seq<bool>)
    requires |used| == |prev|
    ensures Unused(prev, used, 0) == []
  {
  }

  lemma UnusedNext(prev: seq<Node>, used: seq<bool>, j: nat)
    requires |used| == |prev| && j < |prev|
    ensures Unused(prev, used, j + 1) == if used[j] then Unused(prev, used, j) else Unused(prev, used, j) + [prev[j]]
  {
  }

  lemma MatchedEnd(prev: seq<Node>, cur: seq<Node>, used: seq<bool>, add: seq<Node>)
    requires Matched(prev, cur, |cur|, used, add)
    ensures IsDelta(prev, cur, Delta(add, Unused(prev, used, |prev|)))
  {
    assert cur[..|cur|] == cur;
  }

  // ------------------------------------------------------------ replaying deltas

  ghost predicate AreDeltas(frames: seq<seq<Node>>, ds: seq<Delta>)
  {
    |frames| == |ds| + 1 && forall i: nat | i < |ds| :: IsDelta(frames[i], frames[i + 1], ds[i])
  }

  /** A viewer holding the first scene and applying every delta logged since. */
  ghost function Replay(first: multiset<Node>, ds: seq<Delta>): multiset<Node>
  {
    if ds == [] then first
    else Replay(first, ds[..|ds| - 1]) - multiset(ds[|ds| - 1].del) + multiset(ds[|ds| - 1].add)
  }

  /** Replaying the deltas of any run rebuilds the scene after each frame. */
  lemma {:induction false} ReplayRebuilds(frames: seq<seq<Node>>, ds: seq<Delta>)
    requires AreDeltas(frames, ds)
    ensures Replay(multiset(frames[0]), ds) == multiset(frames[|ds|])
  {
    if ds != [] {
      var n := |ds| - 1;
      ReplayRebuilds(frames[..|ds|], ds[..n]);
      assert IsDelta(frames[n], frames[n + 1], ds[n]);
      DeltaLaws(frames[n], frames[n + 1], ds[n]);
    }
  }

  /** The static state of scene_diag: the list of the previous frame and what has been logged. */
  class SceneLog {
    var seeded: bool
    var prev: seq<Node>
    var log: seq<Delta>
    ghost var first: multiset<Node>

    /** The first scene and the deltas logged since give the scene of the last frame. */
    ghost predicate Valid()
      reads this
    {
      |prev| <= CAP && (if seeded then Replay(first, log) == multiset(prev) else log == [])
    }

    constructor ()
      ensures Valid() && !seeded && log == []
    {
      seeded, prev, log := false, [], [];
    }

    /** One frame: the first only seeds the list; later ones log their delta unless it is empty. */
    method Observe(cur: seq<Node>)
      requires Valid() && |cur| <= CAP
      modifies this
      ensures Valid() && seeded && prev == cur
      ensures if !old(seeded) then log == [] && first == multiset(cur)
              else first == old(first)
                   && if multiset(cur) == multiset(old(prev)) then log == old(log)
                      else exists d :: log == old(log) + [d] && IsDelta(old(prev), cur, d)
    {
      hide Replay, IsDelta;
      if !seeded {
        first := multiset(cur);
        ReplayNone(first);
        seeded := true;
      } else {
        var d := Diff(prev, cur);
        DeltaLaws(prev, cur, d);
        if d.add != [] || d.del != [] {
          ReplayMore(first, log, d);
          log := log + [d];
        }
      }
      prev := cur;
    }
  }

  lemma ReplayNone(first: multiset<Node>)
    ensures Replay(first, []) == first
  {
  }

  lemma ReplayMore(first: multiset<Node>, ds: seq<Delta>, d: Delta)
    ensures Replay(first, ds + [d]) == Replay(first, ds) - multiset(d.del) + multiset(d.add)
  {
    assert (ds + [d])[..|ds|] == ds;
  }
}
