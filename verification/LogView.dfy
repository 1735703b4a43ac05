/**
 The virtual log view of loader.c: the entries kept, the filter, the pause switch
 and the list of indices shown.  The filter is any predicate on entries.
 */
module LogView {

  const LIMIT: nat := 80000
  const DROP: nat := 20000

  /** The indices, below m, of the entries that pass. */
  function Passing<E(!new)>(ent: seq<E>, passes: E -> bool, m: nat): (v: seq<nat>)
    requires m <= |ent|
    ensures forall k | 0 <= k < |v| :: v[k] < m
  {
    if m == 0 then [] else Passing(ent, passes, m - 1) + if passes(ent[m - 1]) then [m - 1] else []
  }

  ghost predicate Increasing(v: seq<nat>)
  {
    forall a, b | 0 <= a < b < |v| :: v[a] < v[b]
  }

  /** Passing is the one increasing list of exactly the passing indices. */
  lemma {:induction false} PassingIs<E(!new)>(ent: seq<E>, passes: E -> bool, m: nat)
    requires m <= |ent|
    ensures Increasing(Passing(ent, passes, m))
    ensures forall i: nat :: i in Passing(ent, passes, m) <==> i < m && passes(ent[i])
  {
    if m > 0 { PassingIs(ent, passes, m - 1); }
  }

  lemma {:induction false} PassingPrefix<E(!new)>(ent: seq<E>, more: seq<E>, passes: E -> bool, m: nat)
    requires m <= |ent|
    ensures Passing(ent + more, passes, m) == Passing(ent, passes, m)
  {
    if m > 0 { PassingPrefix(ent, more, passes, m - 1); }
  }

  // ------------------------------------------------------------ the view as a value

  datatype View<!E> = View(ent: seq<E>, passes: E -> bool, paused: bool, shown: seq<nat>)

  datatype Event<!E> = Append(e: E) | SetFilter(passes: E -> bool) | SetPause(on: bool) | Clear

  function Rebuilt<E(!new)>(v: View<E>): View<E> {
    v.(shown := Passing(v.ent, v.passes, |v.ent|))
  }

  /** Past the limit the oldest entries go and the view is rebuilt, paused or not. */
  function Appended<E(!new)>(v: View<E>, e: E): View<E> {
    var ent := v.ent + [e];
    if |ent| > LIMIT then Rebuilt(v.(ent := ent[DROP..]))
    else if !v.paused && v.passes(e) then v.(ent := ent, shown := v.shown + [|ent| - 1])
    else v.(ent := ent)
  }

  function Step<E(!new)>(v: View<E>, ev: Event<E>): View<E> {
    match ev
    case Append(e) => Appended(v, e)
    case SetFilter(passes) => Rebuilt(v.(passes := passes))
    case SetPause(on) => if on then v.(paused := true) else Rebuilt(v.(paused := false))
    case Clear => v.(ent := [], shown := [])
  }

  function Play<E(!new)>(v: View<E>, evs: seq<Event<E>>): View<E> {
    if evs == [] then v else Step(Play(v, evs[..|evs| - 1]), evs[|evs| - 1])
  }

  ghost predicate ShowsUpTo<E(!new)>(v: View<E>, m: nat)
  {
    m <= |v.ent| && v.shown == Passing(v.ent, v.passes, m) && (!v.paused ==> m == |v.ent|)
  }

  ghost predicate Good<E(!new)>(v: View<E>)
  {
    |v.ent| <= LIMIT && exists m: nat :: ShowsUpTo(v, m)
  }

  lemma RebuiltGood<E(!new)>(v: View<E>)
    requires |v.ent| <= LIMIT
    ensures Good(Rebuilt(v))
  {
    assert ShowsUpTo(Rebuilt(v), |v.ent|);
  }

  lemma AppendedGood<E(!new)>(v: View<E>, e: E)
    requires Good(v)
    ensures Good(Appended(v, e))
  {
    var m: nat :| ShowsUpTo(v, m);
    var ent := v.ent + [e];
    PassingPrefix(v.ent, [e], v.passes, m);
    if |ent| > LIMIT {
      RebuiltGood(v.(ent := ent[DROP..]));
    } else {
      assert ShowsUpTo(Appended(v, e), if v.paused then m else |ent|);
    }
  }

  lemma StepGood<E(!new)>(v: View<E>, ev: Event<E>)
    requires Good(v)
    ensures Good(Step(v, ev))
  {
    match ev
    case Append(e) => AppendedGood(v, e);
    case SetFilter(passes) => RebuiltGood(v.(passes := passes));
    case SetPause(on) =>
      if on {
        var m: nat :| ShowsUpTo(v, m);
        assert ShowsUpTo(Step(v, ev), m);
      } else {
        RebuiltGood(v.(paused := false));
      }
    case Clear => assert ShowsUpTo(Step(v, ev), 0);
  }

  lemma {:induction false} PlayGood<E(!new)>(v: View<E>, evs: seq<Event<E>>)
    requires Good(v)
    ensures Good(Play(v, evs))
  {
    hide Good, Step;
    if evs != [] {
      PlayGood(v, evs[..|evs| - 1]);
      StepGood(Play(v, evs[..|evs| - 1]), evs[|evs| - 1]);
    }
  }

  /** The view lists exactly the passing entries among the first m, all of them unless paused. */
  ghost predicate Lists<E(!new)>(v: View<E>, m: nat)
  {
    && m <= |v.ent| && (!v.paused ==> m == |v.ent|)
    && forall i: nat :: i in v.shown <==> i < m && v.passes(v.ent[i])
  }

  /** Over any run of appends, drops, filter changes, pause toggles and clears the list shown is the
      increasing list of exactly the indices passing the current filter among the first m entries, all
      of them unless paused; and no more than 80000 entries are kept. */
  lemma ViewSound<E(!new)>(passes: E -> bool, evs: seq<Event<E>>)
    ensures var v := Play(View([], passes, false, []), evs);
            && |v.ent| <= LIMIT && Increasing(v.shown)
            && exists m: nat :: Lists(v, m)
  {
    hide Play, Increasing;
    var v0 := View([], passes, false, []);
    assert ShowsUpTo(v0, 0);
    PlayGood(v0, evs);
    var v := Play(v0, evs);
    var m: nat :| ShowsUpTo(v, m);
    PassingIs(v.ent, v.passes, m);
    assert Lists(v, m);
  }

  // ------------------------------------------------------------ what is kept

  /** The entries appended since the last clear. */
  function Arrived<E>(evs: seq<Event<E>>): seq<E> {
    if evs == [] then []
    else
      var before := Arrived(evs[..|evs| - 1]);
      match evs[|evs| - 1]
      case Append(e) => before + [e]
      case Clear => []
      case _ => before
  }

  /** How many of n entries are kept: all of the first 80000, and from then on between 60001 and 80000
      of the newest. */
  function Kept(n: nat): (k: nat)
    ensures k <= n && k <= 80000 && (n <= 80000 ==> k == n) && (n > 80000 ==> k >= 60001)
  {
    if n <= 80000 then n else 60001 + (n - 80001) % 20000
  }

  lemma KeptStep(n: nat)
    ensures Kept(n + 1) == if Kept(n) == 80000 then 60001 else Kept(n) + 1
  {
    if n > 80000 {
      var m := n - 80001;
      assert m == 20000 * (m / 20000) + m % 20000;
    }
  }

  lemma KeptAppend<E(!new)>(all: seq<E>, e: E, passes: E -> bool, paused: bool, shown: seq<nat>)
    ensures var v := View(all[|all| - Kept(|all|)..], passes, paused, shown); var more := all + [e];
            Appended(v, e).ent == more[|more| - Kept(|more|)..]
  {
    hide Kept;
    KeptStep(|all|);
    var ent := all[|all| - Kept(|all|)..];
    assert ent + [e] == (all + [e])[|all| - Kept(|all|)..];
  }

  /** The entries kept at the end of any run are the newest of those that arrived since the last clear. */
  lemma {:induction false} EntriesKept<E(!new)>(passes: E -> bool, evs: seq<Event<E>>)
    ensures var all := Arrived(evs);
            Play(View([], passes, false, []), evs).ent == all[|all| - Kept(|all|)..]
  {
    hide Kept, Appended;
    if evs != [] {
      var front, last := evs[..|evs| - 1], evs[|evs| - 1];
      EntriesKept(passes, front);
      var v := Play(View([], passes, false, []), front);
      if last.Append? { KeptAppend(Arrived(front), last.e, v.passes, v.paused, v.shown); }
    }
  }

  /** The filter in force is the last one set. */
  lemma {:induction false} LastFilter<E(!new)>(v0: View<E>, evs: seq<Event<E>>, k: nat)
    requires k < |evs| && evs[k].SetFilter? && forall i | k < i < |evs| :: !evs[i].SetFilter?
    ensures Play(v0, evs).passes == evs[k].passes
  {
    var n := |evs| - 1;
    if k < n { LastFilter(v0, evs[..n], k); }
  }

  /** The view is paused exactly if the last toggle says so. */
  lemma {:induction false} LastToggle<E(!new)>(v0: View<E>, evs: seq<Event<E>>, k: nat)
    requires k < |evs| && evs[k].SetPause? && forall i | k < i < |evs| :: !evs[i].SetPause?
    ensures Play(v0, evs).paused == evs[k].on
  {
    var n := |evs| - 1;
    if k < n { LastToggle(v0, evs[..n], k); }
  }

  /** Between drops, nothing that arrives while paused changes what is shown. */
  lemma {:induction false} Frozen<E(!new)>(v: View<E>, more: seq<Event<E>>)
    requires v.paused && |v.ent| + |more| <= 80000 && forall i | 0 <= i < |more| :: more[i].Append?
    ensures Play(v, more).shown == v.shown && Play(v, more).paused && |Play(v, more).ent| == |v.ent| + |more|
  {
    if more != [] { Frozen(v, more[..|more| - 1]); }
  }

  /** In a view that is not paused, exactly the passing entries kept are shown. */
  lemma ShownIs<E(!new)>(passes: E -> bool, evs: seq<Event<E>>)
    requires !Play(View([], passes, false, []), evs).paused
    ensures var v := Play(View([], passes, false, []), evs);
            Increasing(v.shown) && forall i: nat :: i in v.shown <==> i < |v.ent| && v.passes(v.ent[i])
  {
    hide Play, Increasing;
    ViewSound(passes, evs);
  }

  // ------------------------------------------------------------ the view object

  class LogWindow<E(!new)> {
    var ent: seq<E>
    var passes: E -> bool
    var paused: bool
    var shown: seq<nat>

    function Value(): View<E>
      reads this
    {
      View(ent, passes, paused, shown)
    }

    /** No more entries than the limit, and the view in step with them. */
    ghost predicate Valid()
      reads this
    {
      Good(Value())
    }

    constructor (flt: E -> bool)
      ensures Valid() && Value() == View([], flt, false, [])
    {
      ent, passes, paused, shown := [], flt, false, [];
      new;
      FreshGood(flt);
    }

    /** view_push. */
    method ViewPush(i: nat)
      requires i < |ent|
      modifies `shown
      ensures shown == old(shown) + [i]
    {
      shown := shown + [i];
    }

    /** view_rebuild, which also repairs a view whose indices no longer fit. */
    method Rebuild()
      requires |ent| <= LIMIT
      modifies `shown
      ensures Valid() && Value() == Rebuilt(old(Value()))
    {
      shown := [];
      for i := 0 to |ent|
        invariant shown == Passing(ent, passes, i)
      {
        if passes(ent[i]) { ViewPush(i); }
      }
      RebuiltGood(Value());
    }

    /** The tail of ingest. */
    method Ingest(e: E)
      requires Valid()
      modifies `ent, `shown
      ensures Valid() && Value() == Appended(old(Value()), e)
    {
      hide Good;
      Bounded(Value());
      AppendedGood(Value(), e);
      ent := ent + [e];
      if |ent| > LIMIT {
        ent := ent[DROP..];
        Rebuild();
      } else if !paused && passes(e) {
        ViewPush(|ent| - 1);
      }
    }

    /** The filter box and the two check boxes. */
    method ApplyFilter(flt: E -> bool)
      requires Valid()
      modifies `passes, `shown
      ensures Valid() && Value() == Step(old(Value()), SetFilter(flt))
    {
      hide Good;
      Bounded(Value());
      passes := flt;
      Rebuild();
    }

    /** The pause button. */
    method Pause(on: bool)
      requires Valid()
      modifies `paused, `shown
      ensures Valid() && Value() == Step(old(Value()), SetPause(on))
    {
      hide Good;
      Bounded(Value());
      StepGood(Value(), SetPause(on));
      paused := on;
      if !paused { Rebuild(); }
    }

    /** log_clear. */
    method LogClear()
      requires Valid()
      modifies `ent, `shown
      ensures Valid() && Value() == Step(old(Value()), Event<E>.Clear)
    {
      hide Good;
      StepGood(Value(), Event<E>.Clear);
      ent := [];
      shown := [];
    }
  }

  lemma FreshGood<E(!new)>(passes: E -> bool)
    ensures Good(View([], passes, false, []))
  {
    assert ShowsUpTo(View([], passes, false, []), 0);
  }

  lemma Bounded<E(!new)>(v: View<E>)
    requires Good(v)
    ensures |v.ent| <= LIMIT
  {
  }
}
