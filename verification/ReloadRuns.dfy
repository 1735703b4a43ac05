/** What holds over every run of the module swap, in every interleaving of hooks and loader. */
module ReloadRuns {
  import opened Wrappers
  import opened HotReload

  /** A run: the states passed through, starting from nothing loaded, and the steps between them. */
  ghost predicate IsRun(run: seq<State>, steps: seq<Step>) {
    && |run| == |steps| + 1 && Initial(run[0])
    && forall i: nat | i < |steps| :: Enabled(run[i], steps[i]) && run[i + 1] == Do(run[i], steps[i])
  }

  lemma {:induction false} RunInv(run: seq<State>, steps: seq<Step>, i: nat)
    requires IsRun(run, steps) && i < |run|
    ensures Inv(run[i])
  {
    hide Inv, Do, Enabled;
    if i == 0 {
      InitialInv(run[0]);
    } else {
      RunInv(run, steps, i - 1);
      StepInv(run[i - 1], steps[i - 1]);
    }
  }

  lemma InvSafe(s: State, m: Module)
    requires Inv(s) && Executes(s, m)
    ensures Live(s, m)
  {
  }

  /** In every interleaving no thread executes, or holds a table of, a module that is unloaded:
      neither a hook between any two of its reads of g_api nor do_load querying and binding. */
  lemma NoUnloadedCode(run: seq<State>, steps: seq<Step>, i: nat, m: Module)
    requires IsRun(run, steps) && i < |run| && Executes(run[i], m)
    ensures Live(run[i], m)
  {
    hide Inv, Live, Executes, IsRun;
    RunInv(run, steps, i);
    InvSafe(run[i], m);
  }

  /** The reads of g_api inside one locked hook all see one table, the one current while it runs. */
  lemma ReadsAgree(run: seq<State>, steps: seq<Step>, i: nat, t: nat)
    requires IsRun(run, steps) && i < |run| && t in run[i].hooks && run[i].hooks[t].Running?
    ensures var h := run[i].hooks[t]; h.first == h.second == h.third && run[i].api == Some(h.third)
  {
    hide IsRun;
    RunInv(run, steps, i);
  }

  /** A hook that has seen a table never finds g_api null at its later reads: the source's second
      and third dereference cannot fault. */
  lemma NeverNull(run: seq<State>, steps: seq<Step>, i: nat, t: nat)
    requires IsRun(run, steps) && i < |run| && t in run[i].hooks
    requires run[i].hooks[t].Tested? || run[i].hooks[t].Found?
    ensures run[i].api.Some?
  {
    hide IsRun;
    RunInv(run, steps, i);
  }

  /** Whenever the loader is idle, every module ever loaded is either current and not freed, or
      freed exactly once; nothing else was freed; and the module handle and the table agree. */
  lemma FreedOnce(run: seq<State>, steps: seq<Step>, i: nat, m: Module)
    requires IsRun(run, steps) && i < |run|
    ensures run[i].freed[m] <= 1 && (m !in run[i].loaded ==> run[i].freed[m] == 0)
    ensures run[i].loader.Idle? ==> run[i].api == run[i].mod
    ensures run[i].loader.Idle? && m in run[i].loaded ==> run[i].freed[m] == if run[i].mod == Some(m) then 0 else 1
  {
    hide IsRun;
    RunInv(run, steps, i);
  }

  // ------------------------------------------------------------ what a reload can change

  /** The published table changes only by SetApi, and then to a newer module. */
  lemma ApiStep(s: State, e: Step)
    requires Inv(s) && Enabled(s, e)
    ensures e.SetApi? ==> Do(s, e).api == Some(s.gen) && (s.api.Some? ==> s.api.value < s.gen)
    ensures !e.SetApi? ==> Do(s, e).api == s.api
  {
  }

  predicate NotOlder(a: Option<Module>, b: Option<Module>) {
    a.Some? ==> b.Some? && a.value <= b.value
  }

  /** Hooks never go back to an older module: the table read later in a run is never older. */
  lemma {:induction false} Monotone(run: seq<State>, steps: seq<Step>, i: nat, j: nat)
    requires IsRun(run, steps) && i <= j < |run|
    ensures NotOlder(run[i].api, run[j].api)
  {
    hide Inv, Do, Enabled;
    if i < j {
      Monotone(run, steps, i, j - 1);
      RunInv(run, steps, j - 1);
      ApiStep(run[j - 1], steps[j - 1]);
    }
  }

  /** While a hook stays between ENTER and LEAVE, the table does not change under it. */
  lemma {:induction false} StableInside(run: seq<State>, steps: seq<Step>, i: nat, j: nat, t: nat)
    requires IsRun(run, steps) && i <= j < |run| && forall k: nat | i <= k <= j :: t in run[k].hooks
    ensures run[i].api == run[j].api
  {
    if i < j {
      StableInside(run, steps, i, j - 1, t);
      RunInv(run, steps, j - 1);
      ApiStep(run[j - 1], steps[j - 1]);
      HeldOut(run[j - 1], t);
    }
  }

  lemma HeldOut(s: State, t: nat)
    requires Inv(s) && t in s.hooks
    ensures !Exclusive(s)
  {
  }

  /** No module is published between i and j. */
  predicate NoPublish(steps: seq<Step>, i: nat, j: nat) {
    i <= j <= |steps| && forall k: nat | i <= k < j :: !steps[k].SetApi?
  }

  /** A stretch between two loads in which nothing is published leaves table and handle alone. */
  lemma QuietStretch(run: seq<State>, steps: seq<Step>, i: nat, j: nat)
    requires IsRun(run, steps) && NoPublish(steps, i, j) && j < |run|
    requires run[i].loader.Idle? && run[j].loader.Idle?
    ensures run[i].api == run[j].api && run[i].mod == run[j].mod
  {
    SameApi(run, steps, i, j);
    RunInv(run, steps, i);
    RunInv(run, steps, j);
  }

  lemma {:induction false} SameApi(run: seq<State>, steps: seq<Step>, i: nat, j: nat)
    requires IsRun(run, steps) && NoPublish(steps, i, j) && j < |run|
    ensures run[i].api == run[j].api
  {
    hide Inv, Do, Enabled;
    if i < j {
      SameApi(run, steps, i, j - 1);
      RunInv(run, steps, j - 1);
      ApiStep(run[j - 1], steps[j - 1]);
    }
  }

  /** Hooks see another table after a stretch of a run exactly if a load succeeded in it. */
  lemma ChangedIffPublished(run: seq<State>, steps: seq<Step>, i: nat, j: nat)
    requires IsRun(run, steps) && i <= j < |run|
    ensures run[i].api != run[j].api <==> exists k: nat :: i <= k < j && steps[k].SetApi?
  {
    hide Inv, Do, Enabled;
    if k: nat :| i <= k < j && steps[k].SetApi? {
      Monotone(run, steps, i, k);
      RunInv(run, steps, k);
      ApiStep(run[k], steps[k]);
      Monotone(run, steps, k + 1, j);
    } else {
      SameApi(run, steps, i, j);
    }
  }
}
