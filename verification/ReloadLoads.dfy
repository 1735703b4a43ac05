/**
 What the outcomes of the individual calls decide, over every run of the module swap:
 which loads publish their module and which hooks reach it.
 */
module ReloadLoads {
  import opened Wrappers
  import opened HotReload
  import opened ReloadRuns

  // ------------------------------------------------------------ one load

  /** The loader's steps, in order, since the last load began, among the first i steps. */
  function LoadSteps(steps: seq<Step>, i: nat): (tr: seq<Step>)
    requires i <= |steps|
  {
    if i == 0 then []
    else if steps[i - 1].Copy? then [Copy]
    else if HookStep(steps[i - 1]) then LoadSteps(steps, i - 1)
    else LoadSteps(steps, i - 1) + [steps[i - 1]]
  }

  /** When that load began. */
  function LoadStart(steps: seq<Step>, i: nat): (c: nat)
    requires i <= |steps|
    ensures c <= i
  {
    if i == 0 then 0
    else if steps[i - 1].Copy? then i - 1
    else LoadStart(steps, i - 1)
  }

  /** A load whose three checks all succeed. */
  function Passed(): seq<Step> {
    [Copy, LoadLibrary(true), GetApi(true), Bind(true)]
  }

  function Published(): seq<Step> {
    Passed() + [AcquireExclusive, SetMod, SetApi, ReleaseExclusive, FreeOld]
  }

  /** The only ways a load ends: one of the three checks fails, or it runs to its end. */
  predicate Failed(tr: seq<Step>) {
    || tr == [Copy, LoadLibrary(false)]
    || tr == [Copy, LoadLibrary(true), GetApi(false)]
    || tr == [Copy, LoadLibrary(true), GetApi(true), Bind(false)]
  }

  /** What a loader that is somewhere has done since the load began. */
  predicate TraceOf(l: Loader, tr: seq<Step>) {
    match l
    case Idle => tr == [] || Failed(tr) || tr == Published()
    case Copied => tr == [Copy]
    case Loaded(_) => tr == [Copy, LoadLibrary(true)]
    case Queried(_) => tr == [Copy, LoadLibrary(true), GetApi(true)]
    case Bound(_) => tr == Passed()
    case Holding(_) => tr == Passed() + [AcquireExclusive]
    case ModSet(_, _) => tr == Passed() + [AcquireExclusive, SetMod]
    case ApiSet(_, _) => tr == Passed() + [AcquireExclusive, SetMod, SetApi]
    case Released(_) => tr == Passed() + [AcquireExclusive, SetMod, SetApi, ReleaseExclusive]
  }

  function One(o: Option<Module>): multiset<Module> {
    if o.None? then multiset{} else multiset{o.value}
  }

  /** How a state differs from the one in which the load of the given trace began. */
  predicate Since(a: State, s: State, tr: seq<Step>) {
    var m := a.gen + 1;
    && s.gen == m
    && s.loaded == (if tr == [Copy] || tr == [Copy, LoadLibrary(false)] then a.loaded else a.loaded + {m})
    && match s.loader
       case Idle =>
         if tr == Published() then s.mod == s.api == Some(m) && s.freed == a.freed + One(a.mod)
         else s.mod == a.mod && s.api == a.api
              && s.freed == a.freed + if tr == [Copy, LoadLibrary(false)] then multiset{} else multiset{m}
       case Copied => s.mod == a.mod && s.api == a.api && s.freed == a.freed
       case Loaded(n) => n == m && s.mod == a.mod && s.api == a.api && s.freed == a.freed
       case Queried(n) => n == m && s.mod == a.mod && s.api == a.api && s.freed == a.freed
       case Bound(n) => n == m && s.mod == a.mod && s.api == a.api && s.freed == a.freed
       case Holding(n) => n == m && s.mod == a.mod && s.api == a.api && s.freed == a.freed
       case ModSet(n, prev) => n == m && prev == a.mod && s.mod == Some(m) && s.api == a.api && s.freed == a.freed
       case ApiSet(n, prev) => n == m && prev == a.mod && s.mod == s.api == Some(m) && s.freed == a.freed
       case Released(prev) => prev == a.mod && s.mod == s.api == Some(m) && s.freed == a.freed
  }

  lemma TraceHook(s: State, e: Step, tr: seq<Step>)
    requires TraceOf(s.loader, tr) && Enabled(s, e) && HookStep(e)
    ensures TraceOf(Do(s, e).loader, tr)
  {
    hide Published, Passed, Failed;
    assert Do(s, e).loader == s.loader;
  }

  lemma TraceLoad(s: State, e: Step, tr: seq<Step>)
    requires TraceOf(s.loader, tr) && Enabled(s, e) && !HookStep(e)
    ensures TraceOf(Do(s, e).loader, if e.Copy? then [Copy] else tr + [e])
  {
  }

  /** At every moment of every run the loader has done exactly what its place says. */
  lemma {:induction false} LoadTrace(run: seq<State>, steps: seq<Step>, i: nat)
    requires IsRun(run, steps) && i < |run|
    ensures TraceOf(run[i].loader, LoadSteps(steps, i))
  {
    hide TraceOf, Do, Enabled;
    if i == 0 {
      NothingYet(run[0]);
    } else {
      LoadTrace(run, steps, i - 1);
      if HookStep(steps[i - 1]) {
        TraceHook(run[i - 1], steps[i - 1], LoadSteps(steps, i - 1));
      } else {
        TraceLoad(run[i - 1], steps[i - 1], LoadSteps(steps, i - 1));
      }
    }
  }

  lemma NothingYet(s: State)
    requires Initial(s)
    ensures TraceOf(s.loader, [])
  {
  }

  /** A module is published only by a load whose LoadLibrary, logic_get_api and version check all
      succeeded, in this order and for this load. */
  lemma PublishedPassed(run: seq<State>, steps: seq<Step>, k: nat)
    requires IsRun(run, steps) && k < |steps| && steps[k].SetApi?
    ensures LoadSteps(steps, k)
            == [Copy, LoadLibrary(true), GetApi(true), Bind(true), AcquireExclusive, SetMod]
    ensures run[k + 1].api == Some(run[k].gen) && run[k].gen in run[k].loaded
  {
    hide Do, Inv;
    assert Enabled(run[k], steps[k]);
    LoadTrace(run, steps, k);
    RunInv(run, steps, k);
    PublishIs(run[k]);
  }

  lemma PublishIs(s: State)
    requires Inv(s) && s.loader.ModSet?
    ensures Do(s, SetApi).api == Some(s.gen) && s.gen in s.loaded
  {
  }

  lemma SinceHook(a: State, s: State, e: Step, tr: seq<Step>)
    requires Since(a, s, tr) && Enabled(s, e) && HookStep(e)
    ensures Since(a, Do(s, e), tr)
  {
    hide Published;
    var t := Do(s, e);
    assert t.(hooks := s.hooks) == s;
  }

  lemma SinceCopy(a: State)
    requires Enabled(a, Copy)
    ensures Since(a, Do(a, Copy), [Copy])
  {
  }

  lemma SinceCheck(a: State, s: State, e: Step, tr: seq<Step>)
    requires Since(a, s, tr) && TraceOf(s.loader, tr) && Enabled(s, e) && (e.LoadLibrary? || e.GetApi? || e.Bind?)
    ensures Since(a, Do(s, e), tr + [e])
  {
    if e.LoadLibrary? {
      assert tr + [e] == [Copy, e];
    } else {
      assert (tr + [e])[1] == LoadLibrary(true) && |tr + [e]| > 2;
    }
  }

  lemma SinceSwap(a: State, s: State, e: Step, tr: seq<Step>)
    requires Since(a, s, tr) && TraceOf(s.loader, tr) && Enabled(s, e)
    requires e.AcquireExclusive? || e.SetMod? || e.SetApi? || e.ReleaseExclusive? || e.FreeOld?
    ensures Since(a, Do(s, e), tr + [e])
  {
  }

  /** From the beginning of a load on, the state differs from what it was exactly as the steps of the
      load say, whatever the hooks do in between. */
  lemma {:induction false} LoadSince(run: seq<State>, steps: seq<Step>, i: nat)
    requires IsRun(run, steps) && i < |run| && LoadSteps(steps, i) != []
    ensures LoadStart(steps, i) < i && run[LoadStart(steps, i)].loader.Idle?
    ensures Since(run[LoadStart(steps, i)], run[i], LoadSteps(steps, i))
  {
    hide Since, TraceOf, Do;
    var e, s := steps[i - 1], run[i - 1];
    assert Enabled(s, e);
    if e.Copy? {
      SinceCopy(s);
    } else {
      LoadTrace(run, steps, i - 1);
      if LoadSteps(steps, i - 1) == [] { NotBefore(s, e); }
      LoadSince(run, steps, i - 1);
      var a, tr := run[LoadStart(steps, i)], LoadSteps(steps, i - 1);
      if HookStep(e) {
        SinceHook(a, s, e, tr);
      } else if e.LoadLibrary? || e.GetApi? || e.Bind? {
        SinceCheck(a, s, e, tr);
      } else {
        SinceSwap(a, s, e, tr);
      }
    }
  }

  /** Before the first load only hooks and the beginning of a load can happen. */
  lemma NotBefore(s: State, e: Step)
    requires TraceOf(s.loader, []) && Enabled(s, e)
    ensures e.Copy? || HookStep(e)
  {
  }

  /** What a load leaves behind once it has ended: if LoadLibrary, logic_get_api or the version check
      failed, the table and the module handle of before and the new module, if it was loaded at all,
      freed once; otherwise the new module as table and handle, and the module of before freed. */
  lemma LoadOutcome(run: seq<State>, steps: seq<Step>, i: nat)
    requires IsRun(run, steps) && i < |run| && LoadSteps(steps, i) != [] && run[i].loader.Idle?
    ensures var tr, a, s := LoadSteps(steps, i), run[LoadStart(steps, i)], run[i];
            var m := a.gen + 1;
            if Bind(true) in tr then
              && LoadLibrary(true) in tr && GetApi(true) in tr
              && s.api == s.mod == Some(m) && s.freed == a.freed + One(a.mod)
            else
              && (LoadLibrary(false) in tr || GetApi(false) in tr || Bind(false) in tr)
              && s.api == a.api && s.mod == a.mod
              && s.freed == a.freed + if LoadLibrary(true) in tr then multiset{m} else multiset{}
  {
    hide IsRun;
    LoadTrace(run, steps, i);
    LoadSince(run, steps, i);
  }

  // ------------------------------------------------------------ loads in a stretch of a run

  /** While no load passes its last check, nothing new is published. */
  predicate NonePasses(steps: seq<Step>, i: nat, j: nat) {
    i <= j <= |steps| && forall k: nat | i <= k < j :: steps[k] != Bind(true)
  }

  /** Publishing in a stretch that begins between two loads means that a load passed in it. */
  lemma {:induction false} PassedBetween(run: seq<State>, steps: seq<Step>, i: nat, j: nat)
    requires IsRun(run, steps) && i <= j < |run| && run[i].loader.Idle? && NonePasses(steps, i, j)
    ensures run[j].loader.Idle? || run[j].loader.Copied? || run[j].loader.Loaded? || run[j].loader.Queried?
  {
    hide Inv;
    if i < j {
      PassedBetween(run, steps, i, j - 1);
      assert Enabled(run[j - 1], steps[j - 1]);
      StaysBefore(run[j - 1], steps[j - 1]);
    }
  }

  lemma StaysBefore(s: State, e: Step)
    requires s.loader.Idle? || s.loader.Copied? || s.loader.Loaded? || s.loader.Queried?
    requires Enabled(s, e) && e != Bind(true)
    ensures var l := Do(s, e).loader; l.Idle? || l.Copied? || l.Loaded? || l.Queried?
    ensures !e.SetApi?
  {
  }

  lemma {:induction false} NoneSets(run: seq<State>, steps: seq<Step>, i: nat, j: nat)
    requires IsRun(run, steps) && i <= j < |run| && run[i].loader.Idle? && NonePasses(steps, i, j)
    ensures NoPublish(steps, i, j)
  {
    hide IsRun, Do;
    if i < j {
      NoneSets(run, steps, i, j - 1);
      PassedBetween(run, steps, i, j - 1);
      StepEnabled(run, steps, j - 1);
      assert steps[j - 1] != Bind(true);
      StaysBefore(run[j - 1], steps[j - 1]);
    }
  }

  lemma StepEnabled(run: seq<State>, steps: seq<Step>, k: nat)
    requires IsRun(run, steps) && k < |steps|
    ensures Enabled(run[k], steps[k])
  {
  }

  /** Loads that fail, at any of the three checks, however many and with any hook steps in between,
      leave the published table and the module handle as they were. */
  lemma FailedLoadChangesNothing(run: seq<State>, steps: seq<Step>, i: nat, j: nat)
    requires IsRun(run, steps) && i <= j < |run| && run[i].loader.Idle? && run[j].loader.Idle?
    requires forall k: nat | i <= k < j :: steps[k] != Bind(true)
    ensures run[i].api == run[j].api && run[i].mod == run[j].mod
  {
    hide Do, Enabled, Initial;
    NoneSets(run, steps, i, j);
    QuietStretch(run, steps, i, j);
  }

  /** Once a load that passed its checks has ended, its module, or a newer one, is the table. */
  lemma {:induction false} PassedPublishes(run: seq<State>, steps: seq<Step>, k: nat, j: nat)
    requires IsRun(run, steps) && k < j < |run| && steps[k] == Bind(true) && run[j].loader.Idle?
    ensures exists p: nat :: k < p < j && steps[p].SetApi?
  {
    hide Inv, Do;
    StepEnabled(run, steps, k);
    if forall p: nat | k < p < j :: !steps[p].SetApi? {
      NotYet(run, steps, k, j);
      assert false;
    }
  }

  lemma {:induction false} NotYet(run: seq<State>, steps: seq<Step>, k: nat, j: nat)
    requires IsRun(run, steps) && k < j < |run| && steps[k] == Bind(true)
    requires forall p: nat | k < p < j :: !steps[p].SetApi?
    ensures run[j].loader.Bound? || run[j].loader.Holding? || run[j].loader.ModSet?
  {
    StepEnabled(run, steps, j - 1);
    if k < j - 1 { NotYet(run, steps, k, j - 1); }
  }

  /** Between two moments without a load under way, the table changed exactly if a load passed all
      three checks in between. */
  lemma ChangedIffPassed(run: seq<State>, steps: seq<Step>, i: nat, j: nat)
    requires IsRun(run, steps) && i <= j < |run| && run[i].loader.Idle? && run[j].loader.Idle?
    ensures run[i].api != run[j].api <==> exists k: nat :: i <= k < j && steps[k] == Bind(true)
  {
    hide Do, Inv, Initial;
    if k: nat :| i <= k < j && steps[k] == Bind(true) {
      PassedPublishes(run, steps, k, j);
      ChangedIffPublished(run, steps, i, j);
    } else {
      FailedLoadChangesNothing(run, steps, i, j);
    }
  }

  // ------------------------------------------------------------ one hook call

  predicate Of(e: Step, t: nat) {
    match e
    case Enter(u) => u == t
    case Test(u) => u == t
    case Find(u, _) => u == t
    case Call(u) => u == t
    case Return(u) => u == t
    case Leave(u) => u == t
    case _ => false
  }

  /** The steps of thread t, in order, since it last entered a hook. */
  function HookSteps(steps: seq<Step>, i: nat, t: nat): (tr: seq<Step>)
    requires i <= |steps|
  {
    if i == 0 then []
    else if steps[i - 1] == Enter(t) then [Enter(t)]
    else if Of(steps[i - 1], t) then HookSteps(steps, i - 1, t) + [steps[i - 1]]
    else HookSteps(steps, i - 1, t)
  }

  /** A hook has done what its place says: it goes on past the test exactly if a table is published,
      calls exactly if this table has the function, and leaves without a call otherwise. */
  predicate HookTraceOf(h: Hook, t: nat, api: Option<Module>, tr: seq<Step>) {
    match h
    case Entered => tr == [Enter(t)]
    case Tested(_) => tr == [Enter(t), Test(t)] && api.Some?
    case Found(_, _) => tr == [Enter(t), Test(t), Find(t, true)] && api.Some?
    case Running(_, _, _) => tr == [Enter(t), Test(t), Find(t, true), Call(t)] && api.Some?
    case Leaving =>
      || (tr == [Enter(t), Test(t)] && api.None?)
      || (tr == [Enter(t), Test(t), Find(t, false)] && api.Some?)
      || (tr == [Enter(t), Test(t), Find(t, true), Call(t), Return(t)] && api.Some?)
  }

  lemma HookStepTrace(s: State, e: Step, t: nat, tr: seq<Step>)
    requires Enabled(s, e) && t in Do(s, e).hooks
    requires t in s.hooks ==> HookTraceOf(s.hooks[t], t, s.api, tr) && !Exclusive(s)
    ensures HookTraceOf(Do(s, e).hooks[t], t, Do(s, e).api,
                        if e == Enter(t) then [Enter(t)] else if Of(e, t) then tr + [e] else tr)
  {
    if Of(e, t) {
    } else {
      assert t in s.hooks && Do(s, e).hooks[t] == s.hooks[t];
    }
  }

  /** Over every run and for every thread inside a hook. */
  lemma {:induction false} HookTrace(run: seq<State>, steps: seq<Step>, i: nat, t: nat)
    requires IsRun(run, steps) && i < |run| && t in run[i].hooks
    ensures HookTraceOf(run[i].hooks[t], t, run[i].api, HookSteps(steps, i, t))
  {
    hide HookTraceOf, Do, Inv;
    if i == 0 {
      assert false;
    } else {
      StepEnabled(run, steps, i - 1);
      if t in run[i - 1].hooks {
        HookTrace(run, steps, i - 1, t);
        RunInv(run, steps, i - 1);
        HeldOut(run[i - 1], t);
      }
      HookStepTrace(run[i - 1], steps[i - 1], t, HookSteps(steps, i - 1, t));
    }
  }
}
