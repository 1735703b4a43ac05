/**
 The swap of logic.dll while hooks keep running: do_load of reload.c against the
 hook bodies of hook.c, one atomic step per access to shared state.  The slim
 reader/writer lock is taken as a primitive: a shared acquire is enabled while
 nobody holds it exclusively, an exclusive acquire while nobody holds it at all.
 */
module HotReload {
  import opened Wrappers

  /** A module is known by the generation number in its file name; its table by the module. */
  type Module = nat

  /** Where a hook is between ENTER and LEAVE, with every value of g_api it has read. */
  datatype Hook =
    | Entered
    | Tested(first: Module)
    | Found(first: Module, second: Module)
    | Running(first: Module, second: Module, third: Module)
    | Leaving

  /** Where do_load is. */
  datatype Loader =
    | Idle
    | Copied
    | Loaded(m: Module)
    | Queried(m: Module)
    | Bound(m: Module)
    | Holding(m: Module)
    | ModSet(m: Module, prev: Option<Module>)
    | ApiSet(m: Module, prev: Option<Module>)
    | Released(prev: Option<Module>)

  datatype State = State(
    gen: nat,
    mod: Option<Module>,
    api: Option<Module>,
    loader: Loader,
    hooks: map<nat, Hook>,
    loaded: set<Module>,
    freed: multiset<Module>)

  datatype Step =
    // hook bodies
    | Enter(t: nat)
    | Test(t: nat)
    | Find(t: nat, present: bool)
    | Call(t: nat)
    | Return(t: nat)
    | Leave(t: nat)
    // do_load
    | Copy
    | LoadLibrary(ok: bool)
    | GetApi(exported: bool)
    | Bind(versionOk: bool)
    | AcquireExclusive
    | SetMod
    | SetApi
    | ReleaseExclusive
    | FreeOld

  predicate Exclusive(s: State) {
    s.loader.Holding? || s.loader.ModSet? || s.loader.ApiSet?
  }

  predicate Enabled(s: State, e: Step) {
    match e
    case Enter(t) => t !in s.hooks && !Exclusive(s)
    case Test(t) => t in s.hooks && s.hooks[t].Entered?
    case Find(t, _) => t in s.hooks && s.hooks[t].Tested? && s.api.Some?
    case Call(t) => t in s.hooks && s.hooks[t].Found? && s.api.Some?
    case Return(t) => t in s.hooks && s.hooks[t].Running?
    case Leave(t) => t in s.hooks && s.hooks[t].Leaving?
    case Copy => s.loader.Idle?
    case LoadLibrary(_) => s.loader.Copied?
    case GetApi(_) => s.loader.Loaded?
    case Bind(_) => s.loader.Queried?
    case AcquireExclusive => s.loader.Bound? && s.hooks == map[]
    case SetMod => s.loader.Holding?
    case SetApi => s.loader.ModSet?
    case ReleaseExclusive => s.loader.ApiSet?
    case FreeOld => s.loader.Released?
  }

  function Free(s: State, m: Module): State {
    s.(freed := s.freed + multiset{m})
  }

  function SetHook(s: State, t: nat, h: Hook): State {
    s.(hooks := s.hooks[t := h])
  }

  function Do(s: State, e: Step): State
    requires Enabled(s, e)
  {
    match e
    case Enter(t) => SetHook(s, t, Entered)
    case Test(t) => SetHook(s, t, if s.api.Some? then Tested(s.api.value) else Leaving)
    case Find(t, present) =>
      SetHook(s, t, if present then Found(s.hooks[t].first, s.api.value) else Leaving)
    case Call(t) => SetHook(s, t, Running(s.hooks[t].first, s.hooks[t].second, s.api.value))
    case Return(t) => SetHook(s, t, Leaving)
    case Leave(t) => s.(hooks := map u | u in s.hooks && u != t :: s.hooks[u])
    case Copy => s.(gen := s.gen + 1, loader := Copied)
    case LoadLibrary(ok) =>
      if ok then s.(loader := Loaded(s.gen), loaded := s.loaded + {s.gen}) else s.(loader := Idle)
    case GetApi(exported) =>
      if exported then s.(loader := Queried(s.loader.m)) else Free(s, s.loader.m).(loader := Idle)
    case Bind(versionOk) =>
      if versionOk then s.(loader := Bound(s.loader.m)) else Free(s, s.loader.m).(loader := Idle)
    case AcquireExclusive => s.(loader := Holding(s.loader.m))
    case SetMod => s.(loader := ModSet(s.loader.m, s.mod), mod := Some(s.loader.m))
    case SetApi => s.(loader := ApiSet(s.loader.m, s.loader.prev), api := Some(s.loader.m))
    case ReleaseExclusive => s.(loader := Released(s.loader.prev))
    case FreeOld =>
      match s.loader.prev
      case None => s.(loader := Idle)
      case Some(m) => Free(s, m).(loader := Idle)
  }

  predicate Initial(s: State) {
    s == State(0, None, None, Idle, map[], {}, multiset{})
  }

  // ------------------------------------------------------------ what must never happen

  /** The modules whose code some thread is executing, or is about to enter through a table it read. */
  predicate Executes(s: State, m: Module) {
    || (exists t: nat :: t in s.hooks && HookUses(s.hooks[t], m))
    || ((s.loader.Loaded? || s.loader.Queried? || s.loader.Bound?) && s.loader.m == m)
  }

  predicate HookUses(h: Hook, m: Module) {
    match h
    case Tested(a) => a == m
    case Found(a, b) => a == m || b == m
    case Running(a, b, c) => a == m || b == m || c == m
    case _ => false
  }

  predicate Agrees(h: Hook, api: Option<Module>) {
    match h
    case Tested(a) => api == Some(a)
    case Found(a, b) => a == b && api == Some(a)
    case Running(a, b, c) => a == b == c && api == Some(a)
    case _ => true
  }

  predicate Live(s: State, m: Module) {
    m in s.loaded && s.freed[m] == 0
  }

  // ------------------------------------------------------------ the invariant

  /** The module do_load has in hand besides the current one: not yet published, or just replaced. */
  function InHand(s: State): Option<Module> {
    match s.loader
    case Loaded(m) => Some(m)
    case Queried(m) => Some(m)
    case Bound(m) => Some(m)
    case Holding(m) => Some(m)
    case ModSet(_, prev) => prev
    case ApiSet(_, prev) => prev
    case Released(prev) => prev
    case _ => None
  }

  ghost predicate Inv(s: State) {
    && (Exclusive(s) ==> s.hooks == map[])
    && (if s.loader.ModSet? then s.api == s.loader.prev && s.mod == Some(s.loader.m) else s.api == s.mod)
    && (forall m | m in s.loaded :: m <= s.gen && s.freed[m] == if Some(m) == s.mod || Some(m) == InHand(s) then 0 else 1)
    && (forall m | m !in s.loaded :: s.freed[m] == 0)
    && (s.mod.Some? ==> s.mod.value in s.loaded)
    && (InHand(s).Some? ==> InHand(s).value in s.loaded && InHand(s) != s.mod)
    && ((s.loader.Loaded? || s.loader.Queried? || s.loader.Bound? || s.loader.Holding? || s.loader.ModSet? || s.loader.ApiSet?)
        ==> s.loader.m == s.gen)
    && ((s.loader.ModSet? || s.loader.ApiSet?) ==> s.mod == Some(s.gen))
    && (s.loader.Copied? ==> s.gen !in s.loaded)
    && (s.mod.Some? && (s.loader.Copied? || s.loader.Loaded? || s.loader.Queried? || s.loader.Bound? || s.loader.Holding?)
        ==> s.mod.value < s.gen)
    && (s.loader.ModSet? && s.loader.prev.Some? ==> s.loader.prev.value < s.gen)
    && (forall t: nat | t in s.hooks :: Agrees(s.hooks[t], s.api))
  }

  predicate HookStep(e: Step) {
    e.Enter? || e.Test? || e.Find? || e.Call? || e.Return? || e.Leave?
  }

  lemma InitialInv(s: State)
    requires Initial(s)
    ensures Inv(s)
  {
  }

  lemma HookStepInv(s: State, e: Step)
    requires Inv(s) && Enabled(s, e) && HookStep(e)
    ensures Inv(Do(s, e))
  {
  }

  lemma LoadStepInv(s: State, e: Step)
    requires Inv(s) && Enabled(s, e) && (e.Copy? || e.LoadLibrary?)
    ensures Inv(Do(s, e))
  {
  }

  lemma CheckStepInv(s: State, e: Step)
    requires Inv(s) && Enabled(s, e) && (e.GetApi? || e.Bind?)
    ensures Inv(Do(s, e))
  {
  }

  lemma SwapStepInv(s: State, e: Step)
    requires Inv(s) && Enabled(s, e) && (e.AcquireExclusive? || e.SetMod? || e.SetApi? || e.ReleaseExclusive? || e.FreeOld?)
    ensures Inv(Do(s, e))
  {
  }

  lemma StepInv(s: State, e: Step)
    requires Inv(s) && Enabled(s, e)
    ensures Inv(Do(s, e))
  {
    hide Inv, Do, Enabled;
    if HookStep(e) {
      HookStepInv(s, e);
    } else if e.Copy? || e.LoadLibrary? {
      LoadStepInv(s, e);
    } else if e.GetApi? || e.Bind? {
      CheckStepInv(s, e);
    } else {
      SwapStepInv(s, e);
    }
  }
}
