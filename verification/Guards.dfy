/**
 The C++ static-initialisation guards of components/cxx/cxx_guards.cpp, once the scheduler runs.

 One mutex protects the guards, and one counting semaphore wakes the tasks that wait for any of them.
 Any number of tasks and guards take atomic steps in any order. A task's program counter names the
 next thing it does; the numbers refer to lines of the source.
 */
module Guards {
  import opened Common

  type TaskId = nat
  type Guard = nat

  datatype Pc =
    | Idle
    | WantMutex(g: Guard)                // 134: about to take the mutex in __cxa_guard_acquire
    | Entered(g: Guard)                  // 137: tests g->pending
    | GiveMutex(g: Guard)                // 75: in the wait loop, about to give the mutex
    | AwaitSem(g: Guard)                 // 83: about to take the wait semaphore
    | WantMutexBack(g: Guard)            // 89: woken, about to take the mutex
    | Recheck(g: Guard)                  // 94: tests g->pending again
    | Decide(g: Guard)                   // 154: tests g->ready
    | Leave(g: Guard, ret: bool)         // 163: about to give the mutex and return
    | WantFinish(g: Guard, done: bool)   // 175 or 197: release (done) or abort, about to take the mutex
    | Finish(g: Guard, done: bool)       // 179-182 or 201-203: updates the guard
    | Signal(left: nat)                  // 108: gives the wait semaphore `left` more times

  /** `owned` are the guards for which __cxa_guard_acquire told this task to initialise, until it releases or aborts. */
  datatype Task = Task(pc: Pc, owned: set<Guard>)

  datatype State = State(
    tasks: map<TaskId, Task>,
    ready: set<Guard>,
    pending: set<Guard>,
    mutex: Option<TaskId>,
    sem: nat,
    waiting: nat)
  {
    function Move(t: TaskId, pc: Pc): State
      requires t in tasks
    {
      this.(tasks := tasks[t := tasks[t].(pc := pc)])
    }
  }

  /** What a task between calls decides to do; a task inside a call just continues. */
  datatype Action = Acquire(g: Guard) | Release(g: Guard) | Abort(g: Guard) | Continue

  /** A task can block on the mutex and on the semaphore. It releases or aborts only what it owns. */
  predicate Enabled(s: State, t: TaskId, a: Action) {
    t in s.tasks &&
    match s.tasks[t].pc
    case Idle => a.Acquire? || ((a.Release? || a.Abort?) && a.g in s.tasks[t].owned)
    case WantMutex(_) => a.Continue? && s.mutex.None?
    case AwaitSem(_) => a.Continue? && s.sem > 0
    case WantMutexBack(_) => a.Continue? && s.mutex.None?
    case WantFinish(_, _) => a.Continue? && s.mutex.None?
    case _ => a.Continue?
  }

  function Next(s: State, t: TaskId, a: Action): (s': State)
    requires Enabled(s, t, a)
    ensures s'.tasks.Keys == s.tasks.Keys
    ensures forall u | u in s.tasks && u != t :: s'.tasks[u] == s.tasks[u]
  {
    match s.tasks[t].pc
    case Idle =>
      s.Move(t, match a
                case Acquire(g) => WantMutex(g)
                case Release(g) => WantFinish(g, true)
                case Abort(g) => WantFinish(g, false)
                case Continue => Idle)
    case WantMutex(g) => s.Move(t, Entered(g)).(mutex := Some(t))
    case Entered(g) =>
      if g in s.pending then s.Move(t, GiveMutex(g)).(waiting := s.waiting + 1) else s.Move(t, Decide(g))
    case GiveMutex(g) => s.Move(t, AwaitSem(g)).(mutex := None)
    case AwaitSem(g) => s.Move(t, WantMutexBack(g)).(sem := s.sem - 1)
    case WantMutexBack(g) => s.Move(t, Recheck(g)).(mutex := Some(t))
    case Recheck(g) =>
      if g in s.pending then s.Move(t, GiveMutex(g))
      else s.Move(t, Decide(g)).(waiting := if s.waiting > 0 then s.waiting - 1 else 0)
    case Decide(g) =>
      if g in s.ready then s.Move(t, Leave(g, false))
      else s.(tasks := s.tasks[t := Task(Leave(g, true), s.tasks[t].owned + {g})], pending := s.pending + {g})
    case Leave(_, _) => s.Move(t, Idle).(mutex := None)
    case WantFinish(g, done) => s.Move(t, Finish(g, done)).(mutex := Some(t))
    case Finish(g, done) =>
      s.(tasks := s.tasks[t := Task(Signal(s.waiting), s.tasks[t].owned - {g})],
         pending := s.pending - {g}, ready := if done then s.ready + {g} else s.ready)
    case Signal(left) =>
      if left > 0 then s.Move(t, Signal(left - 1)).(sem := s.sem + 1) else s.Move(t, Idle).(mutex := None)
  }

  predicate Holding(pc: Pc) {
    pc.Entered? || pc.GiveMutex? || pc.Recheck? || pc.Decide? || pc.Leave? || pc.Finish? || pc.Signal?
  }

  /** Inside wait_for_guard_obj, between the increment and the decrement of the waiting count. */
  predicate InWait(pc: Pc) {
    pc.GiveMutex? || pc.AwaitSem? || pc.WantMutexBack? || pc.Recheck?
  }

  function Waiters(s: State): set<TaskId> {
    set t | t in s.tasks && InWait(s.tasks[t].pc)
  }

  /** The tasks that need a token of the wait semaphore to go on. */
  function Sleepers(s: State): set<TaskId> {
    set t | t in s.tasks && s.tasks[t].pc.AwaitSem?
  }

  /** Tokens that the signal loop in progress, if any, has still to give. */
  function Gives(s: State): nat {
    if s.mutex.Some? && s.mutex.value in s.tasks && s.tasks[s.mutex.value].pc.Signal?
    then s.tasks[s.mutex.value].pc.left else 0
  }

  /** Some task waits for a guard whose initialisation is in progress. */
  ghost predicate AwaitedPending(s: State) {
    exists t :: t in s.tasks && InWait(s.tasks[t].pc) && s.tasks[t].pc.g in s.pending
  }

  ghost predicate MutexInv(s: State) {
    && (s.mutex.Some? ==> s.mutex.value in s.tasks && Holding(s.tasks[s.mutex.value].pc))
    && forall t | t in s.tasks && Holding(s.tasks[t].pc) :: s.mutex == Some(t)
  }

  /** A guard is pending exactly while one task owns it. */
  ghost predicate OwnerInv(s: State) {
    && (forall t, g | t in s.tasks && g in s.tasks[t].owned :: g in s.pending)
    && (forall g | g in s.pending :: exists t :: t in s.tasks && g in s.tasks[t].owned)
    && (forall t, u | t in s.tasks && u in s.tasks && t != u :: s.tasks[t].owned !! s.tasks[u].owned)
  }

  /** What the calls promise and demand. The asserts in release (179) and abort (201, 202) follow. */
  ghost predicate CallInv(s: State) {
    forall t | t in s.tasks ::
      match s.tasks[t].pc
      case GiveMutex(g) => g in s.pending
      case Decide(g) => g !in s.pending
      case Leave(g, ret) => if ret then g in s.tasks[t].owned else g in s.ready
      case WantFinish(g, _) => g in s.tasks[t].owned
      case Finish(g, _) => g in s.tasks[t].owned
      case _ => true
  }

  ghost predicate CountInv(s: State) {
    s.waiting == |Waiters(s)|
  }

  /** Unless some awaited guard is pending, there is a token, given or about to be given, for every sleeper. */
  ghost predicate TokenInv(s: State) {
    AwaitedPending(s) || s.sem + Gives(s) >= |Sleepers(s)|
  }

  ghost predicate Inv(s: State) {
    && MutexInv(s) && OwnerInv(s) && CallInv(s) && CountInv(s) && TokenInv(s)
    && s.ready !! s.pending
  }

  ghost predicate Init(s: State) {
    && (forall t | t in s.tasks :: s.tasks[t] == Task(Idle, {}))
    && s.ready == {} && s.pending == {} && s.mutex == None && s.sem == 0 && s.waiting == 0
  }

  lemma InitInv(s: State)
    requires Init(s)
    ensures Inv(s)
  {
    assert Waiters(s) == {};
    assert Sleepers(s) == {};
  }

  lemma NextMutex(s: State, t: TaskId, a: Action)
    requires MutexInv(s) && Enabled(s, t, a)
    ensures MutexInv(Next(s, t, a))
  {
  }

  /** Two states with the same owners and pending guards. */
  lemma SameOwners(s: State, s': State)
    requires OwnerInv(s) && s'.pending == s.pending && s'.tasks.Keys == s.tasks.Keys
    requires forall u | u in s.tasks :: s'.tasks[u].owned == s.tasks[u].owned
    ensures OwnerInv(s')
  {
    forall g | g in s'.pending
      ensures exists u :: u in s'.tasks && g in s'.tasks[u].owned
    {
      var u :| u in s.tasks && g in s.tasks[u].owned;
      assert u in s'.tasks;
    }
  }

  /** Task t becomes the owner of a guard that nobody owned, or stops owning one. */
  lemma OwnersChange(s: State, s': State, t: TaskId, g: Guard)
    requires OwnerInv(s) && t in s.tasks && s'.tasks.Keys == s.tasks.Keys
    requires forall u | u in s.tasks && u != t :: s'.tasks[u].owned == s.tasks[u].owned
    requires
      || (g !in s.pending && s'.pending == s.pending + {g} && s'.tasks[t].owned == s.tasks[t].owned + {g})
      || (g in s.tasks[t].owned && s'.pending == s.pending - {g} && s'.tasks[t].owned == s.tasks[t].owned - {g})
    ensures OwnerInv(s')
  {
    forall h | h in s'.pending
      ensures exists u :: u in s'.tasks && h in s'.tasks[u].owned
    {
      if h in s.pending {
        var u :| u in s.tasks && h in s.tasks[u].owned;
        assert u in s'.tasks && h in s'.tasks[u].owned;
      } else {
        assert h in s'.tasks[t].owned;
      }
    }
  }

  lemma NextOwner(s: State, t: TaskId, a: Action)
    requires OwnerInv(s) && CallInv(s) && s.ready !! s.pending && Enabled(s, t, a)
    ensures OwnerInv(Next(s, t, a)) && Next(s, t, a).ready !! Next(s, t, a).pending
  {
    var pc := s.tasks[t].pc;
    if (pc.Decide? && pc.g !in s.ready) || pc.Finish? {
      OwnersChange(s, Next(s, t, a), t, pc.g);
    } else {
      SameOwners(s, Next(s, t, a));
    }
  }

  lemma NextCall(s: State, t: TaskId, a: Action)
    requires MutexInv(s) && OwnerInv(s) && CallInv(s) && Enabled(s, t, a)
    ensures CallInv(Next(s, t, a))
  {
    var s' := Next(s, t, a);
    forall u | u in s.tasks && u != t
      ensures Holding(s.tasks[u].pc) ==> s'.ready == s.ready && s'.pending == s.pending
    {
    }
  }

  /** The set of tasks with a property of their program counter changes at most by the task that moves. */
  lemma SetStep(x: set<TaskId>, y: set<TaskId>, t: TaskId)
    requires forall u :: u != t ==> (u in x <==> u in y)
    ensures |y| == |x| + (if t in y then 1 else 0) - (if t in x then 1 else 0)
  {
    assert x - {t} == y - {t};
    assert |x - {t}| == |x| - (if t in x then 1 else 0);
    assert |y - {t}| == |y| - (if t in y then 1 else 0);
  }

  lemma NextSets(s: State, t: TaskId, a: Action)
    requires Enabled(s, t, a)
    ensures var s' := Next(s, t, a); var p, p' := s.tasks[t].pc, s'.tasks[t].pc;
            && |Waiters(s')| == |Waiters(s)| + (if InWait(p') then 1 else 0) - (if InWait(p) then 1 else 0)
            && |Sleepers(s')| == |Sleepers(s)| + (if p'.AwaitSem? then 1 else 0) - (if p.AwaitSem? then 1 else 0)
  {
    var s' := Next(s, t, a);
    SetStep(Waiters(s), Waiters(s'), t);
    SetStep(Sleepers(s), Sleepers(s'), t);
  }

  lemma SleepersWait(s: State)
    ensures |Sleepers(s)| <= |Waiters(s)|
  {
    SubsetSize(Sleepers(s), Waiters(s));
  }

  lemma NextCount(s: State, t: TaskId, a: Action)
    requires CountInv(s) && Enabled(s, t, a)
    ensures CountInv(Next(s, t, a))
  {
    NextSets(s, t, a);
    if s.tasks[t].pc.Recheck? {
      assert t in Waiters(s);
      assert |Waiters(s)| > 0;
    }
  }

  /** Nobody else moves, so an awaited pending guard stays one unless this step finishes it. */
  lemma AwaitedStays(s: State, t: TaskId, a: Action)
    requires Enabled(s, t, a) && AwaitedPending(s) && !s.tasks[t].pc.Finish?
    ensures AwaitedPending(Next(s, t, a))
  {
    var s' := Next(s, t, a);
    assert s.pending <= s'.pending;
    var u :| u in s.tasks && InWait(s.tasks[u].pc) && s.tasks[u].pc.g in s.pending;
    assert u in s'.tasks && InWait(s'.tasks[u].pc) && s'.tasks[u].pc.g in s'.pending;
  }

  lemma NextToken(s: State, t: TaskId, a: Action)
    requires Inv(s) && Enabled(s, t, a)
    ensures TokenInv(Next(s, t, a))
  {
    var s' := Next(s, t, a);
    NextSets(s, t, a);
    if s.tasks[t].pc.Finish? {
      SleepersWait(s);
    } else if AwaitedPending(s) {
      AwaitedStays(s, t, a);
    } else if InWait(s'.tasks[t].pc) && s'.tasks[t].pc.g in s'.pending {
      assert AwaitedPending(s');
    } else {
      assert s'.sem + Gives(s') - |Sleepers(s')| >= s.sem + Gives(s) - |Sleepers(s)|;
    }
  }

  /** What every step of every task keeps. */
  lemma NextInv(s: State, t: TaskId, a: Action)
    requires Inv(s) && Enabled(s, t, a)
    ensures Inv(Next(s, t, a))
    ensures s.ready <= Next(s, t, a).ready
  {
    assert s.ready <= Next(s, t, a).ready;
    hide Next, Enabled, MutexInv, OwnerInv, CallInv, CountInv, TokenInv;
    NextMutex(s, t, a);
    NextOwner(s, t, a);
    NextCall(s, t, a);
    NextCount(s, t, a);
    NextToken(s, t, a);
  }

  // ---------------------------------------------------------------- runs

  datatype Move = Move(t: TaskId, a: Action)

  predicate IsRun(s: State, run: seq<Move>)
    decreases run
  {
    run == [] || (Enabled(s, run[0].t, run[0].a) && IsRun(Next(s, run[0].t, run[0].a), run[1..]))
  }

  function End(s: State, run: seq<Move>): State
    requires IsRun(s, run)
    decreases run
  {
    if run == [] then s else End(Next(s, run[0].t, run[0].a), run[1..])
  }

  lemma {:induction false} RunInv(s: State, run: seq<Move>)
    requires Inv(s) && IsRun(s, run)
    ensures Inv(End(s, run)) && s.ready <= End(s, run).ready
    decreases run
  {
    if run != [] {
      NextInv(s, run[0].t, run[0].a);
      RunInv(Next(s, run[0].t, run[0].a), run[1..]);
    }
  }

  /**
     Safety over whole runs: one initialiser per guard, and it alone holds the guard pending; ready and
     pending exclude each other; the waiting count counts the tasks in the wait loop; acquire returns 1
     to the owner, and 0 only when the guard is ready; the asserts of release and abort hold.
   */
  lemma ReachableIsSafe(s0: State, run: seq<Move>)
    requires Init(s0) && IsRun(s0, run)
    ensures var s := End(s0, run);
            && (forall t, u, g | t in s.tasks && u in s.tasks && g in s.tasks[t].owned && g in s.tasks[u].owned :: t == u)
            && (forall g :: g in s.pending <==> exists t :: t in s.tasks && g in s.tasks[t].owned)
            && s.ready !! s.pending
            && s.waiting == |Waiters(s)|
            && (forall t | t in s.tasks && s.tasks[t].pc.Leave? ::
                  if s.tasks[t].pc.ret then s.tasks[t].pc.g in s.tasks[t].owned else s.tasks[t].pc.g in s.ready)
            && (forall t | t in s.tasks && s.tasks[t].pc.Finish? ::
                  s.tasks[t].pc.g in s.pending && s.tasks[t].pc.g !in s.ready)
  {
    hide Next, Enabled;
    InitInv(s0);
    RunInv(s0, run);
  }

  lemma NextReady(s: State, t: TaskId, a: Action)
    requires Inv(s) && Enabled(s, t, a)
    ensures var pc := s.tasks[t].pc;
            if pc.Finish? && pc.done then pc.g !in s.ready && Next(s, t, a).ready == s.ready + {pc.g}
            else Next(s, t, a).ready == s.ready
  {
  }

  /** How often a run completes the initialisation of g. */
  function Completions(s: State, run: seq<Move>, g: Guard): nat
    requires IsRun(s, run)
    decreases run
  {
    if run == [] then 0
    else
      (if s.tasks[run[0].t].pc == Finish(g, true) then 1 else 0)
      + Completions(Next(s, run[0].t, run[0].a), run[1..], g)
  }

  /** Each guard completes at most once, and is ready from then on. */
  lemma {:induction false} CompletesOnce(s: State, run: seq<Move>, g: Guard)
    requires Inv(s) && IsRun(s, run)
    ensures Completions(s, run, g) == (if g in End(s, run).ready then 1 else 0) - (if g in s.ready then 1 else 0)
    decreases run
  {
    hide Next, Inv, Enabled;
    if run != [] {
      NextInv(s, run[0].t, run[0].a);
      NextReady(s, run[0].t, run[0].a);
      CompletesOnce(Next(s, run[0].t, run[0].a), run[1..], g);
    }
  }

  /**
     In every reachable state in which no awaited guard is pending, the wait semaphore holds, or is about
     to get, a token for every sleeping task. So with the mutex free every sleeper can wake, and whoever
     rechecks its guard leaves the loop.
   */
  lemma NobodyStranded(s0: State, run: seq<Move>)
    requires Init(s0) && IsRun(s0, run) && !AwaitedPending(End(s0, run))
    ensures var s := End(s0, run);
            && s.sem + Gives(s) >= |Sleepers(s)|
            && (s.mutex.None? ==> forall t | t in Sleepers(s) :: Enabled(s, t, Continue))
            && (forall t | t in s.tasks && s.tasks[t].pc.Recheck? :: Next(s, t, Continue).tasks[t].pc.Decide?)
  {
    InitInv(s0);
    RunInv(s0, run);
    var s := End(s0, run);
    forall t | t in Sleepers(s) && s.mutex.None?
      ensures s.sem > 0
    {
      assert |Sleepers(s)| > 0;
    }
  }

  // ---------------------------------------------------------------- two guards: a stolen token

  lemma {:induction false} Extend(s: State, run: seq<Move>, t: TaskId, a: Action)
    requires IsRun(s, run) && Enabled(End(s, run), t, a)
    ensures IsRun(s, run + [Move(t, a)]) && End(s, run + [Move(t, a)]) == Next(End(s, run), t, a)
    decreases run
  {
    var longer := run + [Move(t, a)];
    if run == [] {
      assert longer[1..] == [];
    } else {
      Extend(Next(s, run[0].t, run[0].a), run[1..], t, a);
      assert longer[0] == run[0] && longer[1..] == run[1..] + [Move(t, a)];
    }
  }

  /** All calls of the run are about these guards. */
  predicate Within(run: seq<Move>, gs: set<Guard>) {
    forall i | 0 <= i < |run| :: run[i].a.Continue? || run[i].a.g in gs
  }

  /** `later` can be reached from `now` by calls about these guards. */
  ghost predicate Leads(gs: set<Guard>, now: State, later: State) {
    exists run :: IsRun(now, run) && End(now, run) == later && Within(run, gs)
  }

  lemma LeadsSelf(gs: set<Guard>, s: State)
    ensures Leads(gs, s, s)
  {
    assert IsRun(s, []) && End(s, []) == s && Within([], gs);
  }

  lemma LeadsOn(gs: set<Guard>, s: State, mid: State, t: TaskId, a: Action)
    requires Leads(gs, s, mid) && Enabled(mid, t, a) && (a.Continue? || a.g in gs)
    ensures Leads(gs, s, Next(mid, t, a))
  {
    var run :| IsRun(s, run) && End(s, run) == mid && Within(run, gs);
    Extend(s, run, t, a);
    assert Within(run + [Move(t, a)], gs);
  }

  /** An acquire nobody contends: the task starts to initialise g. */
  lemma Starts(gs: set<Guard>, s: State, mid: State, t: TaskId, g: Guard)
    requires Leads(gs, s, mid) && t in mid.tasks && mid.tasks[t].pc.Idle? && mid.mutex.None?
    requires g in gs && g !in mid.pending && g !in mid.ready
    ensures Leads(gs, s, mid.(tasks := mid.tasks[t := Task(Idle, mid.tasks[t].owned + {g})], pending := mid.pending + {g}))
  {
    hide Leads;
    LeadsOn(gs, s, mid, t, Acquire(g));
    var m1 := Next(mid, t, Acquire(g));
    var m2 := Next(m1, t, Continue);
    var m3 := Next(m2, t, Continue);
    var m4 := Next(m3, t, Continue);
    var m5 := Next(m4, t, Continue);
    LeadsOn(gs, s, m1, t, Continue);
    LeadsOn(gs, s, m2, t, Continue);
    LeadsOn(gs, s, m3, t, Continue);
    LeadsOn(gs, s, m4, t, Continue);
    assert m5.tasks == mid.tasks[t := Task(Idle, mid.tasks[t].owned + {g})];
  }

  /** An acquire of a pending guard: the task goes to sleep. */
  lemma Sleeps(gs: set<Guard>, s: State, mid: State, t: TaskId, g: Guard)
    requires Leads(gs, s, mid) && t in mid.tasks && mid.tasks[t].pc.Idle? && mid.mutex.None? && g in mid.pending && g in gs
    ensures Leads(gs, s, mid.Move(t, AwaitSem(g)).(waiting := mid.waiting + 1))
  {
    hide Leads;
    LeadsOn(gs, s, mid, t, Acquire(g));
    var m1 := Next(mid, t, Acquire(g));
    var m2 := Next(m1, t, Continue);
    var m3 := Next(m2, t, Continue);
    var m4 := Next(m3, t, Continue);
    LeadsOn(gs, s, m1, t, Continue);
    LeadsOn(gs, s, m2, t, Continue);
    LeadsOn(gs, s, m3, t, Continue);
    assert m4.tasks == mid.Move(t, AwaitSem(g)).tasks;
  }

  /** A sleeper whose guard is still pending takes a token and goes back to sleep. */
  lemma WakesInVain(gs: set<Guard>, s: State, mid: State, t: TaskId)
    requires Leads(gs, s, mid) && t in mid.tasks && mid.tasks[t].pc.AwaitSem? && mid.tasks[t].pc.g in mid.pending
    requires mid.mutex.None? && mid.sem > 0
    ensures Leads(gs, s, mid.(sem := mid.sem - 1))
  {
    hide Leads;
    var m1 := Next(mid, t, Continue);
    var m2 := Next(m1, t, Continue);
    var m3 := Next(m2, t, Continue);
    var m4 := Next(m3, t, Continue);
    LeadsOn(gs, s, mid, t, Continue);
    LeadsOn(gs, s, m1, t, Continue);
    LeadsOn(gs, s, m2, t, Continue);
    LeadsOn(gs, s, m3, t, Continue);
    assert m4.tasks == mid.tasks;
  }

  /** The signal loop, to its end. */
  lemma {:induction false} Signals(gs: set<Guard>, s: State, mid: State, t: TaskId)
    requires Leads(gs, s, mid) && t in mid.tasks && mid.tasks[t].pc.Signal?
    ensures Leads(gs, s, mid.Move(t, Idle).(mutex := None, sem := mid.sem + mid.tasks[t].pc.left))
    decreases if t in mid.tasks && mid.tasks[t].pc.Signal? then mid.tasks[t].pc.left else 0
  {
    hide Leads;
    var left := mid.tasks[t].pc.left;
    var next := Next(mid, t, Continue);
    LeadsOn(gs, s, mid, t, Continue);
    if left > 0 {
      Signals(gs, s, next, t);
      assert next.Move(t, Idle).tasks == mid.Move(t, Idle).tasks;
    }
  }

  /** A release gives as many tokens as there are waiters, for whatever guards these wait. */
  lemma Releases(gs: set<Guard>, s: State, mid: State, t: TaskId, g: Guard)
    requires Leads(gs, s, mid) && t in mid.tasks && mid.tasks[t].pc.Idle? && g in mid.tasks[t].owned && mid.mutex.None? && g in gs
    ensures Leads(gs, s, mid.(tasks := mid.tasks[t := Task(Idle, mid.tasks[t].owned - {g})], pending := mid.pending - {g},
                          ready := mid.ready + {g}, sem := mid.sem + mid.waiting))
  {
    hide Leads;
    LeadsOn(gs, s, mid, t, Release(g));
    var m1 := Next(mid, t, Release(g));
    var m2 := Next(m1, t, Continue);
    var m3 := Next(m2, t, Continue);
    LeadsOn(gs, s, m1, t, Continue);
    LeadsOn(gs, s, m2, t, Continue);
    Signals(gs, s, m3, t);
    assert m3.Move(t, Idle).tasks == mid.tasks[t := Task(Idle, mid.tasks[t].owned - {g})];
  }

  /** An abort gives as many tokens, and nobody owns the guard then, which is not ready: it is as if never acquired. */
  lemma Aborts(gs: set<Guard>, s: State, mid: State, t: TaskId, g: Guard)
    requires Leads(gs, s, mid) && t in mid.tasks && mid.tasks[t].pc.Idle? && g in mid.tasks[t].owned && mid.mutex.None? && g in gs
    ensures Leads(gs, s, mid.(tasks := mid.tasks[t := Task(Idle, mid.tasks[t].owned - {g})], pending := mid.pending - {g},
                          sem := mid.sem + mid.waiting))
  {
    hide Leads;
    LeadsOn(gs, s, mid, t, Abort(g));
    var m1 := Next(mid, t, Abort(g));
    var m2 := Next(m1, t, Continue);
    var m3 := Next(m2, t, Continue);
    LeadsOn(gs, s, m1, t, Continue);
    LeadsOn(gs, s, m2, t, Continue);
    Signals(gs, s, m3, t);
    assert m3.Move(t, Idle).tasks == mid.tasks[t := Task(Idle, mid.tasks[t].owned - {g})];
  }

  /** An acquire of a ready guard returns 0 and changes nothing. */
  lemma FindsReady(mid: State, t: TaskId, g: Guard)
    requires t in mid.tasks && mid.tasks[t].pc.Idle? && mid.mutex.None? && g in mid.ready && g !in mid.pending
    ensures var m4 := Next(Next(Next(Next(mid, t, Acquire(g)), t, Continue), t, Continue), t, Continue);
            m4.tasks[t].pc == Leave(g, false) && Next(m4, t, Continue) == mid
  {
    var m4 := Next(Next(Next(Next(mid, t, Acquire(g)), t, Continue), t, Continue), t, Continue);
    assert Next(m4, t, Continue).tasks == mid.tasks;
  }

  /** A sleeper that takes a token when its guard is neither pending nor ready becomes the one that initialises it. */
  lemma WakesToOwn(gs: set<Guard>, s: State, mid: State, t: TaskId)
    requires Leads(gs, s, mid) && t in mid.tasks && mid.tasks[t].pc.AwaitSem? && mid.mutex.None? && mid.sem > 0
    requires mid.waiting > 0 && mid.tasks[t].pc.g !in mid.pending && mid.tasks[t].pc.g !in mid.ready
    ensures var g := mid.tasks[t].pc.g;
            Leads(gs, s, mid.(tasks := mid.tasks[t := Task(Idle, mid.tasks[t].owned + {g})], pending := mid.pending + {g},
                              sem := mid.sem - 1, waiting := mid.waiting - 1))
  {
    hide Leads;
    var g := mid.tasks[t].pc.g;
    var m1 := Next(mid, t, Continue);
    var m2 := Next(m1, t, Continue);
    var m3 := Next(m2, t, Continue);
    var m4 := Next(m3, t, Continue);
    var m5 := Next(m4, t, Continue);
    LeadsOn(gs, s, mid, t, Continue);
    LeadsOn(gs, s, m1, t, Continue);
    LeadsOn(gs, s, m2, t, Continue);
    LeadsOn(gs, s, m3, t, Continue);
    LeadsOn(gs, s, m4, t, Continue);
    assert m5.tasks == mid.tasks[t := Task(Idle, mid.tasks[t].owned + {g})];
  }

  /** A sleeper that takes a token when its guard is ready returns. */
  lemma WakesToReady(gs: set<Guard>, s: State, mid: State, t: TaskId)
    requires Leads(gs, s, mid) && t in mid.tasks && mid.tasks[t].pc.AwaitSem? && mid.mutex.None? && mid.sem > 0
    requires mid.waiting > 0 && mid.tasks[t].pc.g !in mid.pending && mid.tasks[t].pc.g in mid.ready
    ensures Leads(gs, s, mid.Move(t, Idle).(sem := mid.sem - 1, waiting := mid.waiting - 1))
  {
    hide Leads;
    var m1 := Next(mid, t, Continue);
    var m2 := Next(m1, t, Continue);
    var m3 := Next(m2, t, Continue);
    var m4 := Next(m3, t, Continue);
    var m5 := Next(m4, t, Continue);
    LeadsOn(gs, s, mid, t, Continue);
    LeadsOn(gs, s, m1, t, Continue);
    LeadsOn(gs, s, m2, t, Continue);
    LeadsOn(gs, s, m3, t, Continue);
    LeadsOn(gs, s, m4, t, Continue);
    assert m5.tasks == mid.Move(t, Idle).tasks;
  }

  lemma AwaitedByAll(gs: set<Guard>, s0: State, mid: State, t: TaskId, u: TaskId, g: Guard)
    requires Init(s0) && Leads(gs, s0, mid) && t in mid.tasks && g in mid.tasks[t].owned
    requires u in mid.tasks && mid.tasks[u].pc == AwaitSem(g)
    ensures g in mid.pending && g !in mid.ready && mid.waiting > 0
  {
    hide Next, Enabled, MutexInv, CallInv, TokenInv;
    var run :| IsRun(s0, run) && End(s0, run) == mid && Within(run, gs);
    InitInv(s0);
    RunInv(s0, run);
    assert u in Waiters(mid);
    assert |Waiters(mid)| > 0;
  }

  /** If the owner aborts, any task that sleeps for the guard can take over. */
  lemma AbortHandsOver(gs: set<Guard>, s0: State, mid: State, t: TaskId, u: TaskId, g: Guard) returns (s: State)
    requires Init(s0) && Leads(gs, s0, mid) && mid.mutex.None? && g in gs
    requires t in mid.tasks && mid.tasks[t].pc.Idle? && g in mid.tasks[t].owned
    requires u in mid.tasks && mid.tasks[u].pc == AwaitSem(g)
    ensures Leads(gs, s0, s) && s.tasks.Keys == mid.tasks.Keys && s.mutex.None?
    ensures g in s.pending && s.ready == mid.ready
    ensures s.tasks[u] == Task(Idle, mid.tasks[u].owned + {g}) && s.tasks[t] == Task(Idle, mid.tasks[t].owned - {g})
  {
    hide Leads;
    AwaitedByAll(gs, s0, mid, t, u, g);
    Aborts(gs, s0, mid, t, g);
    var m := mid.(tasks := mid.tasks[t := Task(Idle, mid.tasks[t].owned - {g})], pending := mid.pending - {g},
                  sem := mid.sem + mid.waiting);
    WakesToOwn(gs, s0, m, u);
    s := m.(tasks := m.tasks[u := Task(Idle, m.tasks[u].owned + {g})], pending := m.pending + {g},
            sem := m.sem - 1, waiting := m.waiting - 1);
  }

  /** In every interleaving, the step that ends an initialisation does this and nothing else. */
  lemma FinishEffect(s: State, t: TaskId)
    requires Inv(s) && t in s.tasks && s.tasks[t].pc.Finish?
    ensures var g, done, s' := s.tasks[t].pc.g, s.tasks[t].pc.done, Next(s, t, Continue);
            && g in s.pending && g in s.tasks[t].owned && g !in s.ready
            && s'.pending == s.pending - {g} && s'.tasks[t] == Task(Signal(s.waiting), s.tasks[t].owned - {g})
            && s'.ready == (if done then s.ready + {g} else s.ready)
            && (forall u | u in s'.tasks :: g !in s'.tasks[u].owned)
            && s'.sem == s.sem && s'.waiting == s.waiting && s'.mutex == Some(t)
  {
  }

  /** A task sleeps for a guard that is ready, and no token is there or about to be given. */
  ghost predicate Stranded(s: State, t: TaskId) {
    && t in s.tasks && s.tasks[t].pc.AwaitSem? && s.tasks[t].pc.g in s.ready
    && s.mutex.None? && s.sem == 0
  }

  /** Nobody can do anything any more. */
  ghost predicate Deadlock(s: State) {
    forall t, a :: !Enabled(s, t, a)
  }

  /**
     Two tasks and two guards are enough, and the initialisers need not depend on each other in a circle. Task t
     initialises h and then waits for g. Task u releases g, which gives one token, waits for h, and takes that token
     in vain. Now t sleeps for a guard that is ready; if there is no other task, nobody can ever move again.
   */
  lemma StolenToken(gs: set<Guard>, s0: State, t: TaskId, u: TaskId, g: Guard, h: Guard) returns (s: State)
    requires Init(s0) && t in s0.tasks && u in s0.tasks && t != u && g in gs && h in gs && g != h
    ensures Leads(gs, s0, s) && s.tasks.Keys == s0.tasks.Keys && Stranded(s, t)
    ensures s.tasks[t] == Task(AwaitSem(g), {h}) && s.tasks[u] == Task(AwaitSem(h), {})
    ensures s0.tasks.Keys == {t, u} ==> Deadlock(s)
  {
    hide Leads, Next, Enabled;
    LeadsSelf(gs, s0);
    Starts(gs, s0, s0, t, h);
    var s1 := s0.(tasks := s0.tasks[t := Task(Idle, s0.tasks[t].owned + {h})], pending := s0.pending + {h});
    Starts(gs, s0, s1, u, g);
    var s2 := s1.(tasks := s1.tasks[u := Task(Idle, s1.tasks[u].owned + {g})], pending := s1.pending + {g});
    Sleeps(gs, s0, s2, t, g);
    var s3 := s2.Move(t, AwaitSem(g)).(waiting := s2.waiting + 1);
    Releases(gs, s0, s3, u, g);
    var s4 := s3.(tasks := s3.tasks[u := Task(Idle, s3.tasks[u].owned - {g})], pending := s3.pending - {g},
                  ready := s3.ready + {g}, sem := s3.sem + s3.waiting);
    Sleeps(gs, s0, s4, u, h);
    var s5 := s4.Move(u, AwaitSem(h)).(waiting := s4.waiting + 1);
    WakesInVain(gs, s0, s5, u);
    s := s5.(sem := s5.sem - 1);
    if s0.tasks.Keys == {t, u} {
      Asleep(s);
    }
  }

  lemma Asleep(s: State)
    requires s.sem == 0 && forall t | t in s.tasks :: s.tasks[t].pc.AwaitSem?
    ensures Deadlock(s)
  {
  }

  /** Everything in the state is about these guards. */
  ghost predicate Concerns(s: State, gs: set<Guard>) {
    && s.pending <= gs && s.ready <= gs
    && forall t | t in s.tasks :: s.tasks[t].pc.Idle? || s.tasks[t].pc.Signal? || s.tasks[t].pc.g in gs
  }

  lemma {:induction false} RunConcerns(s: State, run: seq<Move>, gs: set<Guard>)
    requires Concerns(s, gs) && IsRun(s, run) && Within(run, gs)
    ensures Concerns(End(s, run), gs) && End(s, run).tasks.Keys == s.tasks.Keys
    decreases run
  {
    if run != [] {
      var next := Next(s, run[0].t, run[0].a);
      assert Concerns(next, gs);
      hide Next, Enabled, Concerns;
      RunConcerns(next, run[1..], gs);
    }
  }

  lemma StrandedNeedsTwo(s: State, gs: set<Guard>, t: TaskId)
    requires TokenInv(s) && s.ready !! s.pending && Concerns(s, gs) && Stranded(s, t)
    ensures |s.tasks.Keys| >= 2 && |gs| >= 2
  {
    assert t in Sleepers(s);
    assert |Sleepers(s)| > 0;
    var u :| u in s.tasks && InWait(s.tasks[u].pc) && s.tasks[u].pc.g in s.pending;
    SubsetSize({t, u}, s.tasks.Keys);
    SubsetSize({s.tasks[t].pc.g, s.tasks[u].pc.g}, gs);
  }

  /** Exactly when a task can be left sleeping for a ready guard: with at least two tasks and at least two guards. */
  lemma StrandingNeedsTwoGuards(s0: State, gs: set<Guard>)
    requires Init(s0)
    ensures (exists s, t :: Leads(gs, s0, s) && Stranded(s, t)) <==> |s0.tasks.Keys| >= 2 && |gs| >= 2
  {
    hide Next, Enabled, Concerns, MutexInv, OwnerInv, CallInv, CountInv, TokenInv;
    forall s, t | Leads(gs, s0, s) && Stranded(s, t) ensures |s0.tasks.Keys| >= 2 && |gs| >= 2 {
      var run :| IsRun(s0, run) && End(s0, run) == s && Within(run, gs);
      InitInv(s0);
      RunInv(s0, run);
      InitConcerns(s0, gs);
      RunConcerns(s0, run, gs);
      StrandedNeedsTwo(s, gs, t);
    }
    if |s0.tasks.Keys| >= 2 && |gs| >= 2 {
      var t, u := TwoOf(s0.tasks.Keys);
      var g, h := TwoOf(gs);
      var s := StolenToken(gs, s0, t, u, g, h);
    }
  }

  lemma InitConcerns(s: State, gs: set<Guard>)
    requires Init(s)
    ensures Concerns(s, gs)
  {
  }

  lemma TwoOf(x: set<nat>) returns (a: nat, b: nat)
    requires |x| >= 2
    ensures a in x && b in x && a != b
  {
    a :| a in x;
    assert |x - {a}| >= 1;
    b :| b in x - {a};
  }

  // ---------------------------------------------------------------- one guard, never aborted

  /** A run in which all calls are about guard g and no initialisation is aborted. */
  predicate OnlyGuard(run: seq<Move>, g: Guard) {
    forall i | 0 <= i < |run| :: run[i].a == Continue || run[i].a == Acquire(g) || run[i].a == Release(g)
  }

  predicate About(pc: Pc, g: Guard) {
    pc.Idle? || pc.Signal? || (pc.g == g && (pc.WantFinish? || pc.Finish? ==> pc.done))
  }

  ghost predicate OnlyInv(s: State, g: Guard) {
    Inv(s) && OnlyAbout(s, g) && if g in s.ready then AfterRelease(s) else BeforeRelease(s)
  }

  ghost predicate OnlyAbout(s: State, g: Guard) {
    s.pending <= {g} && forall t | t in s.tasks :: About(s.tasks[t].pc, g)
  }

  ghost predicate BeforeRelease(s: State) {
    && s.sem == 0
    && forall t | t in s.tasks :: !s.tasks[t].pc.Signal? && !s.tasks[t].pc.WantMutexBack? && !s.tasks[t].pc.Recheck?
  }

  ghost predicate AfterRelease(s: State) {
    && s.sem + Gives(s) == |Sleepers(s)|
    && forall t | t in s.tasks :: !s.tasks[t].pc.GiveMutex?
  }

  lemma NextAbout(s: State, t: TaskId, a: Action, g: Guard)
    requires OnlyAbout(s, g) && Enabled(s, t, a)
    requires a == Continue || a == Acquire(g) || a == Release(g)
    ensures OnlyAbout(Next(s, t, a), g)
  {
  }

  lemma NextBefore(s: State, t: TaskId, a: Action)
    requires BeforeRelease(s) && Enabled(s, t, a) && !s.tasks[t].pc.Finish?
    ensures BeforeRelease(Next(s, t, a))
  {
  }

  /** At the release, everyone in the wait loop is asleep, so the signal loop gives exactly one token each. */
  lemma NextRelease(s: State, t: TaskId)
    requires Inv(s) && BeforeRelease(s) && Enabled(s, t, Continue) && s.tasks[t].pc.Finish?
    ensures AfterRelease(Next(s, t, Continue))
  {
    forall u | u in Waiters(s)
      ensures u in Sleepers(s)
    {
      assert !Holding(s.tasks[u].pc);
    }
    assert Waiters(s) == Sleepers(s);
    NextSets(s, t, Continue);
  }

  lemma NextAfter(s: State, t: TaskId, a: Action, g: Guard)
    requires Inv(s) && OnlyAbout(s, g) && g in s.ready && AfterRelease(s) && Enabled(s, t, a)
    ensures AfterRelease(Next(s, t, a))
  {
    NextSets(s, t, a);
    assert s.pending == {};
    assert !s.tasks[t].pc.Finish?;
  }

  lemma NextOnly(s: State, t: TaskId, a: Action, g: Guard)
    requires OnlyInv(s, g) && Enabled(s, t, a)
    requires a == Continue || a == Acquire(g) || a == Release(g)
    ensures OnlyInv(Next(s, t, a), g)
  {
    NextInv(s, t, a);
    NextAbout(s, t, a, g);
    NextReady(s, t, a);
    if g in s.ready {
      NextAfter(s, t, a, g);
    } else if s.tasks[t].pc.Finish? {
      assert About(s.tasks[t].pc, g);
      NextRelease(s, t);
    } else {
      NextBefore(s, t, a);
    }
  }

  /**
     With one guard that is released and not aborted: once it is ready, the tokens and the gives still to
     be made equal the tasks still waiting at the semaphore, and every woken task leaves the loop.
   */
  lemma {:induction false} SingleGuardTokens(s: State, run: seq<Move>, g: Guard)
    requires OnlyInv(s, g) && IsRun(s, run) && OnlyGuard(run, g)
    ensures OnlyInv(End(s, run), g)
    decreases run
  {
    if run != [] {
      NextOnly(s, run[0].t, run[0].a, g);
      SingleGuardTokens(Next(s, run[0].t, run[0].a), run[1..], g);
    }
  }

  lemma SingleGuard(s0: State, run: seq<Move>, g: Guard)
    requires Init(s0) && IsRun(s0, run) && OnlyGuard(run, g) && g in End(s0, run).ready
    ensures var s := End(s0, run);
            && s.sem + Gives(s) == |Sleepers(s)|
            && (forall t | t in s.tasks && s.tasks[t].pc.Recheck? :: Next(s, t, Continue).tasks[t].pc == Decide(g))
  {
    InitInv(s0);
    assert Sleepers(s0) == {};
    SingleGuardTokens(s0, run, g);
  }
}
