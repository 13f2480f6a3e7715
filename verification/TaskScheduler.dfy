/**
 The task queue of idf.py: the loop of CLI.execute_tasks in tools/idf.py that pulls dependencies, and
 order dependencies that are in the list, in front of the task that needs them.
 */
module TaskScheduler {
  import opened Common

  type Name = string

  /** A task object. The same command given twice makes two objects of the same name. */
  datatype Task = Task(name: Name, id: nat)

  datatype Command = Command(dependencies: seq<Name>, orderDependencies: seq<Name>)

  /** The commands by name. */
  type Commands = map<Name, Command>

  ghost predicate IsClosed(cmds: Commands, names: set<Name>) {
    forall n, d | n in names && n in cmds && d in cmds[n].dependencies :: d in names
  }

  function Names(ts: seq<Task>): set<Name> {
    set t | t in ts :: t.name
  }

  /** Every object is in the list once, so that equality of tasks is identity. */
  ghost predicate Distinct(ts: seq<Task>) {
    forall t :: multiset(ts)[t] <= 1
  }

  /** `tasks_dict[name]`: the last task of that name in the list from which the dict was made. */
  function LastOf(ts: seq<Task>, name: Name): (t: Option<Task>)
    ensures t.Some? ==> t.value in ts && t.value.name == name
    ensures t.None? <==> name !in Names(ts)
  {
    if ts == [] then None
    else if ts[|ts| - 1].name == name then Some(ts[|ts| - 1])
    else
      assert ts == ts[..|ts| - 1] + [ts[|ts| - 1]];
      LastOf(ts[..|ts| - 1], name)
  }

  /** `tasks.index(t)` */
  function IndexOf(ts: seq<Task>, t: Task): (i: nat)
    requires t in ts
    ensures i < |ts| && ts[i] == t
  {
    if ts[0] == t then 0 else 1 + IndexOf(ts[1..], t)
  }

  /** `tasks.insert(0, tasks.pop(tasks.index(t)))` */
  function ToFront(ts: seq<Task>, t: Task): (r: seq<Task>)
    requires t in ts
    ensures |r| == |ts| && r[0] == t && multiset(r) == multiset(ts)
  {
    var i := IndexOf(ts, t);
    assert ts == ts[..i] + [t] + ts[i + 1..];
    [t] + ts[..i] + ts[i + 1..]
  }

  lemma SameNames(a: seq<Task>, b: seq<Task>)
    requires multiset(a) == multiset(b)
    ensures Names(a) == Names(b)
  {
    forall t | t in a
      ensures t in b
    {
      assert multiset(a)[t] > 0;
    }
    forall t | t in b
      ensures t in a
    {
      assert multiset(b)[t] > 0;
    }
  }

  /** The list being processed, the tasks queued to run, and the number of objects made so far. */
  datatype State = State(tasks: seq<Task>, run: seq<Task>, made: nat)
  {
    ghost predicate Ok() {
      Distinct(tasks) && forall t | t in tasks :: t.id < made
    }
  }

  /**
     One step of the two inner loops: unless d is queued to run, it is pulled in front. The dict was made
     from `snapshot`. A dependency that is not in it is made anew; an order dependency is then ignored.
   */
  function Pull(snapshot: seq<Task>, s: State, d: Name, required: bool): (s': State)
    requires forall t | t in snapshot :: t in s.tasks
    ensures forall t | t in snapshot :: t in s'.tasks
    ensures s'.run == s.run
  {
    if d in Names(s.run) then s
    else
      match LastOf(snapshot, d)
      case Some(t) => s.(tasks := ToFront(s.tasks, t))
      case None => if required then s.(tasks := [Task(d, s.made)] + s.tasks, made := s.made + 1) else s
  }

  /** The names that Pull acts on. */
  predicate Pulls(snapshot: seq<Task>, run: seq<Task>, d: Name, required: bool) {
    d !in Names(run) && (required || d in Names(snapshot))
  }

  function PullAll(snapshot: seq<Task>, s: State, ds: seq<Name>, required: bool): (s': State)
    requires forall t | t in snapshot :: t in s.tasks
    ensures forall t | t in snapshot :: t in s'.tasks
    ensures s'.run == s.run
    decreases ds
  {
    if ds == [] then s else PullAll(snapshot, Pull(snapshot, s, ds[0], required), ds[1..], required)
  }

  /** From s to s' the names in `pulled` were pulled: those missing were added, and one of them is in front. */
  ghost predicate Moved(known: set<Name>, s: State, s': State, pulled: set<Name>) {
    && s'.Ok() && s'.run == s.run
    && Names(s'.tasks) == Names(s.tasks) + pulled
    && (if pulled == {} then s' == s else s'.tasks != [] && s'.tasks[0].name in pulled)
    && (pulled <= known ==> |s'.tasks| == |s.tasks|)
  }

  lemma MovedTwice(known: set<Name>, s: State, s1: State, s2: State, p: set<Name>, q: set<Name>)
    requires Moved(known, s, s1, p) && Moved(known, s1, s2, q)
    ensures Moved(known, s, s2, p + q)
  {
  }

  lemma ToFrontMoves(known: set<Name>, s: State, t: Task)
    requires s.Ok() && t in s.tasks
    ensures Moved(known, s, s.(tasks := ToFront(s.tasks, t)), {t.name})
  {
    var ts := ToFront(s.tasks, t);
    SameNames(s.tasks, ts);
    assert t.name in Names(s.tasks);
    forall u | u in ts
      ensures u in s.tasks
    {
      assert multiset(ts)[u] > 0;
    }
  }

  lemma MakeMoves(known: set<Name>, s: State, d: Name)
    requires s.Ok() && d !in known
    ensures Moved(known, s, s.(tasks := [Task(d, s.made)] + s.tasks, made := s.made + 1), {d})
  {
    var t := Task(d, s.made);
    var ts := [t] + s.tasks;
    assert t !in s.tasks;
    assert multiset(ts) == multiset{t} + multiset(s.tasks);
    assert ts[0] == t && forall u | u in s.tasks :: u in ts;
  }

  lemma PullFacts(snapshot: seq<Task>, s: State, d: Name, required: bool)
    requires forall t | t in snapshot :: t in s.tasks
    requires s.Ok()
    ensures Moved(Names(snapshot), s, Pull(snapshot, s, d, required), if Pulls(snapshot, s.run, d, required) then {d} else {})
  {
    if Pulls(snapshot, s.run, d, required) {
      var last := LastOf(snapshot, d);
      if last.Some? {
        ToFrontMoves(Names(snapshot), s, last.value);
      } else {
        MakeMoves(Names(snapshot), s, d);
      }
    }
  }

  /** The names among ds that are pulled. */
  function Pulled(snapshot: seq<Task>, run: seq<Task>, ds: seq<Name>, required: bool): set<Name> {
    set d | d in ds && Pulls(snapshot, run, d, required)
  }

  lemma PulledCons(snapshot: seq<Task>, run: seq<Task>, d: Name, rest: seq<Name>, required: bool)
    ensures Pulled(snapshot, run, [d] + rest, required)
            == (if Pulls(snapshot, run, d, required) then {d} else {}) + Pulled(snapshot, run, rest, required)
  {
  }

  /** The two inner loops only add names of missing dependencies, and bring one of the names they pull to the front. */
  lemma {:induction false} PullAllFacts(snapshot: seq<Task>, s: State, ds: seq<Name>, required: bool)
    requires forall t | t in snapshot :: t in s.tasks
    requires s.Ok()
    ensures Moved(Names(snapshot), s, PullAll(snapshot, s, ds, required), Pulled(snapshot, s.run, ds, required))
    decreases ds
  {
    var known := Names(snapshot);
    if ds == [] {
    } else {
      var d, rest := ds[0], ds[1..];
      assert ds == [d] + rest;
      var s1 := Pull(snapshot, s, d, required);
      PulledCons(snapshot, s.run, d, rest, required);
      PullFacts(snapshot, s, d, required);
      hide Pull, Pulls, Pulled, Names, State.Ok, LastOf, Moved;
      PullAllFacts(snapshot, s1, rest, required);
      MovedTwice(known, s, s1, PullAll(snapshot, s1, rest, required),
                 if Pulls(snapshot, s.run, d, required) then {d} else {}, Pulled(snapshot, s.run, rest, required));
    }
  }

  /** The last one of the names that is pulled comes to the front: the last task of that name, or else a new one. */
  lemma {:induction false} LastPulledInFront(snapshot: seq<Task>, s: State, ds: seq<Name>, required: bool, k: nat)
    requires forall t | t in snapshot :: t in s.tasks
    requires k < |ds| && Pulls(snapshot, s.run, ds[k], required)
    requires forall j | k < j < |ds| :: !Pulls(snapshot, s.run, ds[j], required)
    ensures var front := PullAll(snapshot, s, ds, required).tasks;
            && front != [] && front[0].name == ds[k]
            && (ds[k] in Names(snapshot) ==> Some(front[0]) == LastOf(snapshot, ds[k]))
            && (ds[k] !in Names(snapshot) ==> front[0].id >= s.made)
    decreases ds
  {
    var s1 := Pull(snapshot, s, ds[0], required);
    if k > 0 {
      LastPulledInFront(snapshot, s1, ds[1..], required, k - 1);
    } else {
      PullNothing(snapshot, s1, ds[1..], required);
    }
  }

  lemma {:induction false} PullNothing(snapshot: seq<Task>, s: State, ds: seq<Name>, required: bool)
    requires forall t | t in snapshot :: t in s.tasks
    requires forall j | 0 <= j < |ds| :: !Pulls(snapshot, s.run, ds[j], required)
    ensures PullAll(snapshot, s, ds, required) == s
    decreases ds
  {
    if ds != [] {
      assert !Pulls(snapshot, s.run, ds[0], required);
      PullNothing(snapshot, s, ds[1..], required);
    }
  }

  // ---------------------------------------------------------------- one round of the outer loop

  /** The dependencies of the front task that are not queued, and its order dependencies in the list that are not. */
  function Missing(cmds: Commands, s: State): (m: (set<Name>, set<Name>))
    requires s.tasks != [] && s.tasks[0].name in cmds
  {
    var c := cmds[s.tasks[0].name];
    (Pulled(s.tasks, s.run, c.dependencies, true), Pulled(s.tasks, s.run, c.orderDependencies, false))
  }

  function Enqueue(run: seq<Task>, t: Task): seq<Task> {
    if t.name in Names(run) then run else run + [t]
  }

  /** Pulls what the front task misses, or, if it misses nothing, takes it off the list and queues it. */
  function Round(cmds: Commands, s: State): State
    requires s.tasks != [] && s.tasks[0].name in cmds
  {
    var c := cmds[s.tasks[0].name];
    if Missing(cmds, s) == ({}, {}) then s.(tasks := s.tasks[1..], run := Enqueue(s.run, s.tasks[0]))
    else PullAll(s.tasks, PullAll(s.tasks, s, c.dependencies, true), c.orderDependencies, false)
  }

  /** All names in the list are among `names`, a set of commands that holds the dependencies of its members. */
  ghost predicate Valid(cmds: Commands, names: set<Name>, s: State) {
    names <= cmds.Keys && IsClosed(cmds, names) && s.Ok() && Names(s.tasks) <= names
  }

  lemma RoundPulls(cmds: Commands, names: set<Name>, s: State)
    requires Valid(cmds, names, s) && s.tasks != [] && Missing(cmds, s) != ({}, {})
    ensures var m := Missing(cmds, s);
            Valid(cmds, names, Round(cmds, s)) && Moved(Names(s.tasks), s, Round(cmds, s), m.0 + m.1)
  {
    assert s.tasks[0].name in Names(s.tasks);
    var c, m := cmds[s.tasks[0].name], Missing(cmds, s);
    var s1 := PullAll(s.tasks, s, c.dependencies, true);
    PullAllFacts(s.tasks, s, c.dependencies, true);
    PullAllFacts(s.tasks, s1, c.orderDependencies, false);
    MovedTwice(Names(s.tasks), s, s1, Round(cmds, s), m.0, m.1);
    assert m.0 <= names && m.1 <= Names(s.tasks);
  }

  lemma RoundPops(cmds: Commands, names: set<Name>, s: State)
    requires Valid(cmds, names, s) && s.tasks != [] && Missing(cmds, s) == ({}, {})
    ensures var s' := Round(cmds, s);
            && Valid(cmds, names, s')
            && Names(s'.tasks) + Names(s'.run) == Names(s.tasks) + Names(s.run)
            && Names(s'.run) == Names(s.run) + {s.tasks[0].name}
  {
    var t, rest := s.tasks[0], s.tasks[1..];
    assert s.tasks == [t] + rest;
    assert multiset(s.tasks) == multiset{t} + multiset(rest);
    assert forall u :: multiset(rest)[u] <= multiset(s.tasks)[u] <= 1;
    assert t.name in Names(s.tasks);
    forall u | u in s.tasks
      ensures u.name in Names(rest) + {t.name}
    {
    }
    assert Names(s.tasks) == Names(rest) + {t.name};
    if t.name !in Names(s.run) {
      assert forall u | u in s.run :: u in s.run + [t];
      assert t in s.run + [t];
    }
  }

  /** Entry k is the last one of these names that is pulled. */
  ghost predicate LastPulled(snapshot: seq<Task>, run: seq<Task>, ds: seq<Name>, required: bool, k: nat) {
    k < |ds| && Pulls(snapshot, run, ds[k], required) && forall j | k < j < |ds| :: !Pulls(snapshot, run, ds[j], required)
  }

  /**
     Which task is processed next, if the front one misses something: the last one of its order dependencies that it
     misses, or the last one of its dependencies if it misses none of those.
   */
  lemma NextInFront(cmds: Commands, s: State, k: nat)
    requires s.tasks != [] && s.tasks[0].name in cmds
    ensures var c, next := cmds[s.tasks[0].name], Round(cmds, s).tasks;
            && (LastPulled(s.tasks, s.run, c.orderDependencies, false, k) ==>
                  next != [] && Some(next[0]) == LastOf(s.tasks, c.orderDependencies[k]))
            && (LastPulled(s.tasks, s.run, c.dependencies, true, k) && Missing(cmds, s).1 == {} ==>
                  next != [] && next[0].name == c.dependencies[k]
                  && (c.dependencies[k] in Names(s.tasks) ==> Some(next[0]) == LastOf(s.tasks, c.dependencies[k])))
  {
    var c := cmds[s.tasks[0].name];
    var s1 := PullAll(s.tasks, s, c.dependencies, true);
    if LastPulled(s.tasks, s.run, c.orderDependencies, false, k) {
      assert c.orderDependencies[k] in Missing(cmds, s).1;
      LastPulledInFront(s.tasks, s1, c.orderDependencies, false, k);
    }
    if LastPulled(s.tasks, s.run, c.dependencies, true, k) && Missing(cmds, s).1 == {} {
      assert c.dependencies[k] in Missing(cmds, s).0;
      forall j | 0 <= j < |c.orderDependencies| ensures !Pulls(s.tasks, s.run, c.orderDependencies[j], false) {
        assert c.orderDependencies[j] !in Missing(cmds, s).1;
      }
      PullNothing(s.tasks, s1, c.orderDependencies, false);
      LastPulledInFront(s.tasks, s, c.dependencies, true, k);
    }
  }

  // ---------------------------------------------------------------- termination

  /** The dependencies and order dependencies among these commands have no cycle. */
  ghost predicate Ranked(cmds: Commands, names: set<Name>, rank: map<Name, nat>)
    requires names <= cmds.Keys
  {
    && names <= rank.Keys
    && forall n, d | n in names && d in names && (d in cmds[n].dependencies || d in cmds[n].orderDependencies) ::
         rank[d] < rank[n]
  }

  /** Names that are neither in the list nor queued. */
  function Unseen(names: set<Name>, s: State): set<Name> {
    names - Names(s.tasks) - Names(s.run)
  }

  function FrontRank(rank: map<Name, nat>, s: State): nat {
    if s.tasks != [] && s.tasks[0].name in rank then rank[s.tasks[0].name] else 0
  }

  lemma EmptyUnion(a: set<Name>, b: set<Name>)
    ensures a + b == {} <==> a == {} && b == {}
  {
    assert a <= a + b && b <= a + b;
  }

  /** Each round makes an unseen command seen, or else shortens the list, or else lowers the rank of the front task. */
  lemma RoundDecreases(cmds: Commands, names: set<Name>, rank: map<Name, nat>, s: State)
    requires Valid(cmds, names, s) && s.tasks != [] && Ranked(cmds, names, rank)
    ensures var s' := Round(cmds, s);
            Unseen(names, s') < Unseen(names, s) ||
            (Unseen(names, s') == Unseen(names, s) &&
             (|s'.tasks| < |s.tasks| ||
              (|s'.tasks| == |s.tasks| && FrontRank(rank, s') < FrontRank(rank, s))))
  {
    var s' := Round(cmds, s);
    assert s.tasks[0].name in Names(s.tasks);
    var m := Missing(cmds, s);
    if m == ({}, {}) {
      RoundPops(cmds, names, s);
    } else {
      RoundPulls(cmds, names, s);
      var c, f := cmds[s.tasks[0].name], s'.tasks[0].name;
      assert f in Names(s'.tasks);
      assert m.0 <= m.0 + m.1 && m.1 <= m.0 + m.1;
      assert m.0 != {} || m.1 != {};
      EmptyUnion(m.0, m.1);
      assert f in m.0 + m.1 && (f in c.dependencies || f in c.orderDependencies);
      assert FrontRank(rank, s') < FrontRank(rank, s);
      if !(m.0 <= Names(s.tasks)) {
        var d :| d in m.0 && d !in Names(s.tasks);
        assert d in Unseen(names, s) && d !in Unseen(names, s');
      }
    }
  }

  // ---------------------------------------------------------------- what the queue is

  /** Each command is queued once, behind its dependencies and behind its order dependencies that were requested. */
  ghost predicate Ordered(cmds: Commands, requested: set<Name>, run: seq<Task>) {
    && (forall i, j | 0 <= i < j < |run| :: run[i].name != run[j].name)
    && (forall i | 0 <= i < |run| :: run[i].name in cmds && Behind(cmds[run[i].name], requested, Names(run[..i])))
  }

  ghost predicate Behind(c: Command, requested: set<Name>, before: set<Name>) {
    && (forall d | d in c.dependencies :: d in before)
    && (forall d | d in c.orderDependencies && d in requested :: d in before)
  }

  ghost predicate Inv(cmds: Commands, names: set<Name>, requested: set<Name>, s: State) {
    && Valid(cmds, names, s)
    && Ordered(cmds, requested, s.run)
    && requested <= Names(s.tasks) + Names(s.run)
    && (forall c | IsClosed(cmds, c) && requested <= c :: Names(s.tasks) + Names(s.run) <= c)
  }

  lemma EnqueueOrdered(cmds: Commands, requested: set<Name>, run: seq<Task>, t: Task)
    requires Ordered(cmds, requested, run) && t.name in cmds && Behind(cmds[t.name], requested, Names(run))
    ensures Ordered(cmds, requested, Enqueue(run, t))
  {
    if t.name !in Names(run) {
      var run' := run + [t];
      assert run'[..|run|] == run;
      forall i | 0 <= i < |run'|
        ensures run'[i].name in cmds && Behind(cmds[run'[i].name], requested, Names(run'[..i]))
      {
        if i < |run| {
          assert run'[..i] == run[..i];
        }
      }
      forall i, j | 0 <= i < j < |run'|
        ensures run'[i].name != run'[j].name
      {
        assert run[i] in run;
      }
    }
  }

  lemma RoundKeeps(cmds: Commands, names: set<Name>, requested: set<Name>, s: State)
    requires Inv(cmds, names, requested, s) && s.tasks != []
    ensures Inv(cmds, names, requested, Round(cmds, s))
  {
    var s', t := Round(cmds, s), s.tasks[0];
    assert t.name in Names(s.tasks);
    var c, m := cmds[t.name], Missing(cmds, s);
    if m == ({}, {}) {
      RoundPops(cmds, names, s);
      forall d | d in c.dependencies
        ensures d in Names(s.run)
      {
        assert d !in Pulled(s.tasks, s.run, c.dependencies, true);
      }
      forall d | d in c.orderDependencies && d in requested
        ensures d in Names(s.run)
      {
        assert d !in Pulled(s.tasks, s.run, c.orderDependencies, false);
      }
      EnqueueOrdered(cmds, requested, s.run, t);
    } else {
      RoundPulls(cmds, names, s);
    }
  }

  /** The queue at the end: everything requested and its dependencies, nothing else, in a correct order. */
  ghost predicate Scheduled(cmds: Commands, requested: set<Name>, run: seq<Task>) {
    && Ordered(cmds, requested, run)
    && requested <= Names(run) && IsClosed(cmds, Names(run))
    && (forall c | IsClosed(cmds, c) && requested <= c :: Names(run) <= c)
  }

  lemma EndIsScheduled(cmds: Commands, names: set<Name>, requested: set<Name>, s: State)
    requires Inv(cmds, names, requested, s) && s.tasks == []
    ensures Scheduled(cmds, requested, s.run)
  {
    forall n, d | n in Names(s.run) && n in cmds && d in cmds[n].dependencies
      ensures d in Names(s.run)
    {
      var t :| t in s.run && t.name == n;
      var i :| 0 <= i < |s.run| && s.run[i] == t;
      assert d in Names(s.run[..i]);
    }
  }

  /** The inner loop of execute_tasks over one list of dependencies. */
  method PullLoop(snapshot: seq<Task>, s: State, ds: seq<Name>, required: bool) returns (s': State, processed: bool)
    requires forall t | t in snapshot :: t in s.tasks
    ensures s' == PullAll(snapshot, s, ds, required)
    ensures processed <==> Pulled(snapshot, s.run, ds, required) == {}
  {
    s', processed := s, true;
    for i := 0 to |ds|
      invariant forall t | t in snapshot :: t in s'.tasks
      invariant s'.run == s.run
      invariant PullAll(snapshot, s', ds[i..], required) == PullAll(snapshot, s, ds, required)
      invariant processed <==> forall k | 0 <= k < i :: !Pulls(snapshot, s.run, ds[k], required)
    {
      var d := ds[i];
      if Pulls(snapshot, s'.run, d, required) {
        processed := false;
      }
      s' := Pull(snapshot, s', d, required);
    }
    if processed {
      assert forall d | d in ds :: !Pulls(snapshot, s.run, d, required);
    } else {
      var k :| 0 <= k < |ds| && Pulls(snapshot, s.run, ds[k], required);
      assert ds[k] in Pulled(snapshot, s.run, ds, required);
    }
  }

  // ---------------------------------------------------------------- which of two tasks of one name is queued

  function FirstOf(ts: seq<Task>, name: Name): (t: Option<Task>)
    ensures t.Some? ==> t.value in ts && t.value.name == name
    ensures t.None? <==> name !in Names(ts)
  {
    if ts == [] then None
    else if ts[0].name == name then Some(ts[0])
    else
      assert ts == [ts[0]] + ts[1..];
      FirstOf(ts[1..], name)
  }

  lemma {:induction false} FirstOfConcat(a: seq<Task>, b: seq<Task>, name: Name)
    ensures FirstOf(a + b, name) == if FirstOf(a, name).Some? then FirstOf(a, name) else FirstOf(b, name)
    decreases |a|
  {
    if a == [] {
      assert a + b == b;
    } else {
      assert (a + b)[1..] == a[1..] + b;
      FirstOfConcat(a[1..], b, name);
    }
  }

  /** None of these commands names n as a dependency or an order dependency. */
  ghost predicate Unneeded(cmds: Commands, names: set<Name>, n: Name) {
    forall m | m in names && m in cmds :: n !in cmds[m].dependencies && n !in cmds[m].orderDependencies
  }

  /** Task t is queued, or else no task of its name is, and it is the first of them in the list. */
  ghost predicate FirstFirst(s: State, n: Name, t: Task) {
    t in s.run || (n !in Names(s.run) && FirstOf(s.tasks, n) == Some(t))
  }

  lemma MovingKeepsFirst(a: seq<Task>, t: Task, b: seq<Task>, n: Name)
    requires t.name != n
    ensures FirstOf([t] + (a + b), n) == FirstOf(a + ([t] + b), n)
  {
    assert FirstOf([t], n) == None by {
      assert [t][1..] == [];
    }
    hide FirstOf;
    FirstOfConcat(a, [t] + b, n);
    FirstOfConcat([t], b, n);
    FirstOfConcat([t], a + b, n);
    FirstOfConcat(a, b, n);
  }

  lemma SplitAt(ts: seq<Task>, t: Task) returns (a: seq<Task>, b: seq<Task>)
    requires t in ts
    ensures ts == a + ([t] + b) && ToFront(ts, t) == [t] + (a + b)
  {
    hide IndexOf;
    var i := IndexOf(ts, t);
    a, b := ts[..i], ts[i + 1..];
    assert [t] + a + b == [t] + (a + b);
  }

  lemma ToFrontKeepsFirst(ts: seq<Task>, t: Task, n: Name)
    requires t in ts && t.name != n
    ensures FirstOf(ToFront(ts, t), n) == FirstOf(ts, n)
  {
    var a, b := SplitAt(ts, t);
    MovingKeepsFirst(a, t, b, n);
  }

  lemma {:induction false} PullAllKeepsFirst(snapshot: seq<Task>, s: State, ds: seq<Name>, required: bool, n: Name)
    requires forall t | t in snapshot :: t in s.tasks
    requires n !in ds
    ensures FirstOf(PullAll(snapshot, s, ds, required).tasks, n) == FirstOf(s.tasks, n)
    decreases ds
  {
    if ds != [] {
      var s1, last := Pull(snapshot, s, ds[0], required), LastOf(snapshot, ds[0]);
      if ds[0] !in Names(s.run) && last.Some? {
        ToFrontKeepsFirst(s.tasks, last.value, n);
      } else if s1 != s {
        FirstOfConcat([Task(ds[0], s.made)], s.tasks, n);
      }
      PullAllKeepsFirst(snapshot, s1, ds[1..], required, n);
    }
  }

  lemma RoundKeepsFirst(cmds: Commands, names: set<Name>, s: State, n: Name, t: Task)
    requires Valid(cmds, names, s) && s.tasks != [] && Unneeded(cmds, names, n) && FirstFirst(s, n, t)
    ensures FirstFirst(Round(cmds, s), n, t)
  {
    var front := s.tasks[0];
    assert front.name in Names(s.tasks);
    var c := cmds[front.name];
    if Missing(cmds, s) == ({}, {}) {
      FirstOfConcat([front], s.tasks[1..], n);
      assert s.tasks == [front] + s.tasks[1..];
    } else {
      PullAllKeepsFirst(s.tasks, s, c.dependencies, true, n);
      PullAllKeepsFirst(s.tasks, PullAll(s.tasks, s, c.dependencies, true), c.orderDependencies, false, n);
    }
  }

  // ---------------------------------------------------------------- the order of independent commands

  /** Task x stands before task y. */
  ghost predicate Before(ts: seq<Task>, x: Task, y: Task) {
    exists i, j :: 0 <= i < j < |ts| && ts[i] == x && ts[j] == y
  }

  lemma BeforeBehind(a: seq<Task>, ts: seq<Task>, x: Task, y: Task)
    requires Before(ts, x, y)
    ensures Before(a + ts, x, y)
  {
    var i, j :| 0 <= i < j < |ts| && ts[i] == x && ts[j] == y;
    assert (a + ts)[|a| + i] == x && (a + ts)[|a| + j] == y;
  }

  lemma BeforeInFront(ts: seq<Task>, b: seq<Task>, x: Task, y: Task)
    requires Before(ts, x, y)
    ensures Before(ts + b, x, y)
  {
    var i, j :| 0 <= i < j < |ts| && ts[i] == x && ts[j] == y;
    assert (ts + b)[i] == x && (ts + b)[j] == y;
  }

  /** Moving another task does not change who stands first. */
  lemma BeforeMoved(a: seq<Task>, t: Task, b: seq<Task>, x: Task, y: Task)
    requires Before(a + ([t] + b), x, y) && x != t && y != t
    ensures Before([t] + (a + b), x, y)
  {
    var ts, moved := a + ([t] + b), [t] + (a + b);
    var i, j :| 0 <= i < j < |ts| && ts[i] == x && ts[j] == y;
    var i', j' := if i < |a| then i + 1 else i, if j < |a| then j + 1 else j;
    assert moved[i'] == ts[i] && moved[j'] == ts[j];
  }

  lemma BeforeRest(ts: seq<Task>, x: Task, y: Task)
    requires Before(ts, x, y) && ts[0] != x
    ensures Before(ts[1..], x, y)
  {
    var i, j :| 0 <= i < j < |ts| && ts[i] == x && ts[j] == y;
    assert ts[1..][i - 1] == x && ts[1..][j - 1] == y;
  }

  lemma SecondIsNotFirst(ts: seq<Task>, x: Task, y: Task)
    requires Distinct(ts) && Before(ts, x, y)
    ensures ts[0] != y
  {
    var i, j :| 0 <= i < j < |ts| && ts[i] == x && ts[j] == y;
    var rest := ts[1..];
    assert rest[j - 1] == y && multiset(rest)[y] > 0;
    assert ts == [ts[0]] + rest;
    assert multiset(ts) == multiset{ts[0]} + multiset(rest) && multiset(ts)[y] <= 1;
  }

  lemma {:induction false} PullAllKeepsBefore(snapshot: seq<Task>, s: State, ds: seq<Name>, required: bool, x: Task, y: Task)
    requires forall t | t in snapshot :: t in s.tasks
    requires x.name !in ds && y.name !in ds && Before(s.tasks, x, y)
    ensures Before(PullAll(snapshot, s, ds, required).tasks, x, y)
    decreases ds
  {
    if ds != [] {
      var s1, last := Pull(snapshot, s, ds[0], required), LastOf(snapshot, ds[0]);
      assert Before(s1.tasks, x, y) by {
        if ds[0] !in Names(s.run) && last.Some? {
          var a, b := SplitAt(s.tasks, last.value);
          BeforeMoved(a, last.value, b, x, y);
        } else if s1 != s {
          BeforeBehind([Task(ds[0], s.made)], s.tasks, x, y);
        }
      }
      PullAllKeepsBefore(snapshot, s1, ds[1..], required, x, y);
    }
  }

  /** x, the first task of name n, is ahead of y, the first one of name m: in the queue, or in the list if neither is queued. */
  ghost predicate Ahead(s: State, n: Name, m: Name, x: Task, y: Task) {
    && n != m && x.name == n && y.name == m
    && FirstFirst(s, n, x) && FirstFirst(s, m, y)
    && if y in s.run then Before(s.run, x, y) else x in s.run || Before(s.tasks, x, y)
  }

  lemma PopKeepsAhead(cmds: Commands, names: set<Name>, s: State, n: Name, m: Name, x: Task, y: Task)
    requires Valid(cmds, names, s) && s.tasks != [] && Ahead(s, n, m, x, y)
    ensures var run := Enqueue(s.run, s.tasks[0]);
            if y in run then Before(run, x, y) else x in run || Before(s.tasks[1..], x, y)
  {
    var front, run := s.tasks[0], Enqueue(s.run, s.tasks[0]);
    if y in s.run {
      if run != s.run {
        BeforeInFront(s.run, [front], x, y);
      }
    } else if x in s.run {
      if front == y {
        var i :| 0 <= i < |s.run| && s.run[i] == x;
        assert run == s.run + [y];
        assert run[i] == x && run[|s.run|] == y;
      }
    } else {
      SecondIsNotFirst(s.tasks, x, y);
      if front != x {
        BeforeRest(s.tasks, x, y);
      }
    }
  }

  lemma RoundKeepsAhead(cmds: Commands, names: set<Name>, s: State, n: Name, m: Name, x: Task, y: Task)
    requires Valid(cmds, names, s) && s.tasks != [] && Ahead(s, n, m, x, y)
    requires Unneeded(cmds, names, n) && Unneeded(cmds, names, m)
    ensures s.tasks[0].name in cmds && Ahead(Round(cmds, s), n, m, x, y)
  {
    assert s.tasks[0].name in Names(s.tasks);
    var c := cmds[s.tasks[0].name];
    RoundKeepsFirst(cmds, names, s, n, x);
    RoundKeepsFirst(cmds, names, s, m, y);
    if Missing(cmds, s) == ({}, {}) {
      PopKeepsAhead(cmds, names, s, n, m, x, y);
    } else if y !in s.run && x !in s.run {
      PullAllKeepsBefore(s.tasks, s, c.dependencies, true, x, y);
      PullAllKeepsBefore(s.tasks, PullAll(s.tasks, s, c.dependencies, true), c.orderDependencies, false, x, y);
    }
  }

  /** The tasks that are the first of their name. */
  function FirstsOf(ts: seq<Task>): seq<Task> {
    if ts == [] then []
    else
      var last, before := ts[|ts| - 1], ts[..|ts| - 1];
      FirstsOf(before) + if last.name in Names(before) then [] else [last]
  }

  // ---------------------------------------------------------------- rounds

  /** The state after at most k rounds. */
  function Rounds(cmds: Commands, s: State, k: nat): State
    decreases k
  {
    if k == 0 || s.tasks == [] || s.tasks[0].name !in cmds then s else Rounds(cmds, Round(cmds, s), k - 1)
  }

  lemma {:induction false} RoundsNext(cmds: Commands, s: State, k: nat)
    requires var e := Rounds(cmds, s, k); e.tasks != [] && e.tasks[0].name in cmds
    ensures Rounds(cmds, s, k + 1) == Round(cmds, Rounds(cmds, s, k))
    decreases k
  {
    hide Round;
    if k > 0 && s.tasks != [] && s.tasks[0].name in cmds {
      RoundsNext(cmds, Round(cmds, s), k - 1);
    }
  }

  lemma RoundIsValid(cmds: Commands, names: set<Name>, s: State)
    requires Valid(cmds, names, s) && s.tasks != []
    ensures s.tasks[0].name in cmds && Valid(cmds, names, Round(cmds, s))
  {
    assert s.tasks[0].name in Names(s.tasks);
    if Missing(cmds, s) == ({}, {}) {
      RoundPops(cmds, names, s);
    } else {
      RoundPulls(cmds, names, s);
    }
  }

  lemma {:induction false} RoundsKeepOrder(cmds: Commands, names: set<Name>, s: State, n: Name, m: Name, x: Task, y: Task, k: nat)
    requires Valid(cmds, names, s) && Unneeded(cmds, names, n) && Unneeded(cmds, names, m) && Ahead(s, n, m, x, y)
    requires Rounds(cmds, s, k).tasks == []
    ensures Before(Rounds(cmds, s, k).run, x, y)
    decreases k
  {
    hide Round, Valid, Unneeded, Missing;
    if s.tasks != [] {
      RoundIsValid(cmds, names, s);
      RoundKeepsAhead(cmds, names, s, n, m, x, y);
      hide Ahead;
      RoundsKeepOrder(cmds, names, Round(cmds, s), n, m, x, y, k - 1);
    }
  }

  /** Every task is one of the request, or made for a name that the request does not have. */
  ghost predicate FromRequest(s: State, tasks: seq<Task>, made: nat) {
    s.made >= made && forall t | t in s.tasks || t in s.run :: t in tasks || (t.id >= made && t.name !in Names(tasks))
  }

  lemma {:induction false} PullAllMakes(snapshot: seq<Task>, s: State, ds: seq<Name>, required: bool)
    requires forall t | t in snapshot :: t in s.tasks
    ensures var s' := PullAll(snapshot, s, ds, required);
            s'.made >= s.made &&
            forall t | t in s'.tasks ::
              t in s.tasks || (t.id >= s.made && t.name !in Names(snapshot) && t.name !in Names(s.run))
    decreases ds
  {
    if ds != [] {
      var s1, last := Pull(snapshot, s, ds[0], required), LastOf(snapshot, ds[0]);
      PullAllMakes(snapshot, s1, ds[1..], required);
      if ds[0] !in Names(s.run) && last.Some? {
        var a, b := SplitAt(s.tasks, last.value);
        assert forall t | t in s1.tasks :: t in s.tasks;
      }
    }
  }

  lemma RoundFromRequest(cmds: Commands, names: set<Name>, s: State, tasks: seq<Task>, made: nat)
    requires Valid(cmds, names, s) && s.tasks != [] && FromRequest(s, tasks, made)
    requires Names(tasks) <= Names(s.tasks) + Names(s.run)
    ensures s.tasks[0].name in cmds && FromRequest(Round(cmds, s), tasks, made)
  {
    assert s.tasks[0].name in Names(s.tasks);
    var c := cmds[s.tasks[0].name];
    if Missing(cmds, s) == ({}, {}) {
      assert s.tasks[0] in s.tasks;
      assert forall t | t in s.tasks[1..] :: t in s.tasks;
    } else {
      var s1 := PullAll(s.tasks, s, c.dependencies, true);
      PullAllMakes(s.tasks, s, c.dependencies, true);
      PullAllMakes(s.tasks, s1, c.orderDependencies, false);
    }
  }

  // ---------------------------------------------------------------- the loop

  /** The first task of name n stands before the first one of name m. */
  ghost predicate GivenBefore(tasks: seq<Task>, n: Name, m: Name) {
    n != m && FirstOf(tasks, n).Some? && FirstOf(tasks, m).Some?
    && Before(tasks, FirstOf(tasks, n).value, FirstOf(tasks, m).value)
  }

  /** No command of these has a dependency or an order dependency. */
  ghost predicate Independent(cmds: Commands, names: set<Name>) {
    forall m | m in names && m in cmds :: cmds[m].dependencies == [] && cmds[m].orderDependencies == []
  }

  /**
     The loop of CLI.execute_tasks that turns the list of requested tasks into the queue. It ends if the
     dependencies and order dependencies have no cycle among `names`, the requested commands and those they depend
     on, as `rank` shows. A command that none of these needs is executed with the options of its first occurrence,
     and such commands stay in the order given. `k` is the number of rounds.
   */
  method ExecuteTasks(cmds: Commands, ghost names: set<Name>, ghost rank: map<Name, nat>, tasks: seq<Task>, made: nat)
    returns (run: seq<Task>, ghost k: nat)
    requires Valid(cmds, names, State(tasks, [], made)) && Ranked(cmds, names, rank)
    ensures Scheduled(cmds, Names(tasks), run)
    ensures forall n | n in Names(tasks) && Unneeded(cmds, names, n) :: FirstOf(tasks, n).value in run
    ensures forall n, m | Unneeded(cmds, names, n) && Unneeded(cmds, names, m) && GivenBefore(tasks, n, m) ::
              Before(run, FirstOf(tasks, n).value, FirstOf(tasks, m).value)
    // A requested command runs as it was requested, and only other ones are made.
    ensures forall t | t in run :: t in tasks || (t.id >= made && t.name !in Names(tasks))
    ensures Independent(cmds, names) ==> run == FirstsOf(tasks)
    ensures var end := Rounds(cmds, State(tasks, [], made), k); end.tasks == [] && end.run == run
  {
    hide *;
    var s := State(tasks, [], made);
    ghost var s0 := s;
    k := 0;
    StartProgresses(cmds, names, tasks, made);
    while s.tasks != []
      invariant Progress(cmds, names, tasks, made, s) && s == Rounds(cmds, s0, k)
      decreases Unseen(names, s), |s.tasks|, FrontRank(rank, s)
    {
      RoundProgresses(cmds, names, tasks, made, s);
      RoundDecreases(cmds, names, rank, s);
      RoundsNext(cmds, s0, k);
      s := OneRound(cmds, names, s);
      k := k + 1;
    }
    EndProgress(cmds, names, tasks, made, s);
    run := s.run;
    KeepsGivenOrder(cmds, names, tasks, made, k);
    if Independent(cmds, names) {
      IndependentRun(cmds, names, tasks, made, k);
    }
  }

  /** What holds before every round. */
  ghost predicate Progress(cmds: Commands, names: set<Name>, tasks: seq<Task>, made: nat, s: State) {
    && Inv(cmds, names, Names(tasks), s) && FromRequest(s, tasks, made)
    && forall n | n in Names(tasks) && Unneeded(cmds, names, n) :: FirstFirst(s, n, FirstOf(tasks, n).value)
  }

  lemma StartProgresses(cmds: Commands, names: set<Name>, tasks: seq<Task>, made: nat)
    requires Valid(cmds, names, State(tasks, [], made))
    ensures Progress(cmds, names, tasks, made, State(tasks, [], made))
    ensures Rounds(cmds, State(tasks, [], made), 0) == State(tasks, [], made)
  {
    RunIsEmpty(State(tasks, [], made));
  }

  lemma RoundProgresses(cmds: Commands, names: set<Name>, tasks: seq<Task>, made: nat, s: State)
    requires Progress(cmds, names, tasks, made, s) && s.tasks != []
    ensures Valid(cmds, names, s) && s.tasks[0].name in cmds && Progress(cmds, names, tasks, made, Round(cmds, s))
  {
    hide Round, FromRequest, FirstFirst, Unneeded;
    RoundKeeps(cmds, names, Names(tasks), s);
    RoundFromRequest(cmds, names, s, tasks, made);
    forall n | n in Names(tasks) && Unneeded(cmds, names, n)
      ensures FirstFirst(Round(cmds, s), n, FirstOf(tasks, n).value)
    {
      RoundKeepsFirst(cmds, names, s, n, FirstOf(tasks, n).value);
    }
  }

  lemma EndProgress(cmds: Commands, names: set<Name>, tasks: seq<Task>, made: nat, s: State)
    requires Progress(cmds, names, tasks, made, s) && s.tasks == []
    ensures Scheduled(cmds, Names(tasks), s.run)
    ensures forall n | n in Names(tasks) && Unneeded(cmds, names, n) :: FirstOf(tasks, n).value in s.run
    ensures forall t | t in s.run :: t in tasks || (t.id >= made && t.name !in Names(tasks))
  {
    EndIsScheduled(cmds, names, Names(tasks), s);
  }

  lemma KeepsGivenOrder(cmds: Commands, names: set<Name>, tasks: seq<Task>, made: nat, k: nat)
    requires Valid(cmds, names, State(tasks, [], made)) && Rounds(cmds, State(tasks, [], made), k).tasks == []
    ensures forall n, m | Unneeded(cmds, names, n) && Unneeded(cmds, names, m) && GivenBefore(tasks, n, m) ::
              Before(Rounds(cmds, State(tasks, [], made), k).run, FirstOf(tasks, n).value, FirstOf(tasks, m).value)
  {
    hide Valid, Rounds, Before, Unneeded, Ahead, FirstOf;
    forall n, m | Unneeded(cmds, names, n) && Unneeded(cmds, names, m) && GivenBefore(tasks, n, m)
      ensures Before(Rounds(cmds, State(tasks, [], made), k).run, FirstOf(tasks, n).value, FirstOf(tasks, m).value)
    {
      StartsAhead(tasks, made, n, m);
      RoundsKeepOrder(cmds, names, State(tasks, [], made), n, m, FirstOf(tasks, n).value, FirstOf(tasks, m).value, k);
    }
  }

  /** The body of the loop. */
  method OneRound(cmds: Commands, ghost names: set<Name>, s: State) returns (s': State)
    requires Valid(cmds, names, s) && s.tasks != []
    ensures s.tasks[0].name in cmds && s' == Round(cmds, s)
  {
    var task := s.tasks[0];
    assert task.name in Names(s.tasks);
    var s1, p1 := PullLoop(s.tasks, s, cmds[task.name].dependencies, true);
    var s2, p2 := PullLoop(s.tasks, s1, cmds[task.name].orderDependencies, false);
    s' := s2;
    if p1 && p2 {
      PullAllFacts(s.tasks, s, cmds[task.name].dependencies, true);
      PullAllFacts(s.tasks, s1, cmds[task.name].orderDependencies, false);
      assert s' == s;
      s' := s'.(tasks := s'.tasks[1..], run := Enqueue(s'.run, task));
    }
  }

  lemma StartsAhead(tasks: seq<Task>, made: nat, n: Name, m: Name)
    requires GivenBefore(tasks, n, m)
    ensures Ahead(State(tasks, [], made), n, m, FirstOf(tasks, n).value, FirstOf(tasks, m).value)
  {
    RunIsEmpty(State(tasks, [], made));
  }

  /** Without dependencies the queue is the first occurrences, in the order given. */
  lemma IndependentRun(cmds: Commands, names: set<Name>, tasks: seq<Task>, made: nat, k: nat)
    requires Valid(cmds, names, State(tasks, [], made)) && Independent(cmds, names)
    requires Rounds(cmds, State(tasks, [], made), k).tasks == []
    ensures Rounds(cmds, State(tasks, [], made), k).run == FirstsOf(tasks)
  {
    assert tasks[0..] == tasks && tasks[..0] == [];
    IndependentRounds(cmds, names, tasks, 0, made, k);
  }

  lemma {:induction false} IndependentRounds(cmds: Commands, names: set<Name>, tasks: seq<Task>, i: nat, made: nat, k: nat)
    requires i <= |tasks| && Names(tasks) <= names <= cmds.Keys && Independent(cmds, names)
    requires Rounds(cmds, State(tasks[i..], FirstsOf(tasks[..i]), made), k).tasks == []
    ensures Rounds(cmds, State(tasks[i..], FirstsOf(tasks[..i]), made), k).run == FirstsOf(tasks)
    decreases k
  {
    if i == |tasks| {
      assert tasks[..i] == tasks;
    } else {
      IndependentRound(cmds, names, tasks, i, made);
      hide Round, FirstsOf;
      IndependentRounds(cmds, names, tasks, i + 1, made, k - 1);
    }
  }

  lemma IndependentRound(cmds: Commands, names: set<Name>, tasks: seq<Task>, i: nat, made: nat)
    requires i < |tasks| && Names(tasks) <= names <= cmds.Keys && Independent(cmds, names)
    ensures tasks[i].name in cmds
    ensures Round(cmds, State(tasks[i..], FirstsOf(tasks[..i]), made))
         == State(tasks[i + 1..], FirstsOf(tasks[..i + 1]), made)
  {
    var s := State(tasks[i..], FirstsOf(tasks[..i]), made);
    assert tasks[i] in tasks && tasks[i].name in Names(tasks);
    assert s.tasks[0] == tasks[i] && s.tasks[1..] == tasks[i + 1..];
    NothingPulled(s.tasks, s.run, true);
    NothingPulled(s.tasks, s.run, false);
    assert tasks[..i + 1][..i] == tasks[..i];
    FirstsNames(tasks[..i]);
  }

  lemma NothingPulled(snapshot: seq<Task>, run: seq<Task>, required: bool)
    ensures Pulled(snapshot, run, [], required) == {}
  {
  }

  lemma {:induction false} FirstsNames(ts: seq<Task>)
    ensures Names(FirstsOf(ts)) == Names(ts)
    decreases |ts|
  {
    if ts != [] {
      var last, before := ts[|ts| - 1], ts[..|ts| - 1];
      FirstsNames(before);
      NamesOfBoth(before, [last]);
      NamesOfBoth(FirstsOf(before), if last.name in Names(before) then [] else [last]);
      assert ts == before + [last];
    }
  }

  lemma NamesOfBoth(a: seq<Task>, b: seq<Task>)
    ensures Names(a + b) == Names(a) + Names(b)
  {
    assert forall t | t in a :: t in a + b;
    assert forall t | t in b :: t in a + b;
  }

  // ---------------------------------------------------------------- exactly when it ends

  /** The loop ends. */
  ghost predicate Ends(cmds: Commands, s: State) {
    exists k: nat :: Rounds(cmds, s, k).tasks == []
  }

  lemma {:induction false} RankedEnds(cmds: Commands, names: set<Name>, rank: map<Name, nat>, s: State) returns (k: nat)
    requires Valid(cmds, names, s) && Ranked(cmds, names, rank)
    ensures Rounds(cmds, s, k).tasks == []
    decreases Unseen(names, s), |s.tasks|, FrontRank(rank, s)
  {
    k := 0;
    if s.tasks != [] {
      RoundDecreases(cmds, names, rank, s);
      assert s.tasks[0].name in Names(s.tasks);
      if Missing(cmds, s) == ({}, {}) {
        RoundPops(cmds, names, s);
      } else {
        RoundPulls(cmds, names, s);
      }
      hide Round;
      k := RankedEnds(cmds, names, rank, Round(cmds, s));
      k := k + 1;
    }
  }

  /** n needs d: as a dependency, or as an order dependency that is among the names in the list. */
  predicate Needs(cmds: Commands, listed: set<Name>, n: Name, d: Name)
    requires n in cmds
  {
    d in cmds[n].dependencies || (d in cmds[n].orderDependencies && d in listed)
  }

  ghost predicate NeedsOneOf(cmds: Commands, listed: set<Name>, n: Name, trap: set<Name>)
    requires n in cmds
  {
    exists d | d in trap :: Needs(cmds, listed, n, d)
  }

  /** A set of names each of which needs another one, or itself. */
  ghost predicate Sinkless(cmds: Commands, listed: set<Name>, trap: set<Name>) {
    && trap <= cmds.Keys
    && forall n {:trigger NeedsOneOf(cmds, listed, n, trap)} | n in trap :: NeedsOneOf(cmds, listed, n, trap)
  }

  /** A sinkless set none of which is queued, and one of which is in the list. */
  ghost predicate Trap(cmds: Commands, trap: set<Name>, s: State) {
    trap !! Names(s.run) && trap * Names(s.tasks) != {} && Sinkless(cmds, Names(s.tasks), trap)
  }

  /** What a member of the trap needs is missing, so it is not taken off the list. */
  lemma TrappedMisses(cmds: Commands, trap: set<Name>, s: State)
    requires s.tasks != [] && s.tasks[0].name in cmds && trap !! Names(s.run)
    requires NeedsOneOf(cmds, Names(s.tasks), s.tasks[0].name, trap)
    ensures Missing(cmds, s) != ({}, {})
  {
    var m := Missing(cmds, s);
    var d :| d in trap && Needs(cmds, Names(s.tasks), s.tasks[0].name, d);
    assert d in m.0 || d in m.1;
  }

  lemma SinklessStays(cmds: Commands, trap: set<Name>, listed: set<Name>, listed': set<Name>)
    requires Sinkless(cmds, listed, trap) && trap * listed <= listed'
    ensures Sinkless(cmds, listed', trap)
  {
    forall n | n in trap
      ensures NeedsOneOf(cmds, listed', n, trap)
    {
      assert NeedsOneOf(cmds, listed, n, trap);
      var d :| d in trap && Needs(cmds, listed, n, d);
      assert Needs(cmds, listed', n, d);
    }
  }

  lemma TrapStays(cmds: Commands, names: set<Name>, trap: set<Name>, s: State)
    requires Valid(cmds, names, s) && Trap(cmds, trap, s)
    ensures s.tasks != [] && s.tasks[0].name in cmds
    ensures Valid(cmds, names, Round(cmds, s)) && Trap(cmds, trap, Round(cmds, s))
  {
    assert s.tasks != [];
    var t := s.tasks[0];
    assert t.name in Names(s.tasks);
    var s', m := Round(cmds, s), Missing(cmds, s);
    if t.name in trap {
      assert NeedsOneOf(cmds, Names(s.tasks), t.name, trap);
      TrappedMisses(cmds, trap, s);
    }
    hide Round, Missing, NeedsOneOf, Names, LastOf, State.Ok, Sinkless;
    if m == ({}, {}) {
      RoundPops(cmds, names, s);
    } else {
      RoundPulls(cmds, names, s);
    }
    assert trap * Names(s.tasks) <= Names(s'.tasks);
    SinklessStays(cmds, trap, Names(s.tasks), Names(s'.tasks));
  }

  /** With a trap the loop never ends: however many rounds go by, the list is not empty. */
  lemma {:induction false} TrapNeverEnds(cmds: Commands, names: set<Name>, trap: set<Name>, s: State, k: nat)
    requires Valid(cmds, names, s) && Trap(cmds, trap, s)
    ensures Rounds(cmds, s, k).tasks != []
    decreases k
  {
    hide Trap, Valid, Round;
    TrapStays(cmds, names, trap, s);
    if k > 0 {
      TrapNeverEnds(cmds, names, trap, Round(cmds, s), k - 1);
    }
  }

  // ---------------------------------------------------------------- cycles

  /** A walk along needs, within the names. */
  ghost predicate IsWalk(cmds: Commands, listed: set<Name>, names: set<Name>, p: seq<Name>)
    requires names <= cmds.Keys
  {
    && p != [] && (forall i | 0 <= i < |p| :: p[i] in names)
    && forall i | 0 < i < |p| :: Needs(cmds, listed, p[i - 1], p[i])
  }

  /** A walk that comes back to where it started. */
  ghost predicate IsCycle(cmds: Commands, listed: set<Name>, names: set<Name>, p: seq<Name>)
    requires names <= cmds.Keys
  {
    IsWalk(cmds, listed, names, p) && |p| >= 2 && p[0] == p[|p| - 1]
  }

  /** One can walk from n to goal. */
  ghost predicate WalksTo(cmds: Commands, listed: set<Name>, names: set<Name>, n: Name, goal: Name)
    requires names <= cmds.Keys
  {
    exists p :: IsWalk(cmds, listed, names, p) && p[0] == n && p[|p| - 1] == goal
  }

  lemma WalkOn(cmds: Commands, listed: set<Name>, names: set<Name>, n: Name, d: Name, goal: Name)
    requires names <= cmds.Keys && n in names && Needs(cmds, listed, n, d) && WalksTo(cmds, listed, names, d, goal)
    ensures WalksTo(cmds, listed, names, n, goal)
  {
    var p :| IsWalk(cmds, listed, names, p) && p[0] == d && p[|p| - 1] == goal;
    assert IsWalk(cmds, listed, names, [n] + p);
  }

  /** The names from which one can get to a cycle are a sinkless set. */
  lemma AboveCycleIsSinkless(cmds: Commands, listed: set<Name>, names: set<Name>, p: seq<Name>)
    requires names <= cmds.Keys && IsCycle(cmds, listed, names, p)
    ensures Sinkless(cmds, listed, set n | n in names && WalksTo(cmds, listed, names, n, p[0]))
  {
    var trap := set n | n in names && WalksTo(cmds, listed, names, n, p[0]);
    forall n | n in trap
      ensures NeedsOneOf(cmds, listed, n, trap)
    {
      var w :| IsWalk(cmds, listed, names, w) && w[0] == n && w[|w| - 1] == p[0];
      var walk := if |w| > 1 then w else p;
      assert IsWalk(cmds, listed, names, walk[1..]) && walk[1..][0] == walk[1];
      assert Needs(cmds, listed, n, walk[1]) && walk[1] in trap;
    }
  }

  lemma {:induction false} LongWalk(cmds: Commands, listed: set<Name>, names: set<Name>, trap: set<Name>, k: nat)
    returns (p: seq<Name>)
    requires trap <= names <= cmds.Keys && trap != {} && Sinkless(cmds, listed, trap)
    ensures |p| == k + 1 && IsWalk(cmds, listed, names, p) && forall i | 0 <= i < |p| :: p[i] in trap
    decreases k
  {
    if k == 0 {
      var n :| n in trap;
      p := [n];
    } else {
      p := LongWalk(cmds, listed, names, trap, k - 1);
      assert NeedsOneOf(cmds, listed, p[k - 1], trap);
      var d :| d in trap && Needs(cmds, listed, p[k - 1], d);
      p := p + [d];
    }
  }

  /** A sequence longer than the set of its elements repeats one. */
  lemma {:induction false} Repeats(p: seq<Name>, names: set<Name>) returns (i: nat, j: nat)
    requires |p| > |names| && forall k | 0 <= k < |p| :: p[k] in names
    ensures i < j < |p| && p[i] == p[j]
    decreases |p|
  {
    var last, rest := p[|p| - 1], p[..|p| - 1];
    if last in rest {
      i :| 0 <= i < |rest| && rest[i] == last;
      j := |p| - 1;
    } else {
      assert forall k | 0 <= k < |rest| :: rest[k] in names - {last};
      i, j := Repeats(rest, names - {last});
    }
  }

  /** In a sinkless set one can walk on for ever, so there is a cycle. */
  lemma SinklessHasCycle(cmds: Commands, listed: set<Name>, names: set<Name>, trap: set<Name>) returns (p: seq<Name>)
    requires trap <= names <= cmds.Keys && trap != {} && Sinkless(cmds, listed, trap)
    ensures IsCycle(cmds, listed, names, p)
  {
    var w := LongWalk(cmds, listed, names, trap, |trap|);
    var i, j := Repeats(w, trap);
    p := w[i..j + 1];
    forall k | 0 < k < |p| ensures Needs(cmds, listed, p[k - 1], p[k]) {
      assert p[k] == w[i + k] && p[k - 1] == w[i + k - 1];
    }
  }

  /** If every subset has a sink, sinks can be ranked and removed one after the other. */
  lemma {:induction false} RankOf(cmds: Commands, listed: set<Name>, left: set<Name>) returns (rank: map<Name, nat>)
    requires left <= cmds.Keys
    requires forall trap | trap <= left && trap != {} :: !Sinkless(cmds, listed, trap)
    ensures rank.Keys == left
    ensures forall n, d | n in left && d in left && Needs(cmds, listed, n, d) :: rank[d] < rank[n]
    decreases left
  {
    rank := map[];
    if left != {} {
      assert !Sinkless(cmds, listed, left);
      var sink :| sink in left && !NeedsOneOf(cmds, listed, sink, left);
      var above := RankOf(cmds, listed, left - {sink});
      rank := map n | n in left :: if n == sink then 0 else above[n] + 1;
    }
  }

  /** No set smaller than names holds the request and the dependencies of its members. */
  ghost predicate Least(cmds: Commands, names: set<Name>, requested: set<Name>) {
    forall c | IsClosed(cmds, c) && requested <= c :: names <= c
  }

  /** Whatever comes up because of the request can be reached from it, so a cycle below it is a trap for it. */
  lemma CycleTraps(cmds: Commands, names: set<Name>, requested: set<Name>, p: seq<Name>) returns (trap: set<Name>)
    requires names <= cmds.Keys && IsClosed(cmds, names) && requested <= names && Least(cmds, names, requested)
    requires IsCycle(cmds, requested, names, p)
    ensures trap * requested != {} && Sinkless(cmds, requested, trap)
  {
    trap := set n | n in names && WalksTo(cmds, requested, names, n, p[0]);
    AboveCycleIsSinkless(cmds, requested, names, p);
    assert p[0] in trap by {
      assert IsWalk(cmds, requested, names, p);
    }
    var rest := names - trap;
    forall n, d | n in rest && n in cmds && d in cmds[n].dependencies ensures d in rest {
      if d in trap {
        WalkOn(cmds, requested, names, n, d, p[0]);
        assert false;
      }
    }
    assert IsClosed(cmds, rest);
    assert !(names <= rest);
    assert !(requested <= rest);
    var x :| x in requested && x !in rest;
    assert x in trap * requested;
  }

  /** For every request: with such a cycle the loop never ends. */
  lemma CycleNeverEnds(cmds: Commands, names: set<Name>, s: State, p: seq<Name>)
    requires Valid(cmds, names, s) && s.run == [] && Least(cmds, names, Names(s.tasks))
    requires IsCycle(cmds, Names(s.tasks), names, p)
    ensures !Ends(cmds, s)
  {
    hide Round, Names, Rounds, IsCycle, Least;
    var trap := CycleTraps(cmds, names, Names(s.tasks), p);
    RunIsEmpty(s);
    forall k: nat ensures Rounds(cmds, s, k).tasks != [] {
      TrapNeverEnds(cmds, names, trap, s, k);
    }
  }

  /** Every order dependency on a command that comes up is on a requested one, or is a dependency as well. */
  ghost predicate OrderIsRequested(cmds: Commands, names: set<Name>, requested: set<Name>) {
    forall n, d | n in names && n in cmds && d in names && d in cmds[n].orderDependencies ::
      d in requested || d in cmds[n].dependencies
  }

  /**
     The loop ends if and only if no cycle of dependencies and requested order dependencies runs through the
     requested commands and those they depend on.
   */
  lemma EndsIfNoCycle(cmds: Commands, names: set<Name>, s: State)
    requires Valid(cmds, names, s) && s.run == [] && Least(cmds, names, Names(s.tasks))
    requires OrderIsRequested(cmds, names, Names(s.tasks))
    ensures Ends(cmds, s) <==> forall p :: !IsCycle(cmds, Names(s.tasks), names, p)
  {
    var requested := Names(s.tasks);
    hide Round, Names, Rounds, IsCycle, Least;
    if p :| IsCycle(cmds, requested, names, p) {
      CycleNeverEnds(cmds, names, s, p);
    } else {
      forall trap | trap <= names && trap != {} ensures !Sinkless(cmds, requested, trap) {
        if Sinkless(cmds, requested, trap) {
          var p := SinklessHasCycle(cmds, requested, names, trap);
          assert false;
        }
      }
      var rank := RankOf(cmds, requested, names);
      var k := RankedEnds(cmds, names, rank, s);
    }
  }

  lemma RunIsEmpty(s: State)
    requires s.run == []
    ensures Names(s.run) == {}
  {
  }

  // ---------------------------------------------------------------- requests with two tasks of one name

  lemma {:induction false} LastIndex(before: seq<Task>, t: Task)
    requires t !in before
    ensures IndexOf(before + [t], t) == |before|
    decreases |before|
  {
    if before != [] {
      assert (before + [t])[1..] == before[1..] + [t];
      LastIndex(before[1..], t);
    }
  }

  lemma LastToFront(before: seq<Task>, t: Task)
    requires t !in before
    ensures ToFront(before + [t], t) == [t] + before && LastOf(before + [t], t.name) == Some(t)
  {
    LastIndex(before, t);
    var ts := before + [t];
    assert ts[..|before|] == before && ts[|before| + 1..] == [];
  }

  lemma LastIsPulled(before: seq<Task>, t: Task, made: nat)
    requires t !in before
    ensures Pull(before + [t], State(before + [t], [], made), t.name, true) == State([t] + before, [], made)
    ensures Pulls(before + [t], [], t.name, true)
  {
    LastToFront(before, t);
    RunIsEmpty(State(before + [t], [], made));
  }

  /** A front task that depends on the last one: that one comes to the front. */
  lemma LastComesFirst(cmds: Commands, before: seq<Task>, t: Task, made: nat)
    requires before != [] && t !in before && before[0].name in cmds && cmds[before[0].name] == Command([t.name], [])
    ensures Round(cmds, State(before + [t], [], made)) == State([t] + before, [], made)
  {
    var s := State(before + [t], [], made);
    assert s.tasks[0] == before[0];
    LastIsPulled(before, t, made);
    assert t.name in Missing(cmds, s).0;
    hide Pull;
    assert PullAll(s.tasks, s, [t.name], true) == Pull(s.tasks, s, t.name, true);
  }

  /** A front task that depends on the last one and on x, which is made and put before that one. */
  lemma TwoArePulled(cmds: Commands, before: seq<Task>, t: Task, x: Name, made: nat)
    requires before != [] && t !in before && before[0].name in cmds && cmds[before[0].name] == Command([t.name, x], [])
    requires x !in Names(before + [t])
    ensures Round(cmds, State(before + [t], [], made)) == State([Task(x, made)] + ([t] + before), [], made + 1)
  {
    var s, s1 := State(before + [t], [], made), State([t] + before, [], made);
    assert s.tasks[0] == before[0];
    LastIsPulled(before, t, made);
    assert t.name in Missing(cmds, s).0;
    RunIsEmpty(s);
    assert Pull(s.tasks, s1, x, true) == State([Task(x, made)] + s1.tasks, [], made + 1);
    assert [t.name, x][1..] == [x] && [x][1..] == [];
    hide Pull;
    assert PullAll(s.tasks, s1, [x], true) == Pull(s.tasks, s1, x, true);
    assert PullAll(s.tasks, s, [t.name, x], true) == PullAll(s.tasks, s1, [x], true);
  }

  /** A front task that misses nothing is queued, unless one of its name is. */
  lemma FrontIsQueued(cmds: Commands, front: Task, rest: seq<Task>, run: seq<Task>, made: nat)
    requires front.name in cmds && cmds[front.name].orderDependencies == []
    requires forall d | d in cmds[front.name].dependencies :: exists t | t in run :: t.name == d
    ensures var queued := exists t | t in run :: t.name == front.name;
            Round(cmds, State([front] + rest, run, made)) == State(rest, if queued then run else run + [front], made)
  {
    var s, c := State([front] + rest, run, made), cmds[front.name];
    assert s.tasks[0] == front && s.tasks[1..] == rest;
    assert Pulled(s.tasks, s.run, c.dependencies, true) == {};
    assert Pulled(s.tasks, s.run, c.orderDependencies, false) == {};
  }

  lemma RoundsStep(cmds: Commands, s: State, k: nat)
    requires s.tasks != [] && s.tasks[0].name in cmds
    ensures Rounds(cmds, s, k + 1) == Rounds(cmds, Round(cmds, s), k)
  {
  }

  lemma RoundsEnd(cmds: Commands, s: State)
    ensures Rounds(cmds, s, 0) == s
  {
  }

  /** Three tasks, two of one name, of which only the first is queued. */
  lemma ThreeAreQueued(cmds: Commands, a: Task, b: Task, c: Task, made: nat)
    requires {a.name, b.name} <= cmds.Keys && a.name == c.name != b.name
    requires cmds[a.name] == Command([], []) && cmds[b.name] == Command([a.name], [])
    ensures Rounds(cmds, State([a, b, c], [], made), 3) == State([], [a, b], made)
  {
    hide Round, Rounds;
    assert [a] + [b, c] == [a, b, c] && [b] + [c] == [b, c] && [c] + [] == [c] && [a] + [b] == [a, b] && [] + [a] == [a];
    FrontIsQueued(cmds, a, [b, c], [], made);
    FrontIsQueued(cmds, b, [c], [a], made);
    FrontIsQueued(cmds, c, [], [a, b], made);
    RoundsStep(cmds, State([a, b, c], [], made), 2);
    RoundsStep(cmds, State([b, c], [a], made), 1);
    RoundsStep(cmds, State([c], [a, b], made), 0);
    RoundsEnd(cmds, State([], [a, b], made));
  }

  /** Four tasks, likewise. */
  lemma FourAreQueued(cmds: Commands, a: Task, b: Task, c: Task, d: Task, made: nat)
    requires {a.name, b.name, d.name} <= cmds.Keys && a.name == c.name != b.name && d.name !in {a.name, b.name}
    requires cmds[a.name] == Command([], []) && cmds[b.name] == Command([a.name], [])
    requires cmds[d.name] == Command([a.name, b.name], [])
    ensures Rounds(cmds, State([a, b, c, d], [], made), 4) == State([], [a, b, d], made)
  {
    hide Round, Rounds;
    assert [a] + [b, c, d] == [a, b, c, d] && [b] + [c, d] == [b, c, d] && [c] + [d] == [c, d] && [d] + [] == [d];
    assert [] + [a] == [a] && [a] + [b] == [a, b] && [a, b] + [d] == [a, b, d];
    FrontIsQueued(cmds, a, [b, c, d], [], made);
    FrontIsQueued(cmds, b, [c, d], [a], made);
    FrontIsQueued(cmds, c, [d], [a, b], made);
    FrontIsQueued(cmds, d, [], [a, b], made);
    RoundsStep(cmds, State([a, b, c, d], [], made), 3);
    RoundsStep(cmds, State([b, c, d], [a], made), 2);
    RoundsStep(cmds, State([c, d], [a, b], made), 1);
    RoundsStep(cmds, State([d], [a, b], made), 0);
    RoundsEnd(cmds, State([], [a, b, d], made));
  }

  /**
     Of two tasks of the same name the first is queued, says the warning before the loop. Not so here, where
     another task pulls it in as a dependency: the last one is.
   */
  lemma LastDuplicateQueued(cmds: Commands, t: Name, d: Name)
    requires t != d && t in cmds && d in cmds && cmds[t] == Command([d], []) && cmds[d] == Command([], [])
    ensures Rounds(cmds, State([Task(t, 0), Task(d, 1), Task(d, 2)], [], 3), 4) == State([], [Task(d, 2), Task(t, 0)], 3)
  {
    hide Round, Rounds;
    var f, d1, d2 := Task(t, 0), Task(d, 1), Task(d, 2);
    LastComesFirst(cmds, [f, d1], d2, 3);
    assert [f, d1] + [d2] == [f, d1, d2] && [d2] + [f, d1] == [d2, f, d1];
    RoundsStep(cmds, State([f, d1, d2], [], 3), 3);
    ThreeAreQueued(cmds, d2, f, d1, 3);
  }

  /**
     Nor is it always the last one that is queued: a second pull finds the first task to be the last one in the
     list. Task t depends on d and x, and x on d; the first d is queued.
   */
  lemma FirstDuplicateQueued(cmds: Commands, t: Name, d: Name, x: Name)
    requires t != d && x != d && t != x && t in cmds && d in cmds && x in cmds
    requires cmds[t] == Command([d, x], []) && cmds[x] == Command([d], []) && cmds[d] == Command([], [])
    ensures Rounds(cmds, State([Task(t, 0), Task(d, 1), Task(d, 2)], [], 3), 6)
         == State([], [Task(d, 1), Task(x, 3), Task(t, 0)], 4)
  {
    hide Round, Rounds;
    var f, d1, d2, x3 := Task(t, 0), Task(d, 1), Task(d, 2), Task(x, 3);
    TwoArePulled(cmds, [f, d1], d2, x, 3);
    assert [f, d1] + [d2] == [f, d1, d2] && [x3] + ([d2] + [f, d1]) == [x3, d2, f, d1];
    LastComesFirst(cmds, [x3, d2, f], d1, 4);
    assert [x3, d2, f] + [d1] == [x3, d2, f, d1] && [d1] + [x3, d2, f] == [d1, x3, d2, f];
    RoundsStep(cmds, State([f, d1, d2], [], 3), 5);
    RoundsStep(cmds, State([x3, d2, f, d1], [], 4), 4);
    FourAreQueued(cmds, d1, x3, d2, f, 4);
  }
}
