/**
 Which of several tasks of one name idf.py runs: the loop of CLI.execute_tasks in tools/idf.py, for requests that
 contain a command more than once.
 */
module TaskDuplicates {
  import opened Common
  import opened TaskScheduler

  // ---------------------------------------------------------------- the tasks of one name

  function OfName(ts: seq<Task>, n: Name): seq<Task> {
    if ts == [] then [] else (if ts[0].name == n then [ts[0]] else []) + OfName(ts[1..], n)
  }

  lemma {:induction false} OfNameConcat(a: seq<Task>, b: seq<Task>, n: Name)
    ensures OfName(a + b, n) == OfName(a, n) + OfName(b, n)
    decreases |a|
  {
    if a == [] {
      assert a + b == b && OfName(a, n) == [] && [] + OfName(b, n) == OfName(b, n);
    } else {
      var head := if a[0].name == n then [a[0]] else [];
      var x, y := OfName(a[1..], n), OfName(b, n);
      assert (a + b)[0] == a[0] && (a + b)[1..] == a[1..] + b;
      OfNameConcat(a[1..], b, n);
      assert OfName(a, n) == head + x && OfName(a + b, n) == head + (x + y);
      assert head + (x + y) == (head + x) + y;
    }
  }

  lemma OfNameOne(t: Task, n: Name)
    ensures OfName([t], n) == if t.name == n then [t] else []
  {
    assert [t][1..] == [];
  }

  lemma {:induction false} OfNameMembers(ts: seq<Task>, n: Name)
    ensures forall t :: t in OfName(ts, n) <==> t in ts && t.name == n
    decreases |ts|
  {
    if ts != [] {
      assert ts == [ts[0]] + ts[1..];
      OfNameMembers(ts[1..], n);
    }
  }

  lemma {:induction false} FirstOfName(ts: seq<Task>, n: Name)
    ensures FirstOf(ts, n) == if OfName(ts, n) == [] then None else Some(OfName(ts, n)[0])
    decreases |ts|
  {
    if ts != [] {
      FirstOfName(ts[1..], n);
    }
  }

  lemma {:induction false} LastOfName(ts: seq<Task>, n: Name)
    ensures var x := OfName(ts, n); LastOf(ts, n) == if x == [] then None else Some(x[|x| - 1])
    decreases |ts|
  {
    if ts != [] {
      var last := ts[|ts| - 1];
      assert ts == ts[..|ts| - 1] + [last];
      OfNameConcat(ts[..|ts| - 1], [last], n);
      OfNameOne(last, n);
      LastOfName(ts[..|ts| - 1], n);
    }
  }

  lemma {:induction false} OfNameLength(ts: seq<Task>, n: Name)
    ensures |OfName(ts, n)| <= |ts|
    decreases |ts|
  {
    if ts != [] {
      OfNameLength(ts[1..], n);
    }
  }

  /** All tasks of the name stand at the end of the list. */
  ghost predicate AtEnd(ts: seq<Task>, n: Name) {
    exists a :: ts == a + OfName(ts, n) && OfName(a, n) == []
  }

  /** The last one moves to the front. */
  function Turned(x: seq<Task>): seq<Task>
    requires x != []
  {
    [x[|x| - 1]] + x[..|x| - 1]
  }

  lemma OfNameAround(a: seq<Task>, t: Task, b: seq<Task>, n: Name)
    ensures OfName(a + ([t] + b), n) == OfName(a, n) + ((if t.name == n then [t] else []) + OfName(b, n))
    ensures OfName([t] + (a + b), n) == (if t.name == n then [t] else []) + (OfName(a, n) + OfName(b, n))
  {
    OfNameOne(t, n);
    hide OfName;
    OfNameConcat(a, [t] + b, n);
    OfNameConcat([t], b, n);
    OfNameConcat([t], a + b, n);
    OfNameConcat(a, b, n);
  }

  /** Moving a task of another name does not change their order. */
  lemma ToFrontOther(ts: seq<Task>, t: Task, n: Name)
    requires t in ts && t.name != n
    ensures OfName(ToFront(ts, t), n) == OfName(ts, n)
  {
    var a, b := SplitAt(ts, t);
    OfNameAround(a, t, b, n);
  }

  lemma SplitFront(e: seq<Task>, x: seq<Task>, t: Task) returns (c: seq<Task>, d: seq<Task>)
    requires t in e + x && t !in x
    ensures e == c + ([t] + d) && ToFront(e + x, t) == ([t] + (c + d)) + x
  {
    hide IndexOf;
    var i := IndexOf(e + x, t);
    assert i < |e|;
    c, d := e[..i], e[i + 1..];
    assert (e + x)[..i] == c && (e + x)[i + 1..] == d + x;
    assert [t] + c + (d + x) == ([t] + (c + d)) + x;
  }

  lemma AtEndToFront(ts: seq<Task>, t: Task, n: Name)
    requires AtEnd(ts, n) && t in ts && t.name != n
    ensures AtEnd(ToFront(ts, t), n)
  {
    var x := OfName(ts, n);
    var e :| ts == e + x && OfName(e, n) == [];
    OfNameMembers(ts, n);
    hide OfName, ToFront, AtEnd;
    var c, d := SplitFront(e, x, t);
    OfNameAround(c, t, d, n);
    ToFrontOther(ts, t, n);
    AtEndIntro(ToFront(ts, t), [t] + (c + d), n);
  }

  lemma AtEndIntro(ts: seq<Task>, e: seq<Task>, n: Name)
    requires ts == e + OfName(ts, n) && OfName(e, n) == []
    ensures AtEnd(ts, n)
  {
  }

  lemma AtEndAdd(ts: seq<Task>, t: Task, n: Name)
    requires t.name != n
    ensures OfName([t] + ts, n) == OfName(ts, n)
    ensures AtEnd(ts, n) ==> AtEnd([t] + ts, n)
  {
    OfNameOne(t, n);
    OfNameConcat([t], ts, n);
    var x := OfName(ts, n);
    if e :| ts == e + x && OfName(e, n) == [] {
      OfNameConcat([t], e, n);
      hide OfName;
      assert [t] + ts == ([t] + e) + x;
    }
  }

  lemma OfNameRest(ts: seq<Task>, n: Name)
    requires ts != [] && ts[0].name != n
    ensures OfName(ts[1..], n) == OfName(ts, n)
  {
    assert [] + OfName(ts[1..], n) == OfName(ts[1..], n);
  }

  /** The front task, of another name, is taken off. */
  lemma AtEndRest(ts: seq<Task>, n: Name)
    requires ts != [] && ts[0].name != n
    ensures OfName(ts[1..], n) == OfName(ts, n)
    ensures AtEnd(ts, n) ==> AtEnd(ts[1..], n)
  {
    OfNameRest(ts, n);
    OfNameMembers(ts, n);
    hide OfName;
    var x := OfName(ts, n);
    if e :| ts == e + x && OfName(e, n) == [] {
      RestOfFront(ts, e, x, n);
      OfNameRest(e, n);
      AtEndIntro(ts[1..], e[1..], n);
    }
  }

  lemma RestOfFront(ts: seq<Task>, e: seq<Task>, x: seq<Task>, n: Name)
    requires ts == e + x && ts != [] && ts[0].name != n && forall t | t in x :: t.name == n
    ensures e != [] && e[0] == ts[0] && ts[1..] == e[1..] + x
  {
    if x != [] {
      assert x[0] in x;
    }
  }

  lemma TwiceIn(ts: seq<Task>, t: Task, a: seq<Task>, b: seq<Task>)
    requires Distinct(ts) && ts == a + ([t] + b)
    ensures t !in a && t !in b
  {
    assert multiset(ts) == multiset(a) + (multiset{t} + multiset(b));
    assert multiset(ts)[t] <= 1;
  }

  /** Moving the last of them turns their order; moving the first changes nothing. */
  lemma ToFrontSame(ts: seq<Task>, t: Task, n: Name)
    requires Distinct(ts) && t in ts && t.name == n
    ensures var x := OfName(ts, n);
            && x != []
            && (t == x[|x| - 1] ==> OfName(ToFront(ts, t), n) == Turned(x))
            && (t == x[0] ==> OfName(ToFront(ts, t), n) == x)
  {
    hide OfName, ToFront, Turned, Distinct;
    var a, b := SplitAt(ts, t);
    OfNameAround(a, t, b, n);
    TwiceIn(ts, t, a, b);
    OfNameMembers(a, n);
    OfNameMembers(b, n);
    LastOrFirst(OfName(a, n), t, OfName(b, n));
  }

  lemma LastOrFirst(y: seq<Task>, t: Task, z: seq<Task>)
    requires t !in y && t !in z
    ensures var x := y + ([t] + z);
            && (t == x[|x| - 1] ==> Turned(x) == [t] + (y + z))
            && (t == x[0] ==> x == [t] + (y + z))
  {
    var x := y + ([t] + z);
    assert z != [] ==> x[|x| - 1] == z[|z| - 1];
    assert y != [] ==> x[0] == y[0];
  }

  // ---------------------------------------------------------------- one round

  /** Within a round the tasks of the name are in the order x of its start, or turned once. */
  ghost predicate OnceTurned(ts: seq<Task>, x: seq<Task>, n: Name) {
    x != [] && (OfName(ts, n) == x || OfName(ts, n) == Turned(x))
  }

  lemma PullOf(snapshot: seq<Task>, s: State, d: Name, required: bool, n: Name)
    requires forall t | t in snapshot :: t in s.tasks
    requires s.Ok() && n !in Names(s.run) && OnceTurned(s.tasks, OfName(snapshot, n), n)
    ensures var s' := Pull(snapshot, s, d, required); var x := OfName(snapshot, n);
            && s'.Ok()
            && OfName(s'.tasks, n) == (if d == n then Turned(x) else OfName(s.tasks, n))
            && (d != n && AtEnd(s.tasks, n) ==> AtEnd(s'.tasks, n))
  {
    PullFacts(snapshot, s, d, required);
    LastOfName(snapshot, d);
    var last := LastOf(snapshot, d);
    if d == n {
      var t, x, y := last.value, OfName(snapshot, n), OfName(s.tasks, n);
      ToFrontSame(s.tasks, t, n);
      assert y == Turned(x) ==> y[0] == t;
    } else if d !in Names(s.run) {
      if last.Some? {
        ToFrontOther(s.tasks, last.value, n);
        if AtEnd(s.tasks, n) {
          AtEndToFront(s.tasks, last.value, n);
        }
      } else {
        AtEndAdd(s.tasks, Task(d, s.made), n);
      }
    }
  }

  lemma {:induction false} PullAllOf(snapshot: seq<Task>, s: State, ds: seq<Name>, required: bool, n: Name)
    requires forall t | t in snapshot :: t in s.tasks
    requires s.Ok() && n !in Names(s.run) && OnceTurned(s.tasks, OfName(snapshot, n), n)
    ensures var s' := PullAll(snapshot, s, ds, required); var x := OfName(snapshot, n);
            && s'.Ok()
            && OfName(s'.tasks, n) == (if n in ds then Turned(x) else OfName(s.tasks, n))
            && (n !in ds && AtEnd(s.tasks, n) ==> AtEnd(s'.tasks, n))
    decreases ds
  {
    hide Pull, OfName, AtEnd, State.Ok;
    if ds != [] {
      PullOf(snapshot, s, ds[0], required, n);
      assert ds == [ds[0]] + ds[1..];
      PullAllOf(snapshot, Pull(snapshot, s, ds[0], required), ds[1..], required, n);
    }
  }

  /** What a round does to the tasks of a name of which none is queued: it queues the first, turns them, or neither. */
  lemma RoundOf(cmds: Commands, names: set<Name>, s: State, n: Name)
    requires Valid(cmds, names, s) && s.tasks != [] && n !in Names(s.run) && OfName(s.tasks, n) != []
    ensures var x, s' := OfName(s.tasks, n), Round(cmds, s);
            if Missing(cmds, s) == ({}, {}) && s.tasks[0].name == n then s'.run == s.run + [x[0]]
            else
              && n !in Names(s'.run)
              && (OfName(s'.tasks, n) == x || (OfName(s'.tasks, n) == Turned(x) && Missing(cmds, s) != ({}, {})))
              && (AtEnd(s.tasks, n) && !AtEnd(s'.tasks, n) ==> OfName(s'.tasks, n) == Turned(x))
  {
    var front, x := s.tasks[0], OfName(s.tasks, n);
    assert front.name in Names(s.tasks);
    var c := cmds[front.name];
    if Missing(cmds, s) == ({}, {}) {
      RoundPops(cmds, names, s);
      if front.name != n {
        AtEndRest(s.tasks, n);
      }
    } else {
      var s1 := PullAll(s.tasks, s, c.dependencies, true);
      hide OfName, AtEnd, PullAll, Turned, State.Ok, Names;
      PullAllOf(s.tasks, s, c.dependencies, true, n);
      PullAllOf(s.tasks, s1, c.orderDependencies, false, n);
    }
  }

  // ---------------------------------------------------------------- a bound on the rounds

  lemma {:induction false} PullAllLength(snapshot: seq<Task>, s: State, ds: seq<Name>, required: bool)
    requires forall t | t in snapshot :: t in s.tasks
    ensures |PullAll(snapshot, s, ds, required).tasks| <= |s.tasks| + |ds|
    decreases ds
  {
    if ds != [] {
      PullAllLength(snapshot, Pull(snapshot, s, ds[0], required), ds[1..], required);
    }
  }

  /** Bounds on the ranks and on the number of dependencies. */
  ghost predicate Bounds(cmds: Commands, names: set<Name>, rank: map<Name, nat>, k: nat, l: nat)
    requires names <= cmds.Keys
  {
    && k > 0 && (forall m | m in rank :: rank[m] < k)
    && forall m | m in names :: |cmds[m].dependencies| + |cmds[m].orderDependencies| <= l
  }

  lemma {:induction false} RankBound(rank: map<Name, nat>) returns (k: nat)
    ensures k > 0 && forall m | m in rank :: rank[m] < k
    decreases |rank|
  {
    k := 1;
    if m :| m in rank {
      var rest := rank - {m};
      assert m !in rest && rest.Keys < rank.Keys;
      Smaller(rest.Keys, rank.Keys);
      var k' := RankBound(rest);
      k := Max(k', rank[m] + 1);
      forall j | j in rank ensures rank[j] < k {
        assert j != m ==> j in rest;
      }
    }
  }

  lemma Smaller(a: set<Name>, b: set<Name>)
    requires a < b
    ensures |a| < |b|
  {
    var x :| x in b && x !in a;
    SubsetSize(a, b - {x});
  }

  lemma {:induction false} DepsBound(cmds: Commands, names: set<Name>) returns (l: nat)
    requires names <= cmds.Keys
    ensures forall m | m in names :: |cmds[m].dependencies| + |cmds[m].orderDependencies| <= l
    decreases names
  {
    l := 0;
    if m :| m in names {
      l := DepsBound(cmds, names - {m});
      l := Max(l, |cmds[m].dependencies| + |cmds[m].orderDependencies|);
    }
  }

  /** The tasks of other names. */
  function OthersOf(s: State, n: Name): int {
    |s.tasks| - |OfName(s.tasks, n)|
  }

  /** It falls with every round, and does not depend on how many tasks of name n there are. */
  function Potential(names: set<Name>, rank: map<Name, nat>, k: nat, l: nat, s: State, n: Name): int {
    (|Unseen(names, s)| * (l + 1) + OthersOf(s, n)) * k + FrontRank(rank, s)
  }

  lemma PotentialIsNat(names: set<Name>, rank: map<Name, nat>, k: nat, l: nat, s: State, n: Name)
    ensures Potential(names, rank, k, l, s, n) >= 0
  {
    OfNameLength(s.tasks, n);
    hide Unseen, OfName, FrontRank;
    MulGap(l + 1, 0, |Unseen(names, s)|);
    MulGap(k, 0, |Unseen(names, s)| * (l + 1) + OthersOf(s, n));
  }

  lemma LexLess(u: nat, o: int, f: nat, u': nat, o': int, f': nat, k: nat, l: nat)
    requires f' < k && k > 0
    requires (u' < u && o' <= o + l) || (u' == u && o' < o) || (u' == u && o' == o && f' < f)
    ensures (u' * (l + 1) + o') * k + f' < (u * (l + 1) + o) * k + f
  {
    MulGap(l + 1, u', u);
    assert u' < u ==> u' * (l + 1) + l + 1 <= u * (l + 1);
    MulGap(k, u' * (l + 1) + o', u * (l + 1) + o);
  }

  lemma OthersChange(cmds: Commands, names: set<Name>, s: State, n: Name)
    requires Valid(cmds, names, s) && s.tasks != [] && n !in Names(s.run) && OfName(s.tasks, n) != []
    requires Missing(cmds, s) != ({}, {}) || s.tasks[0].name != n
    ensures OthersOf(Round(cmds, s), n) - OthersOf(s, n) == |Round(cmds, s).tasks| - |s.tasks|
  {
    assert s.tasks[0].name in Names(s.tasks);
    RoundOf(cmds, names, s, n);
    hide Round, OfName, Missing, Names, AtEnd;
    assert |Turned(OfName(s.tasks, n))| == |OfName(s.tasks, n)|;
  }

  lemma PotentialFalls(cmds: Commands, names: set<Name>, rank: map<Name, nat>, k: nat, l: nat, s: State, n: Name)
    requires Valid(cmds, names, s) && Ranked(cmds, names, rank) && Bounds(cmds, names, rank, k, l)
    requires s.tasks != [] && n !in Names(s.run) && OfName(s.tasks, n) != []
    requires Missing(cmds, s) != ({}, {}) || s.tasks[0].name != n
    ensures Potential(names, rank, k, l, Round(cmds, s), n) < Potential(names, rank, k, l, s, n)
  {
    assert s.tasks[0].name in Names(s.tasks);
    OthersChange(cmds, names, s, n);
    RoundDecreases(cmds, names, rank, s);
    RoundLength(cmds, names, s, l);
    hide Round, OfName, Missing, Unseen, Names, Valid, Ranked, OthersOf;
    FallsTo(names, rank, k, l, s, Round(cmds, s), n);
  }

  lemma FallsTo(names: set<Name>, rank: map<Name, nat>, k: nat, l: nat, s: State, s': State, n: Name)
    requires k > 0 && (forall m | m in rank :: rank[m] < k)
    requires OthersOf(s', n) - OthersOf(s, n) == |s'.tasks| - |s.tasks| <= l
    requires Unseen(names, s') < Unseen(names, s) ||
             (Unseen(names, s') == Unseen(names, s) &&
              (|s'.tasks| < |s.tasks| ||
               (|s'.tasks| == |s.tasks| && FrontRank(rank, s') < FrontRank(rank, s))))
    ensures Potential(names, rank, k, l, s', n) < Potential(names, rank, k, l, s, n)
  {
    if Unseen(names, s') < Unseen(names, s) {
      Smaller(Unseen(names, s'), Unseen(names, s));
    }
    hide Unseen, OthersOf;
    LexLess(|Unseen(names, s)|, OthersOf(s, n), FrontRank(rank, s),
            |Unseen(names, s')|, OthersOf(s', n), FrontRank(rank, s'), k, l);
  }

  lemma RoundLength(cmds: Commands, names: set<Name>, s: State, l: nat)
    requires Valid(cmds, names, s) && s.tasks != []
    requires forall m | m in names :: |cmds[m].dependencies| + |cmds[m].orderDependencies| <= l
    ensures |Round(cmds, s).tasks| <= |s.tasks| + l
  {
    assert s.tasks[0].name in Names(s.tasks);
    var c := cmds[s.tasks[0].name];
    PullAllLength(s.tasks, s, c.dependencies, true);
    PullAllLength(s.tasks, PullAll(s.tasks, s, c.dependencies, true), c.orderDependencies, false);
  }

  // ---------------------------------------------------------------- a name that is needed

  function TurnedBy(x: seq<Task>, p: nat): seq<Task>
    requires p <= |x|
  {
    x[|x| - p..] + x[..|x| - p]
  }

  lemma TurnOnce(x: seq<Task>, p: nat)
    requires p < |x|
    ensures TurnedBy(x, p) != [] && Turned(TurnedBy(x, p)) == TurnedBy(x, p + 1)
  {
    var y := TurnedBy(x, p);
    assert y[|y| - 1] == x[|x| - p - 1];
    assert y[..|y| - 1] == x[|x| - p..] + x[..|x| - p - 1];
    assert x[|x| - p - 1..] == [x[|x| - p - 1]] + x[|x| - p..];
  }

  /** The name is not queued; its tasks x have been turned p times, or still stand at the end. */
  ghost predicate Turning(s: State, x: seq<Task>, n: Name, p: nat) {
    && n !in Names(s.run) && p < |x| && OfName(s.tasks, n) == TurnedBy(x, p)
    && (p == 0 ==> AtEnd(s.tasks, n))
  }

  /** A task of the name is queued, and it is not the first of x. */
  ghost predicate Passed(s: State, x: seq<Task>, n: Name) {
    x != [] && exists t :: t in s.run && t.name == n && t != x[0]
  }

  /** n is needed by m, and no set smaller than names holds the request and its dependencies. */
  ghost predicate NeededBy(cmds: Commands, names: set<Name>, requested: set<Name>, n: Name, m: Name) {
    && names <= cmds.Keys && m in names && (n in cmds[m].dependencies || n in cmds[m].orderDependencies)
    && n in requested && requested <= names
    && forall c | IsClosed(cmds, c) && requested <= c :: names <= c
  }

  lemma {:induction false} QueuedHasDeps(cmds: Commands, requested: set<Name>, run: seq<Task>, m: Name, d: Name)
    requires Ordered(cmds, requested, run) && m in Names(run) && m in cmds
    requires d in cmds[m].dependencies || (d in cmds[m].orderDependencies && d in requested)
    ensures d in Names(run)
  {
    var t :| t in run && t.name == m;
    var i :| 0 <= i < |run| && run[i] == t;
    assert Behind(cmds[m], requested, Names(run[..i]));
    assert d in Names(run[..i]);
  }

  /** If the rest of the request is queued, m is queued, and so n must be. */
  lemma RestNeeds(cmds: Commands, names: set<Name>, rank: map<Name, nat>, requested: set<Name>, s: State, n: Name, m: Name)
    requires Inv(cmds, names, requested, s) && Ranked(cmds, names, rank) && NeededBy(cmds, names, requested, n, m)
    requires requested <= Names(s.run) + {n}
    ensures n in Names(s.run)
  {
    hide Names, State.Ok, Ordered;
    var run := Names(s.run);
    var c := set x | x in names && (x in run || rank[x] <= rank[n]);
    forall x, d | x in c && x in cmds && d in cmds[x].dependencies ensures d in c {
      if x in run {
        QueuedHasDeps(cmds, requested, s.run, x, d);
      }
    }
    assert IsClosed(cmds, c) && requested <= c;
    QueuedHasDeps(cmds, requested, s.run, m, n);
  }

  /** As long as it has not been pulled it does not come to the front: m comes there before, and pulls it. */
  lemma NotFirstUnturned(cmds: Commands, names: set<Name>, rank: map<Name, nat>, requested: set<Name>, s: State,
                         n: Name, m: Name)
    requires Inv(cmds, names, requested, s) && Ranked(cmds, names, rank) && NeededBy(cmds, names, requested, n, m)
    requires n !in Names(s.run) && AtEnd(s.tasks, n) && s.tasks != []
    ensures s.tasks[0].name != n
  {
    if s.tasks[0].name == n {
      OnlyOneName(s.tasks, n);
      RestNeeds(cmds, names, rank, requested, s, n, m);
      assert false;
    }
  }

  lemma OnlyOneName(ts: seq<Task>, n: Name)
    requires AtEnd(ts, n) && ts != [] && ts[0].name == n
    ensures Names(ts) == {n}
  {
    var e :| ts == e + OfName(ts, n) && OfName(e, n) == [];
    OfNameMembers(e, n);
    assert e == [];
    OfNameMembers(ts, n);
    assert ts[0] in ts;
  }

  /** Different tasks of the name. */
  ghost predicate Copies(x: seq<Task>, n: Name) {
    && (forall i | 0 <= i < |x| :: x[i].name == n)
    && forall i, j | 0 <= i < j < |x| :: x[i] != x[j]
  }

  /** Turned fewer times than there are tasks, the first is behind another one. */
  lemma TurnedFront(x: seq<Task>, p: nat, n: Name)
    requires 0 < p < |x| && Copies(x, n)
    ensures TurnedBy(x, p)[0] != x[0]
  {
    assert TurnedBy(x, p)[0] == x[|x| - p];
  }

  /** The run so far, with tasks left to turn for every round that may come. */
  ghost predicate NotYet(names: set<Name>, rank: map<Name, nat>, k: nat, l: nat, s: State, x: seq<Task>, n: Name) {
    exists p: nat :: Turning(s, x, n, p) && p + Potential(names, rank, k, l, s, n) < |x|
  }

  /** The first one is taken off after some turns. */
  lemma TurnedIsPassed(cmds: Commands, names: set<Name>, s: State, x: seq<Task>, n: Name, p: nat)
    requires Valid(cmds, names, s) && s.tasks != [] && Copies(x, n) && Turning(s, x, n, p) && p > 0
    requires Missing(cmds, s) == ({}, {}) && s.tasks[0].name == n
    ensures s.tasks[0].name in cmds && Passed(Round(cmds, s), x, n)
  {
    assert s.tasks[0].name in Names(s.tasks);
    hide Round, OfName, AtEnd, Names, Missing, Valid;
    TurnOnce(x, p);
    RoundOf(cmds, names, s, n);
    TurnedFront(x, p, n);
    var t := TurnedBy(x, p)[0];
    assert t == x[|x| - p];
    assert t in Round(cmds, s).run && t.name == n;
  }

  lemma TurningRound(cmds: Commands, names: set<Name>, s: State, x: seq<Task>, n: Name, p: nat)
    requires Valid(cmds, names, s) && s.tasks != [] && Turning(s, x, n, p) && p + 1 < |x|
    requires Missing(cmds, s) != ({}, {}) || s.tasks[0].name != n
    ensures s.tasks[0].name in cmds && (Turning(Round(cmds, s), x, n, p) || Turning(Round(cmds, s), x, n, p + 1))
  {
    assert s.tasks[0].name in Names(s.tasks);
    hide Round, OfName, AtEnd, Names, Missing, Valid, Turned, TurnedBy;
    TurnOnce(x, p);
    RoundOf(cmds, names, s, n);
  }

  lemma TurningHasSome(s: State, x: seq<Task>, n: Name, p: nat)
    requires Turning(s, x, n, p)
    ensures n !in Names(s.run) && OfName(s.tasks, n) != [] && (p == 0 ==> AtEnd(s.tasks, n))
  {
    TurnOnce(x, p);
  }

  lemma NeededRound(cmds: Commands, names: set<Name>, rank: map<Name, nat>, k: nat, l: nat, requested: set<Name>,
                    s: State, x: seq<Task>, n: Name, m: Name)
    requires Inv(cmds, names, requested, s) && Ranked(cmds, names, rank) && NeededBy(cmds, names, requested, n, m)
    requires Bounds(cmds, names, rank, k, l) && Copies(x, n)
    requires s.tasks != [] && NotYet(names, rank, k, l, s, x, n)
    ensures s.tasks[0].name in cmds
    ensures NotYet(names, rank, k, l, Round(cmds, s), x, n) || Passed(Round(cmds, s), x, n)
  {
    assert s.tasks[0].name in Names(s.tasks);
    var p: nat :| Turning(s, x, n, p) && p + Potential(names, rank, k, l, s, n) < |x|;
    hide Round, OfName, AtEnd, Names, Potential, Missing, Ranked, NeededBy, Bounds, Ordered, Turning, Valid, Passed, Copies;
    TurningHasSome(s, x, n, p);
    if Missing(cmds, s) == ({}, {}) && s.tasks[0].name == n {
      if p == 0 {
        NotFirstUnturned(cmds, names, rank, requested, s, n, m);
        assert false;
      }
      TurnedIsPassed(cmds, names, s, x, n, p);
    } else {
      PotentialFalls(cmds, names, rank, k, l, s, n);
      PotentialIsNat(names, rank, k, l, Round(cmds, s), n);
      TurningRound(cmds, names, s, x, n, p);
    }
  }

  lemma PassedRound(cmds: Commands, s: State, x: seq<Task>, n: Name)
    requires s.tasks != [] && s.tasks[0].name in cmds && Passed(s, x, n)
    ensures Passed(Round(cmds, s), x, n)
  {
    var t :| t in s.run && t.name == n && t != x[0];
    assert t in Round(cmds, s).run;
  }

  lemma {:induction false} NeededRounds(cmds: Commands, names: set<Name>, rank: map<Name, nat>, k: nat, l: nat,
                                        requested: set<Name>, s: State, x: seq<Task>, n: Name, m: Name, rounds: nat)
    requires Inv(cmds, names, requested, s) && Ranked(cmds, names, rank) && NeededBy(cmds, names, requested, n, m)
    requires Bounds(cmds, names, rank, k, l) && Copies(x, n)
    requires NotYet(names, rank, k, l, s, x, n) || Passed(s, x, n)
    requires Rounds(cmds, s, rounds).tasks == []
    ensures x != [] && x[0] !in Rounds(cmds, s, rounds).run
    decreases rounds
  {
    hide Ranked, Bounds, NeededBy, Potential, Round;
    if s.tasks == [] {
      NothingToTurn(names, rank, k, l, s, x, n);
      PassedIsNotFirst(cmds, names, requested, s, x, n);
    } else {
      RoundKeeps(cmds, names, requested, s);
      assert s.tasks[0].name in Names(s.tasks);
      if NotYet(names, rank, k, l, s, x, n) {
        NeededRound(cmds, names, rank, k, l, requested, s, x, n, m);
      } else {
        PassedRound(cmds, s, x, n);
      }
      hide NotYet, Passed, Inv;
      NeededRounds(cmds, names, rank, k, l, requested, Round(cmds, s), x, n, m, rounds - 1);
    }
  }

  lemma NothingToTurn(names: set<Name>, rank: map<Name, nat>, k: nat, l: nat, s: State, x: seq<Task>, n: Name)
    requires s.tasks == []
    ensures !NotYet(names, rank, k, l, s, x, n)
  {
    forall p: nat | p < |x| ensures OfName(s.tasks, n) != TurnedBy(x, p) {
      TurnOnce(x, p);
    }
  }

  lemma PassedIsNotFirst(cmds: Commands, names: set<Name>, requested: set<Name>, s: State, x: seq<Task>, n: Name)
    requires Inv(cmds, names, requested, s) && Passed(s, x, n) && x[0].name == n
    ensures x[0] !in s.run
  {
  }

  // ---------------------------------------------------------------- a request with enough of them

  /** The task at index i is object number i. */
  predicate Numbered(ts: seq<Task>) {
    forall i | 0 <= i < |ts| :: ts[i].id == i
  }

  lemma {:induction false} NumberedDistinct(ts: seq<Task>)
    requires Numbered(ts)
    ensures Distinct(ts) && forall t | t in ts :: t.id < |ts|
    decreases |ts|
  {
    if ts != [] {
      var last, rest := ts[|ts| - 1], ts[..|ts| - 1];
      NumberedDistinct(rest);
      assert ts == rest + [last];
      assert last !in rest;
      assert forall t :: multiset(ts)[t] == multiset(rest)[t] + multiset{last}[t];
    }
  }

  /** One task for each name. */
  lemma {:induction false} OneEach(names: set<Name>) returns (ts: seq<Task>)
    ensures Numbered(ts) && Names(ts) == names && |ts| == |names|
    decreases names
  {
    ts := [];
    if n :| n in names {
      var rest := OneEach(names - {n});
      ts := rest + [Task(n, |rest|)];
      NamesOfBoth(rest, [Task(n, |rest|)]);
    }
  }

  function CopiesFrom(n: Name, from: nat, count: nat): (x: seq<Task>)
    ensures |x| == count && forall i | 0 <= i < count :: x[i] == Task(n, from + i)
  {
    seq(count, i requires 0 <= i < count => Task(n, from + i))
  }

  lemma {:induction false} OfNameAll(x: seq<Task>, n: Name)
    requires forall i | 0 <= i < |x| :: x[i].name == n
    ensures OfName(x, n) == x
    decreases |x|
  {
    if x != [] {
      OfNameAll(x[1..], n);
    }
  }

  lemma NoneOfName(e: seq<Task>, n: Name)
    requires n !in Names(e)
    ensures OfName(e, n) == []
  {
    OfNameMembers(e, n);
    assert forall t | t in e :: t.name in Names(e);
    var x := OfName(e, n);
    assert forall i | 0 <= i < |x| :: x[i] in x;
  }

  /** The other names, and then `count` tasks of name n. */
  lemma Request(others: set<Name>, n: Name, count: nat) returns (e: seq<Task>, x: seq<Task>)
    requires n !in others && count > 0
    ensures |e| == |others| && |x| == count && Copies(x, n)
    ensures OfName(e + x, n) == x && AtEnd(e + x, n) && Names(e + x) == others + {n}
    ensures State(e + x, [], |e| + count).Ok()
  {
    e := OneEach(others);
    x := CopiesFrom(n, |e|, count);
    OkNumbered(e + x);
    NamesOfBoth(e, x);
    assert x[0] in x;
    assert Names(x) == {n};
    NoneOfName(e, n);
    OfNameAll(x, n);
    EndOfRequest(e, x, n);
  }

  lemma OkNumbered(ts: seq<Task>)
    requires Numbered(ts)
    ensures State(ts, [], |ts|).Ok()
  {
    NumberedDistinct(ts);
  }

  lemma EndOfRequest(e: seq<Task>, x: seq<Task>, n: Name)
    requires OfName(e, n) == [] && OfName(x, n) == x
    ensures OfName(e + x, n) == x && AtEnd(e + x, n)
  {
    OfNameConcat(e, x, n);
    assert [] + x == x;
    hide OfName;
    AtEndIntro(e + x, e, n);
  }

  /**
     If some command needs n, the first task of name n is not the one that is queued as soon as the request, after
     its other commands, names n often enough.
   */
  lemma NeededNotFirst(cmds: Commands, names: set<Name>, rank: map<Name, nat>, requested: set<Name>, n: Name, m: Name)
    returns (tasks: seq<Task>, made: nat)
    requires NeededBy(cmds, names, requested, n, m) && IsClosed(cmds, names) && Ranked(cmds, names, rank)
    ensures State(tasks, [], made).Ok() && Names(tasks) == requested
    ensures forall k | Rounds(cmds, State(tasks, [], made), k).tasks == [] ::
              FirstOf(tasks, n).value !in Rounds(cmds, State(tasks, [], made), k).run
  {
    hide OfName, AtEnd, Names, Ranked, Potential, Inv, State.Ok, IsClosed, Rounds, NotYet, Turned, Bounds, Copies;
    var k := RankBound(rank);
    var l := DepsBound(cmds, names);
    BoundsAre(cmds, names, rank, k, l);
    var x;
    tasks, made, x := LongRequest(names, rank, k, l, requested, n, m, cmds);
    var s := State(tasks, [], made);
    StartInv(cmds, names, requested, s);
    FirstOfName(tasks, n);
    forall j: nat | Rounds(cmds, s, j).tasks == [] ensures x[0] !in Rounds(cmds, s, j).run {
      NeededRounds(cmds, names, rank, k, l, requested, s, x, n, m, j);
    }
  }

  lemma BoundsAre(cmds: Commands, names: set<Name>, rank: map<Name, nat>, k: nat, l: nat)
    requires names <= cmds.Keys && k > 0 && (forall m | m in rank :: rank[m] < k)
    requires forall m | m in names :: |cmds[m].dependencies| + |cmds[m].orderDependencies| <= l
    ensures Bounds(cmds, names, rank, k, l)
  {
  }

  lemma LongRequest(names: set<Name>, rank: map<Name, nat>, k: nat, l: nat, requested: set<Name>, n: Name, m: Name,
                    cmds: Commands) returns (tasks: seq<Task>, made: nat, x: seq<Task>)
    requires NeededBy(cmds, names, requested, n, m) && k > 0 && forall d | d in rank :: rank[d] < k
    ensures State(tasks, [], made).Ok() && Names(tasks) == requested
    ensures x != [] && Copies(x, n) && OfName(tasks, n) == x && NotYet(names, rank, k, l, State(tasks, [], made), x, n)
  {
    var others := requested - {n};
    var count := (|names| * (l + 1) + |others|) * k + k + 1;
    MulGap(k, 0, |names| * (l + 1) + |others|);
    hide OfName, AtEnd, Names, Potential, State.Ok, NotYet, Copies;
    var e;
    e, x := Request(others, n, count);
    tasks, made := e + x, |e| + count;
    var s := State(tasks, [], made);
    RunIsEmpty(s);
    StartPotential(names, rank, k, l, s, n, |others|);
    StartTurning(names, rank, k, l, s, x, n);
  }

  lemma StartInv(cmds: Commands, names: set<Name>, requested: set<Name>, s: State)
    requires names <= cmds.Keys && IsClosed(cmds, names) && requested <= names
    requires s.Ok() && s.run == [] && Names(s.tasks) == requested
    ensures Inv(cmds, names, requested, s)
  {
  }

  lemma StartTurning(names: set<Name>, rank: map<Name, nat>, k: nat, l: nat, s: State, x: seq<Task>, n: Name)
    requires n !in Names(s.run) && x != [] && OfName(s.tasks, n) == x && AtEnd(s.tasks, n)
    requires Potential(names, rank, k, l, s, n) < |x|
    ensures NotYet(names, rank, k, l, s, x, n)
  {
    hide Potential, OfName, AtEnd;
    assert TurnedBy(x, 0) == x;
    assert Turning(s, x, n, 0);
  }

  lemma StartPotential(names: set<Name>, rank: map<Name, nat>, k: nat, l: nat, s: State, n: Name, others: nat)
    requires k > 0 && (forall m | m in rank :: rank[m] < k) && |s.tasks| == others + |OfName(s.tasks, n)|
    ensures Potential(names, rank, k, l, s, n) < (|names| * (l + 1) + others) * k + k
  {
    hide OfName, Names;
    SubsetSize(Unseen(names, s), names);
    MulGap(l + 1, |Unseen(names, s)|, |names|);
    MulGap(k, |Unseen(names, s)| * (l + 1) + others, |names| * (l + 1) + others);
  }

  lemma {:induction false} UnneededRounds(cmds: Commands, names: set<Name>, s: State, n: Name, t: Task, rounds: nat)
    requires Valid(cmds, names, s) && Unneeded(cmds, names, n) && FirstFirst(s, n, t)
    requires Rounds(cmds, s, rounds).tasks == []
    ensures t in Rounds(cmds, s, rounds).run
    decreases rounds
  {
    hide Unneeded, Round, Missing, Valid;
    if s.tasks != [] {
      RoundIsValid(cmds, names, s);
      RoundKeepsFirst(cmds, names, s, n, t);
      UnneededRounds(cmds, names, Round(cmds, s), n, t, rounds - 1);
    }
  }

  /** However the request is written down, the first task of name n is the one that is queued. */
  ghost predicate AlwaysFirst(cmds: Commands, requested: set<Name>, n: Name) {
    forall tasks, made, k | State(tasks, [], made).Ok() && Names(tasks) == requested
                            && Rounds(cmds, State(tasks, [], made), k).tasks == [] ::
      FirstOf(tasks, n).Some? && FirstOf(tasks, n).value in Rounds(cmds, State(tasks, [], made), k).run
  }

  /**
     Exactly when the warning is right that only the first occurrence of a command is executed: the first one is
     queued for every request of these commands, in whatever order and however often each is named, if and only if
     none of the commands requested, and of those they depend on, needs the command.
   */
  lemma FirstIsQueuedIff(cmds: Commands, names: set<Name>, rank: map<Name, nat>, requested: set<Name>, n: Name)
    requires names <= cmds.Keys && IsClosed(cmds, names) && Ranked(cmds, names, rank)
    requires n in requested && requested <= names
    requires forall c | IsClosed(cmds, c) && requested <= c :: names <= c
    ensures AlwaysFirst(cmds, requested, n) <==> Unneeded(cmds, names, n)
  {
    if Unneeded(cmds, names, n) {
      forall tasks, made, k | State(tasks, [], made).Ok() && Names(tasks) == requested
                              && Rounds(cmds, State(tasks, [], made), k).tasks == []
        ensures FirstOf(tasks, n).Some? && FirstOf(tasks, n).value in Rounds(cmds, State(tasks, [], made), k).run
      {
        RunIsEmpty(State(tasks, [], made));
        UnneededRounds(cmds, names, State(tasks, [], made), n, FirstOf(tasks, n).value, k);
      }
    } else {
      var m :| m in names && (n in cmds[m].dependencies || n in cmds[m].orderDependencies);
      var tasks, made := NeededNotFirst(cmds, names, rank, requested, n, m);
      var s := State(tasks, [], made);
      StartInv(cmds, names, requested, s);
      var k := RankedEnds(cmds, names, rank, s);
      assert !AlwaysFirst(cmds, requested, n);
    }
  }
}
