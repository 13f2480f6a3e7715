/**
 The search of tools/check_python_dependencies.py: level by level through the dependencies of the direct
 requirements. The installed packages, the evaluation of markers and the version check are parameters; an
 operation that may raise an exception has an optional result.
 */
module DependencyCheck {
  import opened Common

  /** An empty list of extras is searched as if it were the extra "". */
  datatype Requirement = Requirement(name: string, specifier: string, extras: seq<string>, marker: Option<string>)

  /**
     `metadata` lists the requirement lines of the installed packages; a line may be malformed. `evaluate` gets the
     extra in question, if there is one. `meets` compares the installed version.
   */
  datatype Env = Env(
    metadata: map<string, seq<Option<Requirement>>>,
    evaluate: (string, Option<string>) -> Option<bool>,
    meets: Requirement -> Option<bool>)

  datatype Failure = NotMet(req: Requirement) | Error(req: Requirement)

  /** A report of an insufficient version names one of these requirements, and its version is insufficient. */
  ghost predicate Truthful(env: Env, failures: seq<Failure>, reqs: set<Requirement>) {
    forall f | f in failures && f.NotMet? :: f.req in reqs && env.meets(f.req) == Some(false)
  }

  lemma TruthfulJoin(env: Env, f: seq<Failure>, g: seq<Failure>, a: set<Requirement>, b: set<Requirement>, c: set<Requirement>)
    requires Truthful(env, f, a) && Truthful(env, g, b) && a <= c && b <= c
    ensures Truthful(env, f + g, c)
  {
  }

  // ---------------------------------------------------------------- what is to be checked

  function Applies(env: Env, r: Requirement, extra: Option<string>): Option<bool> {
    if r.marker == None then Some(true) else env.evaluate(r.marker.value, extra)
  }

  function Extras(r: Requirement): (e: seq<string>)
    ensures e != []
  {
    if r.extras == [] then [""] else r.extras
  }

  function Lines(env: Env, r: Requirement): seq<Option<Requirement>> {
    if r.name in env.metadata then env.metadata[r.name] else []
  }

  predicate Needed(env: Env, extras: seq<string>, line: Option<Requirement>) {
    line.Some? && exists e | e in extras :: Applies(env, line.value, Some(e)) == Some(true)
  }

  /** The direct dependencies of r among its first n lines. */
  ghost function DepsOf(env: Env, r: Requirement, n: nat): set<Requirement>
    requires n <= |Lines(env, r)|
  {
    set i | 0 <= i < n && Needed(env, Extras(r), Lines(env, r)[i]) :: Lines(env, r)[i].value
  }

  ghost function Deps(env: Env, r: Requirement): set<Requirement> {
    DepsOf(env, r, |Lines(env, r)|)
  }

  /** The dependencies of r can be listed: it is installed, its lines are well-formed and their markers evaluate. */
  predicate Readable(env: Env, r: Requirement) {
    && r.name in env.metadata
    && forall i | 0 <= i < |Lines(env, r)| ::
         Lines(env, r)[i].Some? && forall e | e in Extras(r) :: Applies(env, Lines(env, r)[i].value, Some(e)).Some?
  }

  ghost predicate IsPath(env: Env, p: seq<Requirement>) {
    p != [] && forall i | 0 < i < |p| :: p[i] in Deps(env, p[i - 1])
  }

  ghost predicate PathTo(env: Env, roots: set<Requirement>, p: seq<Requirement>, r: Requirement) {
    IsPath(env, p) && p[0] in roots && p[|p| - 1] == r
  }

  ghost predicate Reachable(env: Env, roots: set<Requirement>, r: Requirement) {
    exists p :: PathTo(env, roots, p, r)
  }

  /** The direct requirements whose markers hold. */
  ghost function Roots(env: Env, direct: seq<Requirement>): set<Requirement> {
    set r | r in direct && Applies(env, r, None) == Some(true)
  }

  /** The goal: everything reachable has a sufficient version and dependencies that can be listed. */
  ghost predicate Satisfied(env: Env, roots: set<Requirement>) {
    forall r | Reachable(env, roots, r) :: env.meets(r) == Some(true) && Readable(env, r)
  }

  /**
     What the direct dependencies of r are: the requirements on its lines whose marker holds for an extra of r, or for
     the extra "" if r has none; a requirement without a marker is one always.
   */
  lemma DepsAre(env: Env, r: Requirement, d: Requirement)
    ensures d in Deps(env, r) <==>
            && r.name in env.metadata && Some(d) in env.metadata[r.name]
            && (d.marker.Some? ==>
                  if r.extras == [] then env.evaluate(d.marker.value, Some("")) == Some(true)
                  else exists e | e in r.extras :: env.evaluate(d.marker.value, Some(e)) == Some(true))
  {
    assert Extras(r) == if r.extras == [] then [""] else r.extras;
    assert Extras(r)[0] in Extras(r);
    if r.name in env.metadata && Some(d) in env.metadata[r.name] {
      var i :| 0 <= i < |Lines(env, r)| && Lines(env, r)[i] == Some(d);
      assert Needed(env, Extras(r), Lines(env, r)[i]) ==> d in Deps(env, r);
    }
  }

  /** A direct requirement is checked if it has no marker or its marker holds, which is evaluated without an extra. */
  lemma RootsAre(env: Env, direct: seq<Requirement>, r: Requirement)
    ensures r in Roots(env, direct) <==>
            r in direct && (r.marker.Some? ==> env.evaluate(r.marker.value, None) == Some(true))
  {
  }

  /** When the dependencies of r can be listed. */
  lemma ReadableIs(env: Env, r: Requirement)
    ensures Readable(env, r) <==>
            && r.name in env.metadata && None !in env.metadata[r.name]
            && forall d | Some(d) in env.metadata[r.name] && d.marker.Some? ::
                 if r.extras == [] then env.evaluate(d.marker.value, Some("")).Some?
                 else forall e | e in r.extras :: env.evaluate(d.marker.value, Some(e)).Some?
  {
    assert Extras(r) == if r.extras == [] then [""] else r.extras;
    if Readable(env, r) {
      forall d | Some(d) in env.metadata[r.name] && d.marker.Some?
        ensures forall e | e in Extras(r) :: env.evaluate(d.marker.value, Some(e)).Some?
      {
        var i :| 0 <= i < |Lines(env, r)| && Lines(env, r)[i] == Some(d);
        assert forall e | e in Extras(r) :: Applies(env, Lines(env, r)[i].value, Some(e)).Some?;
        assert "" in Extras(r) || r.extras != [];
      }
      forall line | line in env.metadata[r.name]
        ensures line.Some?
      {
        var i :| 0 <= i < |Lines(env, r)| && Lines(env, r)[i] == line;
      }
    } else if r.name in env.metadata && None !in env.metadata[r.name] {
      var i :| 0 <= i < |Lines(env, r)| && exists e :: e in Extras(r) && Applies(env, Lines(env, r)[i].value, Some(e)) == None;
      var d := Lines(env, r)[i].value;
      assert Lines(env, r)[i] == Some(d) && Some(d) in env.metadata[r.name];
      var e :| e in Extras(r) && Applies(env, d, Some(e)) == None;
      assert d.marker.Some? && env.evaluate(d.marker.value, Some(e)) == None;
    }
  }

  // ---------------------------------------------------------------- reachability

  lemma RootReachable(env: Env, roots: set<Requirement>, r: Requirement)
    requires r in roots
    ensures Reachable(env, roots, r)
  {
    assert PathTo(env, roots, [r], r);
  }

  lemma DepReachable(env: Env, roots: set<Requirement>, r: Requirement, d: Requirement)
    requires Reachable(env, roots, r) && d in Deps(env, r)
    ensures Reachable(env, roots, d)
  {
    var p :| PathTo(env, roots, p, r);
    assert PathTo(env, roots, p + [d], d);
  }

  ghost predicate Closed(env: Env, c: set<Requirement>) {
    forall r | r in c :: Deps(env, r) <= c
  }

  /** A set that holds the roots and the dependencies of its members holds everything reachable. */
  lemma {:induction false} ClosedHoldsPath(env: Env, c: set<Requirement>, p: seq<Requirement>)
    requires Closed(env, c) && IsPath(env, p) && p[0] in c
    ensures p[|p| - 1] in c
    decreases |p|
  {
    if |p| > 1 {
      assert p[1] in Deps(env, p[0]);
      ClosedHoldsPath(env, c, p[1..]);
    }
  }

  /** The universe of the search is finite. */
  ghost function AllLines(env: Env): set<Requirement> {
    set name, i | name in env.metadata && 0 <= i < |env.metadata[name]| && env.metadata[name][i].Some?
      :: env.metadata[name][i].value
  }

  lemma DepsAreLines(env: Env, r: Requirement)
    ensures Deps(env, r) <= AllLines(env)
  {
  }

  // ---------------------------------------------------------------- one requirement

  /** A line raises no exception and, if it is needed, its requirement is met. */
  predicate LineGood(env: Env, extras: seq<string>, line: Option<Requirement>) {
    && line.Some?
    && (forall e | e in extras :: Applies(env, line.value, Some(e)).Some?)
    && (Needed(env, extras, line) ==> env.meets(line.value) == Some(true))
  }

  predicate LinesGood(env: Env, r: Requirement, n: nat)
    requires n <= |Lines(env, r)|
  {
    forall i | 0 <= i < n :: LineGood(env, Extras(r), Lines(env, r)[i])
  }

  predicate Good(env: Env, r: Requirement) {
    r.name in env.metadata && LinesGood(env, r, |Lines(env, r)|)
  }

  /** Checking the requirement of a line for this extra raises an exception. */
  predicate RaisesFor(env: Env, r: Requirement, extra: string) {
    match Applies(env, r, Some(extra))
    case None => true
    case Some(applies) => applies && env.meets(r) == None
  }

  predicate LineRaises(env: Env, extras: seq<string>, line: Option<Requirement>) {
    line == None || exists e | e in extras :: RaisesFor(env, line.value, e)
  }

  predicate LinesRaise(env: Env, r: Requirement, n: nat)
    requires n <= |Lines(env, r)|
  {
    exists i | 0 <= i < n :: LineRaises(env, Extras(r), Lines(env, r)[i])
  }

  /** Listing and checking the dependencies of r raises an exception. */
  predicate Raises(env: Env, r: Requirement) {
    r.name !in env.metadata || LinesRaise(env, r, |Lines(env, r)|)
  }

  lemma GoodMeans(env: Env, r: Requirement)
    ensures Good(env, r) <==> Readable(env, r) && forall d | d in Deps(env, r) :: env.meets(d) == Some(true)
  {
    if Readable(env, r) && forall d | d in Deps(env, r) :: env.meets(d) == Some(true) {
      forall i | 0 <= i < |Lines(env, r)| ensures LineGood(env, Extras(r), Lines(env, r)[i]) {
        if Needed(env, Extras(r), Lines(env, r)[i]) {
          assert Lines(env, r)[i].value in Deps(env, r);
        }
      }
    }
    if Good(env, r) {
      forall i | 0 <= i < |Lines(env, r)|
        ensures Lines(env, r)[i].Some? && forall e | e in Extras(r) :: Applies(env, Lines(env, r)[i].value, Some(e)).Some?
      {
        assert LineGood(env, Extras(r), Lines(env, r)[i]);
      }
    }
  }

  /** version_check; None stands for an exception. */
  method VersionCheck(env: Env, r: Requirement) returns (failures: Option<seq<Failure>>)
    ensures failures == if env.meets(r) == None then None else if env.meets(r).value then Some([]) else Some([NotMet(r)])
  {
    match env.meets(r)
    case None => failures := None;
    case Some(met) => failures := Some(if met then [] else [NotMet(r)]);
  }

  /** One line of the metadata, for all extras. */
  method CheckLine(env: Env, extras: seq<string>, line: Option<Requirement>)
    returns (raised: bool, needed: bool, failures: seq<Failure>)
    ensures raised <==> LineRaises(env, extras, line)
    ensures !raised ==> line.Some? && needed == Needed(env, extras, line)
    ensures !raised && failures == [] <==> LineGood(env, extras, line)
    ensures forall f | f in failures :: f.NotMet?
    ensures Truthful(env, failures, if Needed(env, extras, line) then {line.value} else {})
  {
    raised, needed, failures := false, false, [];
    if line == None {
      return true, false, [];
    }
    var sub, i := line.value, 0;
    while i < |extras|
      invariant 0 <= i <= |extras|
      invariant needed == Needed(env, extras[..i], line)
      invariant forall j | 0 <= j < i :: !RaisesFor(env, sub, extras[j])
      invariant failures == [] <==> LineGood(env, extras[..i], line)
      invariant forall f | f in failures :: f.NotMet?
      invariant Truthful(env, failures, if needed then {sub} else {})
    {
      var e := extras[i];
      assert extras[..i + 1] == extras[..i] + [e];
      assert e in extras;
      match Applies(env, sub, Some(e))
      case None =>
        assert RaisesFor(env, sub, e);
        return true, needed, failures;
      case Some(applies) =>
        if applies {
          needed := true;
          var result := VersionCheck(env, sub);
          if result == None {
            assert RaisesFor(env, sub, e);
            assert Needed(env, extras, line);
            return true, needed, failures;
          }
          failures := failures + result.value;
        }
      i := i + 1;
    }
    assert extras[..i] == extras;
  }

  lemma NextLine(env: Env, r: Requirement, n: nat)
    requires n < |Lines(env, r)|
    ensures var line := Lines(env, r)[n];
            && DepsOf(env, r, n + 1) == DepsOf(env, r, n) + (if Needed(env, Extras(r), line) then {line.value} else {})
            && (LinesGood(env, r, n + 1) <==> LinesGood(env, r, n) && LineGood(env, Extras(r), line))
            && (LinesRaise(env, r, n + 1) <==> LinesRaise(env, r, n) || LineRaises(env, Extras(r), line))
            && (LineRaises(env, Extras(r), line) ==> LinesRaise(env, r, |Lines(env, r)|))
            && (Needed(env, Extras(r), line) ==> line.Some? && line.value in Deps(env, r))
  {
    hide LineGood, LineRaises, Extras;
    if Needed(env, Extras(r), Lines(env, r)[n]) {
      assert Lines(env, r)[n].value in Deps(env, r);
    }
    hide Needed;
  }

  lemma NoLineRaises(env: Env, r: Requirement)
    ensures !LinesRaise(env, r, 0)
  {
  }

  /** The dependencies of one requirement. An exception ends the listing. */
  method CheckRequirement(env: Env, r: Requirement) returns (raised: bool, deps: set<Requirement>, failures: seq<Failure>)
    ensures raised <==> Raises(env, r)
    ensures !raised ==> deps == Deps(env, r)
    ensures !raised && failures == [] <==> Good(env, r)
    ensures forall f | f in failures :: f.NotMet?
    ensures Truthful(env, failures, Deps(env, r))
  {
    hide LineGood, LineRaises, LinesRaise, Needed, Extras;
    deps, failures := {}, [];
    if r.name !in env.metadata {
      return true, deps, failures;
    }
    var lines, i := env.metadata[r.name], 0;
    NoLineRaises(env, r);
    while i < |lines|
      invariant 0 <= i <= |lines|
      invariant deps == DepsOf(env, r, i)
      invariant failures == [] <==> LinesGood(env, r, i)
      invariant !LinesRaise(env, r, i)
      invariant forall f | f in failures :: f.NotMet?
      invariant Truthful(env, failures, Deps(env, r))
    {
      var stop, needed, more := CheckLine(env, Extras(r), lines[i]);
      NextLine(env, r, i);
      failures := failures + more;
      if stop {
        return true, deps, failures;
      }
      if needed {
        deps := deps + {lines[i].value};
      }
      i := i + 1;
    }
    raised := false;
  }

  // ---------------------------------------------------------------- one level

  /** The elements of a set, in no particular order. */
  method Listed(s: set<Requirement>) returns (list: seq<Requirement>)
    ensures forall r :: r in list <==> r in s
  {
    list := [];
    var left := s;
    while left != {}
      invariant left <= s
      invariant forall r :: r in list <==> r in s - left
    {
      var r :| r in left;
      list, left := list + [r], left - {r};
    }
  }

  ghost function AllDeps(env: Env, reqs: seq<Requirement>): set<Requirement> {
    set r, d | r in reqs && d in Deps(env, r) :: d
  }

  /** What the search finds below r: nothing if an exception ends the listing. */
  ghost function SearchDeps(env: Env, r: Requirement): set<Requirement> {
    if Raises(env, r) then {} else Deps(env, r)
  }

  ghost function Found(env: Env, reqs: seq<Requirement>): set<Requirement> {
    set r, d | r in reqs && d in SearchDeps(env, r) :: d
  }

  /** What one level leaves: the next one, and whether everything on it was good. */
  ghost predicate LevelDone(env: Env, reqs: seq<Requirement>, checked: set<Requirement>, next: seq<Requirement>, ok: bool) {
    && (ok <==> forall r | r in reqs :: Good(env, r))
    && (forall d | d in next :: d !in checked && d in AllDeps(env, reqs) && d in Found(env, reqs))
    && (forall d | d in Found(env, reqs) :: d in checked || d in next)
    && (ok ==> forall d | d in AllDeps(env, reqs) :: d in checked || d in next)
  }

  lemma LevelEmpty(env: Env, checked: set<Requirement>)
    ensures LevelDone(env, [], checked, [], true)
  {
  }

  lemma LevelStep(env: Env, reqs: seq<Requirement>, r: Requirement, checked: set<Requirement>,
                  next: seq<Requirement>, more: seq<Requirement>, ok: bool, good: bool)
    requires LevelDone(env, reqs, checked, next, ok) && good == Good(env, r) && (good ==> !Raises(env, r))
    requires forall d | d in more :: d in Deps(env, r) && d in SearchDeps(env, r) && d !in checked
    requires forall d | d in SearchDeps(env, r) :: d in checked || d in more
    ensures LevelDone(env, reqs + [r], checked, next + more, ok && good)
  {
    assert good ==> SearchDeps(env, r) == Deps(env, r);
    hide Deps, Good, SearchDeps, Raises;
    assert AllDeps(env, reqs + [r]) == AllDeps(env, reqs) + Deps(env, r);
    assert Found(env, reqs + [r]) == Found(env, reqs) + SearchDeps(env, r);
  }

  /** The reports of exceptions, in order. */
  function Errors(failures: seq<Failure>): seq<Failure> {
    if failures == [] then []
    else
      var last := failures[|failures| - 1];
      Errors(failures[..|failures| - 1]) + if last.Error? then [last] else []
  }

  lemma {:induction false} ErrorsJoin(f: seq<Failure>, g: seq<Failure>)
    ensures Errors(f + g) == Errors(f) + Errors(g)
    decreases |g|
  {
    if g == [] {
      assert f + g == f;
    } else {
      var last := |g| - 1;
      assert (f + g)[..|f| + last] == f + g[..last];
      ErrorsJoin(f, g[..last]);
    }
  }

  lemma {:induction false} NoErrors(failures: seq<Failure>)
    requires forall f | f in failures :: f.NotMet?
    ensures Errors(failures) == []
    decreases |failures|
  {
    if failures != [] {
      var last := failures[|failures| - 1];
      assert last in failures && forall f | f in failures[..|failures| - 1] :: f in failures;
      NoErrors(failures[..|failures| - 1]);
    }
  }

  /** The requirements whose checking raises an exception, in order. */
  function Raising(env: Env, reqs: seq<Requirement>): seq<Requirement> {
    if reqs == [] then []
    else
      var last := reqs[|reqs| - 1];
      Raising(env, reqs[..|reqs| - 1]) + if Raises(env, last) then [last] else []
  }

  lemma {:induction false} RaisingMembers(env: Env, reqs: seq<Requirement>)
    ensures forall r :: r in Raising(env, reqs) <==> r in reqs && Raises(env, r)
    decreases |reqs|
  {
    hide Raises;
    if reqs != [] {
      assert reqs == reqs[..|reqs| - 1] + [reqs[|reqs| - 1]];
      RaisingMembers(env, reqs[..|reqs| - 1]);
    }
  }

  lemma {:induction false} RaisingJoin(env: Env, a: seq<Requirement>, b: seq<Requirement>)
    ensures Raising(env, a + b) == Raising(env, a) + Raising(env, b)
    decreases |b|
  {
    hide Raises;
    if b == [] {
      assert a + b == a;
    } else {
      var last := |b| - 1;
      assert (a + b)[..|a| + last] == a + b[..last];
      RaisingJoin(env, a, b[..last]);
    }
  }

  /** n reports that blame the same requirement. */
  function Blames(r: Requirement, n: nat): (b: seq<Failure>)
    ensures |b| == n && forall i | 0 <= i < n :: b[i] == Error(r)
  {
    seq(n, _ => Error(r))
  }

  /** Each exception is reported, in order, under the name of the requirement at fault. */
  ghost predicate NamesFaults(failures: seq<Failure>, faults: seq<Requirement>) {
    |Errors(failures)| == |faults| && forall i | 0 <= i < |faults| :: Errors(failures)[i] == Error(faults[i])
  }

  /** Reports that all blame `last` are right if and only if nothing but `last` is at fault. */
  lemma BlameIsRight(env: Env, reqs: seq<Requirement>, last: Requirement, failures: seq<Failure>)
    requires Errors(failures) == Blames(last, |Raising(env, reqs)|)
    ensures NamesFaults(failures, Raising(env, reqs)) <==> forall r | r in reqs && Raises(env, r) :: r == last
  {
    RaisingMembers(env, reqs);
    hide Raises, Raising, Errors;
    var faults := Raising(env, reqs);
    assert forall i | 0 <= i < |faults| :: faults[i] in faults;
  }

  /** Requirement a raises an exception, because its metadata is malformed, and b is blamed for it. */
  lemma BlamesTheWrongOne(env: Env, a: Requirement, b: Requirement, failures: seq<Failure>)
    requires a.name != b.name && env.metadata == map[a.name := [None], b.name := []]
    requires Errors(failures) == Blames(b, |Raising(env, [a, b])|)
    ensures Errors(failures) == [Error(b)] && Raising(env, [a, b]) == [a] && !NamesFaults(failures, [a])
  {
    assert LineRaises(env, Extras(a), Lines(env, a)[0]);
    assert Raises(env, a) && !Raises(env, b);
    hide Raises;
    var both := [a, b];
    assert both[..1] == [a] && [a][..0] == [];
    assert Raising(env, []) == [] && Raising(env, [a]) == [a] && Raising(env, both) == [a];
  }

  /**
     All requirements of a level. The message for an exception names `last`, the variable left over from the loop
     over the direct requirements, not the requirement at fault.
   */
  method CheckLevel(env: Env, reqs: seq<Requirement>, checked: set<Requirement>, last: Requirement)
    returns (next: seq<Requirement>, failures: seq<Failure>)
    ensures LevelDone(env, reqs, checked, next, failures == [])
    ensures Errors(failures) == Blames(last, |Raising(env, reqs)|)
    ensures forall f | f in failures && f.Error? :: f.req == last
    ensures Truthful(env, failures, AllDeps(env, reqs))
  {
    hide LevelDone, Good, Deps, Raises, Raising, Errors;
    next, failures := [], [];
    LevelEmpty(env, checked);
    NothingRaised(env, last);
    var i := 0;
    while i < |reqs|
      invariant 0 <= i <= |reqs|
      invariant LevelDone(env, reqs[..i], checked, next, failures == [])
      invariant Errors(failures) == Blames(last, |Raising(env, reqs[..i])|)
      invariant forall f | f in failures && f.Error? :: f.req == last
      invariant Truthful(env, failures, AllDeps(env, reqs))
    {
      var raised, deps, more := CheckRequirement(env, reqs[i]);
      ReportStep(env, reqs[..i], reqs[i], last, failures, more);
      var unseen := [];
      if raised {
        more := more + [Error(last)];
      } else {
        unseen := Listed(deps - checked);
      }
      assert Deps(env, reqs[i]) <= AllDeps(env, reqs);
      LevelStep(env, reqs[..i], reqs[i], checked, next, unseen, failures == [], more == []);
      assert reqs[..i + 1] == reqs[..i] + [reqs[i]];
      next, failures := next + unseen, failures + more;
      i := i + 1;
    }
    assert reqs[..i] == reqs;
  }

  lemma NothingRaised(env: Env, last: Requirement)
    ensures Errors([]) == Blames(last, |Raising(env, [])|)
  {
  }

  /** An exception adds one report. */
  lemma ReportStep(env: Env, reqs: seq<Requirement>, r: Requirement, last: Requirement,
                   failures: seq<Failure>, more: seq<Failure>)
    requires Errors(failures) == Blames(last, |Raising(env, reqs)|) && forall f | f in more :: f.NotMet?
    ensures Errors(failures + (more + if Raises(env, r) then [Error(last)] else []))
         == Blames(last, |Raising(env, reqs + [r])|)
    ensures !Raises(env, r) ==> Errors(failures + more) == Blames(last, |Raising(env, reqs + [r])|)
  {
    var extra := if Raises(env, r) then [Error(last)] else [];
    NoErrors(more);
    ErrorsJoin(more, extra);
    ErrorsJoin(failures, more + extra);
    RaisingJoin(env, reqs, [r]);
    OneRaising(env, r);
    OneError(last);
    hide Errors, Raising, Raises;
    assert extra == [] ==> more + extra == more;
  }

  lemma OneRaising(env: Env, r: Requirement)
    ensures Raising(env, [r]) == if Raises(env, r) then [r] else []
  {
    hide Raises;
    assert [r][..0] == [];
  }

  lemma OneError(last: Requirement)
    ensures Errors([Error(last)]) == [Error(last)] && Errors([]) == []
  {
    assert [Error(last)][..0] == [];
  }

  // ---------------------------------------------------------------- the direct requirements

  /** A direct requirement is searched further if its marker holds and its version could be compared. */
  predicate Kept(env: Env, r: Requirement) {
    Applies(env, r, None) == Some(true) && env.meets(r).Some?
  }

  function KeptOf(env: Env, reqs: seq<Requirement>): (k: seq<Requirement>)
    ensures forall r :: r in k <==> r in reqs && Kept(env, r)
  {
    if reqs == [] then []
    else
      var last := reqs[|reqs| - 1];
      KeptOf(env, reqs[..|reqs| - 1]) + if Kept(env, last) then [last] else []
  }

  /** `list.remove(x)` */
  function Remove(list: seq<Requirement>, x: Requirement): seq<Requirement> {
    if list == [] then [] else if list[0] == x then list[1..] else [list[0]] + Remove(list[1..], x)
  }

  lemma {:induction false} RemoveFirst(before: seq<Requirement>, x: Requirement, after: seq<Requirement>)
    requires x !in before
    ensures Remove(before + [x] + after, x) == before + after
  {
    var list := before + [x] + after;
    if before == [] {
      assert list[1..] == after;
    } else {
      assert list[1..] == before[1..] + [x] + after;
      RemoveFirst(before[1..], x, after);
      assert before + after == [before[0]] + (before[1..] + after);
    }
  }

  /** The failures that belong to the direct requirements checked so far. */
  ghost predicate DirectDone(env: Env, done: seq<Requirement>, failures: seq<Failure>) {
    && (failures == [] <==> forall r | r in Roots(env, done) :: env.meets(r) == Some(true))
    && Truthful(env, failures, Roots(env, done))
    && forall f | f in failures && f.Error? :: f.req in done && f.req in Roots(env, done) && env.meets(f.req) == None
  }

  lemma DirectStep(env: Env, done: seq<Requirement>, r: Requirement, failures: seq<Failure>, more: seq<Failure>)
    requires DirectDone(env, done, failures)
    requires Applies(env, r, None) == Some(true) ==>
               more == match env.meets(r) case None => [Error(r)] case Some(met) => if met then [] else [NotMet(r)]
    requires Applies(env, r, None) != Some(true) ==> more == []
    ensures DirectDone(env, done + [r], failures + more)
  {
    hide Applies;
    var roots, now := Roots(env, done), Roots(env, done + [r]);
    assert now == roots + if Applies(env, r, None) == Some(true) then {r} else {};
    TruthfulJoin(env, failures, more, roots, now, now);
  }

  lemma DirectEnd(env: Env, direct: seq<Requirement>, failures: seq<Failure>)
    requires DirectDone(env, direct, failures)
    ensures failures == [] <==> forall r | r in Roots(env, direct) :: env.meets(r) == Some(true)
    ensures Truthful(env, failures, Roots(env, direct))
    ensures forall f | f in failures && f.Error? :: f.req in direct && env.meets(f.req) == None
  {
  }

  lemma DirectEmpty(env: Env)
    ensures KeptOf(env, []) == [] && DirectDone(env, [], [])
  {
  }

  lemma DirectNext(env: Env, done: seq<Requirement>, r: Requirement, after: seq<Requirement>)
    ensures KeptOf(env, done) + ([r] + after) == KeptOf(env, done) + [r] + after
    ensures Kept(env, r) ==> KeptOf(env, done + [r]) == KeptOf(env, done) + [r]
    ensures !Kept(env, r) ==> KeptOf(env, done + [r]) + after == Remove(KeptOf(env, done) + [r] + after, r)
  {
    assert (done + [r])[..|done|] == done;
    if !Kept(env, r) {
      RemoveFirst(KeptOf(env, done), r, after);
    }
  }

  /** The loop over the direct requirements. A marker that cannot be evaluated ends the script. */
  method CheckDirect(env: Env, direct: seq<Requirement>) returns (crash: bool, reqs: seq<Requirement>, failures: seq<Failure>)
    ensures crash <==> exists r | r in direct :: Applies(env, r, None) == None
    ensures !crash ==> reqs == KeptOf(env, direct)
    ensures !crash ==> (failures == [] <==> forall r | r in Roots(env, direct) :: env.meets(r) == Some(true))
    ensures !crash ==> Truthful(env, failures, Roots(env, direct))
    ensures !crash ==> forall f | f in failures && f.Error? :: f.req in direct && env.meets(f.req) == None
  {
    hide KeptOf, Remove, DirectDone, Truthful;
    reqs, failures := direct, [];
    DirectEmpty(env);
    assert direct[..0] == [];
    var i := 0;
    while i < |direct|
      invariant 0 <= i <= |direct|
      invariant forall r | r in direct[..i] :: Applies(env, r, None).Some?
      invariant reqs == KeptOf(env, direct[..i]) + direct[i..]
      invariant DirectDone(env, direct[..i], failures)
    {
      var req := direct[i];
      assert direct[..i + 1] == direct[..i] + [req];
      assert direct[i..] == [req] + direct[i + 1..];
      DirectNext(env, direct[..i], req, direct[i + 1..]);
      match Applies(env, req, None)
      case None =>
        return true, reqs, failures;
      case Some(applies) =>
        if applies {
          var result := VersionCheck(env, req);
          DirectStep(env, direct[..i], req, failures, if result == None then [Error(req)] else result.value);
          match result
          case Some(more) =>
            failures := failures + more;
          case None =>
            failures := failures + [Error(req)];
            reqs := Remove(reqs, req);
        } else {
          DirectStep(env, direct[..i], req, failures, []);
          assert failures + [] == failures;
          reqs := Remove(reqs, req);
        }
      i := i + 1;
    }
    assert direct[..i] == direct;
    DirectEnd(env, direct, failures);
    crash := false;
  }

  // ---------------------------------------------------------------- the search

  /**
     The search so far: everything seen is reachable; requirements on the next level have not been checked; as
     long as nothing failed, what has been checked is good and its dependencies have been seen; otherwise
     something reachable is not good.
   */
  ghost predicate Progress(env: Env, roots: set<Requirement>, checked: set<Requirement>, next: seq<Requirement>, ok: bool) {
    && (forall r | r in checked || r in next :: Reachable(env, roots, r))
    && (forall r | r in next :: r !in checked)
    && (ok ==> forall r | r in roots :: env.meets(r) == Some(true) && (r in checked || r in next))
    && (ok ==> forall r | r in checked :: Good(env, r) && forall d | d in Deps(env, r) :: d in checked || d in next)
    && (!ok ==> !Satisfied(env, roots))
  }

  lemma ReachableLevel(env: Env, roots: set<Requirement>, checked: set<Requirement>, next: seq<Requirement>, ok: bool)
    requires Progress(env, roots, checked, next, ok)
    ensures forall r | r in next :: Reachable(env, roots, r)
  {
  }

  lemma NotGoodNotSatisfied(env: Env, roots: set<Requirement>, r: Requirement)
    requires Reachable(env, roots, r) && Satisfied(env, roots)
    ensures Good(env, r)
  {
    GoodMeans(env, r);
    forall d | d in Deps(env, r) ensures env.meets(d) == Some(true) {
      DepReachable(env, roots, r, d);
    }
  }

  lemma LevelProgress(env: Env, roots: set<Requirement>, checked: set<Requirement>, reqs: seq<Requirement>, ok: bool,
                      next: seq<Requirement>, levelOk: bool)
    requires Progress(env, roots, checked, reqs, ok)
    requires LevelDone(env, reqs, checked + (set r | r in reqs), next, levelOk)
    ensures Progress(env, roots, checked + (set r | r in reqs), next, ok && levelOk)
  {
    hide Reachable, Good, Deps, Satisfied;
    forall d | d in next ensures Reachable(env, roots, d) {
      var r :| r in reqs && d in Deps(env, r);
      DepReachable(env, roots, r, d);
    }
    if !levelOk {
      var r :| r in reqs && !Good(env, r);
      if Satisfied(env, roots) {
        NotGoodNotSatisfied(env, roots, r);
        assert false;
      }
    }
  }

  lemma NothingLeft(env: Env, roots: set<Requirement>, checked: set<Requirement>, ok: bool)
    requires Progress(env, roots, checked, [], ok)
    ensures ok <==> Satisfied(env, roots)
  {
    if ok {
      forall r | Reachable(env, roots, r) ensures env.meets(r) == Some(true) && Readable(env, r) {
        var p :| PathTo(env, roots, p, r);
        ClosedHoldsPath(env, checked, p);
        GoodMeans(env, r);
        if |p| > 1 {
          var before := p[|p| - 2];
          ClosedHoldsPath(env, checked, p[..|p| - 1]);
          GoodMeans(env, before);
          assert r in Deps(env, before);
        }
      }
    }
  }

  lemma DirectProgress(env: Env, direct: seq<Requirement>, reqs: seq<Requirement>, ok: bool)
    requires reqs == KeptOf(env, direct)
    requires ok <==> forall r | r in Roots(env, direct) :: env.meets(r) == Some(true)
    ensures Progress(env, Roots(env, direct), {}, reqs, ok)
  {
    hide Good, Deps, PathTo;
    var roots := Roots(env, direct);
    forall r | r in roots ensures Reachable(env, roots, r) {
      RootReachable(env, roots, r);
    }
  }

  ghost predicate TruthfulReports(env: Env, roots: set<Requirement>, failures: seq<Failure>) {
    forall f | f in failures && f.NotMet? :: Reachable(env, roots, f.req) && env.meets(f.req) == Some(false)
  }

  lemma DirectReports(env: Env, direct: seq<Requirement>, failures: seq<Failure>)
    requires Truthful(env, failures, Roots(env, direct))
    ensures TruthfulReports(env, Roots(env, direct), failures)
  {
    forall r | r in Roots(env, direct) ensures Reachable(env, Roots(env, direct), r) {
      RootReachable(env, Roots(env, direct), r);
    }
  }

  lemma LevelReports(env: Env, roots: set<Requirement>, reqs: seq<Requirement>,
                     failures: seq<Failure>, more: seq<Failure>)
    requires TruthfulReports(env, roots, failures) && Truthful(env, more, AllDeps(env, reqs))
    requires forall r | r in reqs :: Reachable(env, roots, r)
    ensures TruthfulReports(env, roots, failures + more)
  {
    hide Reachable, Deps;
    forall d | d in AllDeps(env, reqs) ensures Reachable(env, roots, d) {
      var r :| r in reqs && d in Deps(env, r);
      DepReachable(env, roots, r, d);
    }
  }

  /** Every level checks something new, and the universe is finite. */
  lemma LevelGrows(env: Env, universe: set<Requirement>, checked: set<Requirement>, reqs: seq<Requirement>,
                   next: seq<Requirement>, ok: bool)
    requires AllLines(env) <= universe && checked <= universe
    requires reqs != [] && forall r | r in reqs :: r in universe && r !in checked
    requires LevelDone(env, reqs, checked + (set r | r in reqs), next, ok)
    ensures var now := checked + set r | r in reqs;
            && |checked| < |now| <= |universe| && now <= universe
            && forall r | r in next :: r in universe && r !in now
  {
    hide AllLines, Deps, Good;
    var added := set r | r in reqs;
    assert reqs[0] in added;
    assert |checked + added| == |checked| + |added|;
    SubsetSize(checked + added, universe);
    forall d | d in next ensures d in universe {
      var r :| r in reqs && d in Deps(env, r);
      DepsAreLines(env, r);
    }
  }

  // ---------------------------------------------------------------- what is searched

  /** The direct requirements from which the search starts. */
  ghost function SearchRoots(env: Env, direct: seq<Requirement>): set<Requirement> {
    set r | r in direct && Kept(env, r)
  }

  ghost predicate SearchPath(env: Env, roots: set<Requirement>, p: seq<Requirement>, r: Requirement) {
    && p != [] && p[0] in roots && p[|p| - 1] == r
    && forall i | 0 < i < |p| :: p[i] in SearchDeps(env, p[i - 1])
  }

  /** The search gets to r, through requirements whose dependencies can be listed and checked. */
  ghost predicate Searched(env: Env, roots: set<Requirement>, r: Requirement) {
    exists p :: SearchPath(env, roots, p, r)
  }

  lemma SearchedNext(env: Env, roots: set<Requirement>, r: Requirement, d: Requirement)
    requires Searched(env, roots, r) && d in SearchDeps(env, r)
    ensures Searched(env, roots, d)
  {
    hide SearchDeps;
    var p :| SearchPath(env, roots, p, r);
    assert SearchPath(env, roots, p + [d], d);
  }

  /** The search so far has checked what it got to, in this order, and knows what it gets to next. */
  ghost predicate Exact(env: Env, roots: set<Requirement>, checked: set<Requirement>, next: seq<Requirement>,
                        order: seq<Requirement>) {
    && (forall r :: r in order <==> r in checked)
    && (forall r | r in checked || r in next :: Searched(env, roots, r))
    && (forall r | r in roots :: r in checked || r in next)
    && (forall r, d | r in checked && d in SearchDeps(env, r) :: d in checked || d in next)
  }

  lemma LevelExact(env: Env, roots: set<Requirement>, checked: set<Requirement>, reqs: seq<Requirement>,
                   order: seq<Requirement>, next: seq<Requirement>, ok: bool)
    requires Exact(env, roots, checked, reqs, order)
    requires LevelDone(env, reqs, checked + (set r | r in reqs), next, ok)
    ensures Exact(env, roots, checked + (set r | r in reqs), next, order + reqs)
  {
    hide Searched, SearchDeps, Good, Deps;
    forall d | d in next ensures Searched(env, roots, d) {
      var r :| r in reqs && d in SearchDeps(env, r);
      SearchedNext(env, roots, r, d);
    }
  }

  lemma {:induction false} SearchPathChecked(env: Env, roots: set<Requirement>, checked: set<Requirement>,
                                             order: seq<Requirement>, p: seq<Requirement>, r: Requirement)
    requires Exact(env, roots, checked, [], order) && SearchPath(env, roots, p, r)
    ensures r in checked
    decreases |p|
  {
    if |p| > 1 {
      SearchPathChecked(env, roots, checked, order, p[..|p| - 1], p[|p| - 2]);
      assert p[|p| - 1] in SearchDeps(env, p[|p| - 2]);
    }
  }

  lemma SearchIsExact(env: Env, roots: set<Requirement>, checked: set<Requirement>, order: seq<Requirement>)
    requires Exact(env, roots, checked, [], order)
    ensures forall r :: r in order <==> Searched(env, roots, r)
  {
    forall r | Searched(env, roots, r) ensures r in order {
      var p :| SearchPath(env, roots, p, r);
      SearchPathChecked(env, roots, checked, order, p, r);
    }
  }

  lemma StartExact(env: Env, direct: seq<Requirement>)
    ensures Exact(env, SearchRoots(env, direct), {}, KeptOf(env, direct), [])
  {
    hide SearchDeps;
    forall r | r in SearchRoots(env, direct) ensures Searched(env, SearchRoots(env, direct), r) {
      assert SearchPath(env, SearchRoots(env, direct), [r], r);
    }
  }

  lemma BlamesJoin(env: Env, order: seq<Requirement>, reqs: seq<Requirement>, last: Requirement,
                   later: seq<Failure>, failures: seq<Failure>)
    requires Errors(later) == Blames(last, |Raising(env, order)|) && Errors(failures) == Blames(last, |Raising(env, reqs)|)
    ensures Errors(later + failures) == Blames(last, |Raising(env, order + reqs)|)
  {
    ErrorsJoin(later, failures);
    RaisingJoin(env, order, reqs);
    hide Errors, Raising;
  }

  /** What is printed about exceptions: those of the direct requirements, and those of the search. */
  ghost predicate Reports(env: Env, direct: seq<Requirement>, first: seq<Failure>, later: seq<Failure>,
                          order: seq<Requirement>) {
    && (forall f | f in first && f.Error? :: f.req in direct && env.meets(f.req) == None)
    && (forall r :: r in order <==> Searched(env, SearchRoots(env, direct), r))
    && (if direct == [] then later == [] && order == []
        else Errors(later) == Blames(direct[|direct| - 1], |Raising(env, order)|))
  }

  /**
     The search reports every exception under the name at fault if and only if no requirement that it gets to raises
     one, except for the last direct requirement.
   */
  lemma ReportsAreRight(env: Env, direct: seq<Requirement>, first: seq<Failure>, later: seq<Failure>, order: seq<Requirement>)
    requires Reports(env, direct, first, later, order) && direct != []
    ensures NamesFaults(later, Raising(env, order)) <==>
            forall r | Searched(env, SearchRoots(env, direct), r) && Raises(env, r) :: r == direct[|direct| - 1]
  {
    hide Searched, SearchRoots;
    BlameIsRight(env, order, direct[|direct| - 1], later);
  }

  /** The requirements the search can get to are finitely many. */
  ghost function Universe(env: Env, direct: seq<Requirement>): set<Requirement> {
    AllLines(env) + set r | r in direct
  }

  /** The loop invariant, on values. */
  ghost predicate Searching(env: Env, direct: seq<Requirement>, checked: set<Requirement>, next: seq<Requirement>,
                            failures: seq<Failure>, first: seq<Failure>, later: seq<Failure>, order: seq<Requirement>) {
    && Progress(env, Roots(env, direct), checked, next, failures == [])
    && Exact(env, SearchRoots(env, direct), checked, next, order)
    && checked <= Universe(env, direct) && (forall r | r in next :: r in Universe(env, direct) && r !in checked)
    && Reporting(env, direct, failures, first, later, order) && (direct == [] ==> next == [])
  }

  ghost predicate Reporting(env: Env, direct: seq<Requirement>, failures: seq<Failure>, first: seq<Failure>,
                            later: seq<Failure>, order: seq<Requirement>) {
    && TruthfulReports(env, Roots(env, direct), failures)
    && (forall f | f in failures && f.Error? :: f.req in direct)
    && (forall f | f in first && f.Error? :: f.req in direct && env.meets(f.req) == None)
    && failures == first + later
    && (if direct == [] then later == [] && order == []
        else Errors(later) == Blames(direct[|direct| - 1], |Raising(env, order)|))
  }

  lemma ReportingStep(env: Env, direct: seq<Requirement>, last: Requirement, reqs: seq<Requirement>, failures: seq<Failure>,
                      first: seq<Failure>, later: seq<Failure>, order: seq<Requirement>, more: seq<Failure>)
    requires Reporting(env, direct, failures, first, later, order)
    requires direct != [] && last == direct[|direct| - 1]
    requires Errors(more) == Blames(last, |Raising(env, reqs)|)
    requires forall f | f in more && f.Error? :: f.req == last
    requires Truthful(env, more, AllDeps(env, reqs)) && forall r | r in reqs :: Reachable(env, Roots(env, direct), r)
    ensures Reporting(env, direct, failures + more, first, later + more, order + reqs)
  {
    hide Reachable, Errors, Raising, Roots, Truthful, TruthfulReports, AllDeps;
    LevelReports(env, Roots(env, direct), reqs, failures, more);
    BlamesJoin(env, order, reqs, last, later, more);
    assert first + later + more == first + (later + more);
  }

  lemma SearchStarts(env: Env, direct: seq<Requirement>, first: seq<Failure>)
    requires first == [] <==> forall r | r in Roots(env, direct) :: env.meets(r) == Some(true)
    requires Truthful(env, first, Roots(env, direct))
    requires forall f | f in first && f.Error? :: f.req in direct && env.meets(f.req) == None
    ensures Searching(env, direct, {}, KeptOf(env, direct), first, first, [], [])
  {
    hide Progress, Exact, Roots, Truthful, Reporting, AllLines, SearchRoots, Kept;
    DirectProgress(env, direct, KeptOf(env, direct), first == []);
    StartExact(env, direct);
    ReportingStarts(env, direct, first);
  }

  lemma ReportingStarts(env: Env, direct: seq<Requirement>, first: seq<Failure>)
    requires Truthful(env, first, Roots(env, direct))
    requires forall f | f in first && f.Error? :: f.req in direct && env.meets(f.req) == None
    ensures Reporting(env, direct, first, first, [], [])
  {
    hide Errors, Raising, Roots, Truthful, TruthfulReports;
    DirectReports(env, direct, first);
    if direct != [] {
      NothingRaised(env, direct[|direct| - 1]);
    }
    assert first + [] == first;
  }

  /** One level. */
  lemma SearchStep(env: Env, direct: seq<Requirement>, checked: set<Requirement>, reqs: seq<Requirement>,
                   failures: seq<Failure>, first: seq<Failure>, later: seq<Failure>, order: seq<Requirement>,
                   next: seq<Requirement>, more: seq<Failure>)
    requires Searching(env, direct, checked, reqs, failures, first, later, order) && reqs != []
    requires direct != []
    requires LevelDone(env, reqs, checked + (set r | r in reqs), next, more == [])
    requires Errors(more) == Blames(direct[|direct| - 1], |Raising(env, reqs)|)
    requires forall f | f in more && f.Error? :: f.req == direct[|direct| - 1]
    requires Truthful(env, more, AllDeps(env, reqs))
    ensures var now := checked + (set r | r in reqs);
            && Searching(env, direct, now, next, failures + more, first, later + more, order + reqs)
            && |Universe(env, direct)| - |now| < |Universe(env, direct)| - |checked|
            && |now| <= |Universe(env, direct)|
  {
    hide Reachable, Satisfied, LevelDone, Progress, Exact, Errors, Raising, SearchRoots, Roots, Truthful, Reporting, AllLines,
         AllDeps;
    var roots := Roots(env, direct);
    ReachableLevel(env, roots, checked, reqs, failures == []);
    LevelProgress(env, roots, checked, reqs, failures == [], next, more == []);
    LevelExact(env, SearchRoots(env, direct), checked, reqs, order, next, more == []);
    LevelGrows(env, Universe(env, direct), checked, reqs, next, more == []);
    ReportingStep(env, direct, direct[|direct| - 1], reqs, failures, first, later, order, more);
  }

  lemma SearchEnds(env: Env, direct: seq<Requirement>, checked: set<Requirement>, failures: seq<Failure>,
                   first: seq<Failure>, later: seq<Failure>, order: seq<Requirement>)
    requires Searching(env, direct, checked, [], failures, first, later, order)
    ensures failures == [] <==> Satisfied(env, Roots(env, direct))
    ensures forall f | f in failures && f.NotMet? :: Reachable(env, Roots(env, direct), f.req) && env.meets(f.req) == Some(false)
    ensures forall f | f in failures && f.Error? :: f.req in direct
    ensures failures == first + later && Reports(env, direct, first, later, order)
  {
    hide Progress, Exact, Satisfied, Reachable, Searched, SearchRoots, Errors, Raising;
    NothingLeft(env, Roots(env, direct), checked, failures == []);
    SearchIsExact(env, SearchRoots(env, direct), checked, order);
  }

  /**
     The script. It always ends; it prints no failure exactly if everything that can be reached from the direct
     requirements is satisfied. `order` is what the search gets to, level by level.
   */
  method Check(env: Env, direct: seq<Requirement>)
    returns (crash: bool, notSatisfied: seq<Failure>, ghost first: seq<Failure>, ghost later: seq<Failure>,
             ghost order: seq<Requirement>)
    ensures crash <==> exists r | r in direct :: Applies(env, r, None) == None
    ensures !crash ==> (notSatisfied == [] <==> Satisfied(env, Roots(env, direct)))
    ensures !crash ==> forall f | f in notSatisfied && f.NotMet? ::
                         Reachable(env, Roots(env, direct), f.req) && env.meets(f.req) == Some(false)
    ensures !crash ==> forall f | f in notSatisfied && f.Error? :: f.req in direct
    ensures !crash ==> notSatisfied == first + later && Reports(env, direct, first, later, order)
  {
    hide Reachable, Good, Deps, Satisfied, LevelDone, Searching, Reports, Errors, Raising, Truthful, AllDeps, Roots, Universe;
    var newReqs;
    crash, newReqs, notSatisfied := CheckDirect(env, direct);
    first, later, order := notSatisfied, [], [];
    if crash {
      return;
    }
    SearchStarts(env, direct, first);
    var checked := {};
    while newReqs != []
      invariant Searching(env, direct, checked, newReqs, notSatisfied, first, later, order)
      decreases |Universe(env, direct)| - |checked|
    {
      SomethingDirect(env, direct, checked, newReqs, notSatisfied, first, later, order);
      var reqs, before := newReqs, checked;
      checked := checked + set r | r in reqs;
      var failures;
      newReqs, failures := CheckLevel(env, reqs, checked, direct[|direct| - 1]);
      SearchStep(env, direct, before, reqs, notSatisfied, first, later, order, newReqs, failures);
      notSatisfied := notSatisfied + failures;
      later, order := later + failures, order + reqs;
    }
    SearchEnds(env, direct, checked, notSatisfied, first, later, order);
  }

  lemma SomethingDirect(env: Env, direct: seq<Requirement>, checked: set<Requirement>, next: seq<Requirement>,
                        failures: seq<Failure>, first: seq<Failure>, later: seq<Failure>, order: seq<Requirement>)
    requires Searching(env, direct, checked, next, failures, first, later, order) && next != []
    ensures direct != []
  {
  }
}
