/**
 * What one call of `version($target)` does, as a function of the listing,
 * the loaded migration classes, the stored version and the target: which
 * steps it runs, which versions it writes, and what it answers
 * (MY_Migration.php, lines 180-266). The class `Migration.Migrator` runs the
 * same walk step by step and is proved to agree with `Resolve`.
 */
module Resolution {
  import opened Wrappers
  import opened MigrationTypes
  import opened Naming
  import opened Catalog
  import opened VersionStore

  /**
   * What including the migration files declares: the classes, and those of
   * them whose `up` or `down` is callable.
   */
  datatype Classes = Classes(declared: set<ClassRef>, withUp: set<ClassRef>, withDown: set<ClassRef>)

  /** `is_callable(array($instance, $method))`. */
  predicate Callable(classes: Classes, className: ClassRef, dir: Direction)
  {
    match dir
    case Up => className in classes.withUp
    case Down => className in classes.withDown
  }

  /** The direction of a call and the versions it starts from and aims at. */
  datatype Request = Request(dir: Direction, current: nat, target: nat)

  /** Up when the target is above the current version, down otherwise (equal included). */
  function DirectionOf(current: nat, target: nat): (dir: Direction)
    ensures dir == Up <==> target > current
  {
    if target > current then Up else Down
  }

  /** The range test of the walk: `current < n <= target` up, `target < n <= current` down. */
  predicate InRange(n: nat, req: Request)
  {
    match req.dir
    case Up => req.current < n <= req.target
    case Down => req.target < n <= req.current
  }

  /** `abs($number - $previous)`. */
  function Distance(a: nat, b: nat): nat
  {
    if a >= b then a - b else b - a
  }

  function Reverse<T>(s: seq<T>): (r: seq<T>)
    ensures |r| == |s| && forall k :: 0 <= k < |s| ==> r[k] == s[|s| - 1 - k]
  {
    if s == [] then [] else Reverse(s[1..]) + [s[0]]
  }

  /** The order the walk visits the catalog: as sorted going up, after `krsort` going down. */
  function WalkOrder(cat: seq<Entry>, dir: Direction): seq<Entry>
  {
    if dir == Up then cat else Reverse(cat)
  }

  /** Strictly increasing numbers going up, strictly decreasing going down. */
  predicate Monotone(walk: seq<Entry>, dir: Direction)
  {
    forall i, j :: 0 <= i < j < |walk| ==>
      if dir == Up then walk[i].number < walk[j].number else walk[i].number > walk[j].number
  }

  predicate Ordered(s: seq<nat>, dir: Direction)
  {
    forall i, j :: 0 <= i < j < |s| ==> if dir == Up then s[i] < s[j] else s[i] > s[j]
  }

  /** The numbers of the visited entries that are inside the requested range, in visiting order. */
  function Selected(walk: seq<Entry>, req: Request): seq<nat>
  {
    if walk == [] then []
    else (if InRange(walk[0].number, req) then [walk[0].number] else []) + Selected(walk[1..], req)
  }

  /**
   * Why the walk stops at position `j`, if it does: a jump of more than one
   * from the previous number under the sequential scheme, a class the file
   * does not declare, or, for an entry inside the range, a class without the
   * method of the direction.
   */
  function Fault(walk: seq<Entry>, j: nat, scheme: Scheme, classes: Classes, req: Request): Option<Error>
    requires j < |walk|
  {
    var n := walk[j].number;
    var className := ClassName(walk[j].file);
    if scheme == Sequential && j > 0 && Distance(n, walk[j - 1].number) > 1 then Some(Gap(n))
    else if className !in classes.declared then Some(ClassMissing(className))
    else if InRange(n, req) && !Callable(classes, className, req.dir) then Some(MethodMissing(className, req.dir))
    else None
  }

  /** The first position at or after `k` where the walk stops, or the end of the walk. */
  function FaultFrom(walk: seq<Entry>, k: nat, scheme: Scheme, classes: Classes, req: Request): (i: nat)
    requires k <= |walk|
    ensures k <= i <= |walk|
    ensures forall j :: k <= j < i ==> Fault(walk, j, scheme, classes, req).None?
    ensures i < |walk| ==> Fault(walk, i, scheme, classes, req).Some?
    decreases |walk| - k
  {
    if k == |walk| then k
    else if Fault(walk, k, scheme, classes, req).Some? then k
    else FaultFrom(walk, k + 1, scheme, classes, req)
  }

  /**
   * The events of running `steps`: each step, then at once the write of its
   * number as the module's version.
   */
  function StepEvents(moduleName: string, steps: seq<nat>, dir: Direction): (es: seq<Event>)
    ensures |es| == 2 * |steps|
  {
    if steps == [] then []
    else [Ran(steps[0], dir), Recorded(moduleName, steps[0])] + StepEvents(moduleName, steps[1..], dir)
  }

  /** Event `2k` runs step `k` and event `2k + 1`, right after it, records its number. */
  lemma {:induction false} StepEventsShape(moduleName: string, steps: seq<nat>, dir: Direction)
    ensures var es := StepEvents(moduleName, steps, dir);
      forall k :: 0 <= k < |steps| ==> es[2 * k] == Ran(steps[k], dir) && es[2 * k + 1] == Recorded(moduleName, steps[k])
  {
    if steps != [] {
      var rest := StepEvents(moduleName, steps[1..], dir);
      var es := StepEvents(moduleName, steps, dir);
      StepEventsShape(moduleName, steps[1..], dir);
      forall k | 0 <= k < |steps|
        ensures es[2 * k] == Ran(steps[k], dir) && es[2 * k + 1] == Recorded(moduleName, steps[k])
      {
        if k > 0 {
          assert steps[k] == steps[1..][k - 1];
          assert es[2 * k] == rest[2 * (k - 1)];
          assert es[2 * k + 1] == rest[2 * (k - 1) + 1];
        }
      }
    }
  }

  /** The numbers of the steps that ran, in order. */
  function Executed(events: seq<Event>): seq<nat>
  {
    if events == [] then []
    else (if events[0].Ran? then [events[0].number] else []) + Executed(events[1..])
  }

  /** The version the walk holds after running `steps` from `start`. */
  function After(start: nat, steps: seq<nat>): nat
  {
    if steps == [] then start else steps[|steps| - 1]
  }

  /** The events one call leaves behind, and its answer. */
  datatype Run = Run(events: seq<Event>, outcome: Outcome)

  /**
   * The walk of `version()` over the catalog in visiting order: it stops at
   * the first fault, runs and records the steps in range before it, and,
   * when nothing stopped it, writes the target once more unless the last
   * step already left the version there.
   */
  function Walk(walk: seq<Entry>, scheme: Scheme, classes: Classes, moduleName: string, req: Request): Run
  {
    var stop := FaultFrom(walk, 0, scheme, classes, req);
    var steps := Selected(walk[..stop], req);
    var applied := StepEvents(moduleName, steps, req.dir);
    if stop < |walk| then Run(applied, Failed(Fault(walk, stop, scheme, classes, req).value))
    else if After(req.current, steps) == req.target then Run(applied, Reached(req.target))
    else Run(applied + [Recorded(moduleName, req.target)], Reached(req.target))
  }

  /**
   * `version($target)` for the module `moduleName`, whose stored version is
   * `current`: the catalog, the not-found check, the empty-catalog answer,
   * the direction, and the walk.
   */
  function Resolve(files: seq<string>, scheme: Scheme, classes: Classes, moduleName: string, current: nat, target: nat): Run
  {
    match FindCatalog(files, scheme)
    case Failure(e) => Run([], Failed(e))
    case Success(cat) =>
      if target > 0 && target !in Numbers(cat) then Run([], Failed(NotFound(target)))
      else if cat == [] then Run([], NothingToRun)
      else
        var req := Request(DirectionOf(current, target), current, target);
        Walk(WalkOrder(cat, req.dir), scheme, classes, moduleName, req)
  }

  /**
   * `latest()`: "none found" on an empty catalog, otherwise `version()` aimed
   * at the number of the catalog's last file.
   */
  function ResolveLatest(files: seq<string>, scheme: Scheme, classes: Classes, moduleName: string, current: nat): Run
  {
    match FindCatalog(files, scheme)
    case Failure(e) => Run([], Failed(e))
    case Success(cat) =>
      if cat == [] then Run([], Failed(NoneFound))
      else Resolve(files, scheme, classes, moduleName, current, Number(cat[|cat| - 1].file))
  }

  // ---------------------------------------------------------------------
  // Facts about the pieces

  lemma {:induction false} SelectedAppend(a: seq<Entry>, b: seq<Entry>, req: Request)
    ensures Selected(a + b, req) == Selected(a, req) + Selected(b, req)
    decreases |a|
  {
    if a == [] {
      assert a + b == b;
    } else {
      assert (a + b)[0] == a[0] && (a + b)[1..] == a[1..] + b;
      SelectedAppend(a[1..], b, req);
    }
  }

  /** A number is selected exactly when an entry of the walk carries it and it is in range. */
  lemma {:induction false} SelectedMembers(walk: seq<Entry>, req: Request)
    ensures forall n :: n in Selected(walk, req) <==> n in Numbers(walk) && InRange(n, req)
  {
    if walk != [] {
      SelectedMembers(walk[1..], req);
      assert walk == [walk[0]] + walk[1..];
      assert Numbers(walk) == {walk[0].number} + Numbers(walk[1..]);
    }
  }

  /** Selection keeps the visiting order. */
  lemma {:induction false} SelectedOrdered(walk: seq<Entry>, req: Request)
    requires Monotone(walk, req.dir)
    ensures Ordered(Selected(walk, req), req.dir)
  {
    if walk != [] {
      var tail := walk[1..];
      assert Monotone(tail, req.dir) by {
        forall i, j | 0 <= i < j < |tail| ensures tail[i] == walk[i + 1] && tail[j] == walk[j + 1] { }
      }
      SelectedOrdered(tail, req);
      if InRange(walk[0].number, req) {
        HeadBeforeSelected(walk, req);
        OrderedCons(walk[0].number, Selected(tail, req), req.dir);
      }
    }
  }

  /** The first entry of a monotone walk comes before every number selected from the rest. */
  lemma HeadBeforeSelected(walk: seq<Entry>, req: Request)
    requires walk != [] && Monotone(walk, req.dir)
    ensures forall n :: n in Selected(walk[1..], req) ==>
      if req.dir == Up then walk[0].number < n else walk[0].number > n
  {
    var tail := walk[1..];
    SelectedMembers(tail, req);
    forall n | n in Selected(tail, req)
      ensures if req.dir == Up then walk[0].number < n else walk[0].number > n
    {
      var e :| e in tail && e.number == n;
      var k :| 0 <= k < |tail| && tail[k] == e;
      assert walk[k + 1] == e;
    }
  }

  /** A number before every member of an ordered sequence, put in front, keeps it ordered. */
  lemma OrderedCons(x: nat, rest: seq<nat>, dir: Direction)
    requires Ordered(rest, dir)
    requires forall n :: n in rest ==> if dir == Up then x < n else x > n
    ensures Ordered([x] + rest, dir)
  {
    var s := [x] + rest;
    forall i, j | 0 <= i < j < |s| ensures if dir == Up then s[i] < s[j] else s[i] > s[j] {
      assert s[j] == rest[j - 1] && rest[j - 1] in rest;
      if i > 0 {
        assert s[i] == rest[i - 1];
      }
    }
  }

  lemma {:induction false} StepEventsAppend(moduleName: string, a: seq<nat>, b: seq<nat>, dir: Direction)
    ensures StepEvents(moduleName, a + b, dir) == StepEvents(moduleName, a, dir) + StepEvents(moduleName, b, dir)
    decreases |a|
  {
    if a == [] {
      assert a + b == b;
    } else {
      assert (a + b)[0] == a[0] && (a + b)[1..] == a[1..] + b;
      StepEventsAppend(moduleName, a[1..], b, dir);
    }
  }

  lemma {:induction false} ExecutedAppend(a: seq<Event>, b: seq<Event>)
    ensures Executed(a + b) == Executed(a) + Executed(b)
    decreases |a|
  {
    if a == [] {
      assert a + b == b;
    } else {
      assert (a + b)[0] == a[0] && (a + b)[1..] == a[1..] + b;
      ExecutedAppend(a[1..], b);
    }
  }

  /** The steps of a run can be read back from its events. */
  lemma {:induction false} ExecutedStepEvents(moduleName: string, steps: seq<nat>, dir: Direction)
    ensures Executed(StepEvents(moduleName, steps, dir)) == steps
    decreases |steps|
  {
    if steps != [] {
      var rest := StepEvents(moduleName, steps[1..], dir);
      var es := StepEvents(moduleName, steps, dir);
      assert es == [Ran(steps[0], dir), Recorded(moduleName, steps[0])] + rest;
      ExecutedStepEvents(moduleName, steps[1..], dir);
      ExecutedAppend([Ran(steps[0], dir), Recorded(moduleName, steps[0])], rest);
      assert Executed([Recorded(moduleName, steps[0])]) == [];
      assert steps == [steps[0]] + steps[1..];
    }
  }

  /**
   * Replaying the events of a non-empty run leaves the module at the last
   * step's number, and touches no other module.
   */
  lemma StepEventsStore(table: map<string, nat>, moduleName: string, steps: seq<nat>, dir: Direction)
    ensures Stored(Apply(table, StepEvents(moduleName, steps, dir)), moduleName) == After(Stored(table, moduleName), steps)
    ensures forall other :: other != moduleName ==>
      Stored(Apply(table, StepEvents(moduleName, steps, dir)), other) == Stored(table, other)
  {
    var es := StepEvents(moduleName, steps, dir);
    StepEventsShape(moduleName, steps, dir);
    if steps != [] {
      var k := |steps| - 1;
      assert es[2 * k + 1] == es[|es| - 1];
      ApplyLastWrite(table, es, moduleName, steps[k]);
    }
    forall other | other != moduleName
      ensures Stored(Apply(table, es), other) == Stored(table, other)
    {
      forall i | 0 <= i < |es| && es[i].Recorded? ensures es[i].moduleName != other {
        var k := i / 2;
        assert k < |steps| && (i == 2 * k || i == 2 * k + 1);
        if i == 2 * k + 1 {
          assert es[i] == Recorded(moduleName, steps[k]);
        }
      }
      ApplyKeepsOthers(table, es, other);
    }
  }

  lemma {:induction false} ReverseAppend<T>(a: seq<T>, b: seq<T>)
    ensures Reverse(a + b) == Reverse(b) + Reverse(a)
  {
    var r, s := Reverse(a + b), Reverse(b) + Reverse(a);
    assert |r| == |s|;
    forall k | 0 <= k < |r| ensures r[k] == s[k] {
      if k < |b| {
        assert s[k] == Reverse(b)[k];
      } else {
        assert s[k] == Reverse(a)[k - |b|];
      }
    }
  }

  /** `krsort` on the sorted catalog: the same entries, strictly decreasing. */
  lemma WalkOrderFacts(cat: seq<Entry>, dir: Direction)
    requires Ascending(cat)
    ensures Monotone(WalkOrder(cat, dir), dir)
    ensures Numbers(WalkOrder(cat, dir)) == Numbers(cat)
    ensures |WalkOrder(cat, dir)| == |cat|
  {
    if dir == Down {
      ReverseDescending(cat);
      ReverseNumbers(cat);
    }
  }

  lemma ReverseDescending(cat: seq<Entry>)
    requires Ascending(cat)
    ensures Monotone(Reverse(cat), Down)
  {
    var w := Reverse(cat);
    forall i, j | 0 <= i < j < |w| ensures w[i].number > w[j].number {
      assert w[i] == cat[|cat| - 1 - i] && w[j] == cat[|cat| - 1 - j];
    }
  }

  lemma ReverseNumbers(cat: seq<Entry>)
    ensures Numbers(Reverse(cat)) == Numbers(cat)
  {
    var w := Reverse(cat);
    forall n ensures n in Numbers(w) <==> n in Numbers(cat) {
      if n in Numbers(w) {
        var e :| e in w && e.number == n;
        var k :| 0 <= k < |w| && w[k] == e;
        assert cat[|cat| - 1 - k] == e;
      }
      if n in Numbers(cat) {
        var e :| e in cat && e.number == n;
        var k :| 0 <= k < |cat| && cat[k] == e;
        assert w[|cat| - 1 - k] == e;
      }
    }
  }

  /**
   * The range test with the walk's running version (`$current_version`,
   * which each step moves to its own number) agrees with the test against
   * the version the call started from, because the walk visits numbers
   * monotonically.
   */
  lemma RangeUnchanged(walk: seq<Entry>, i: nat, req: Request)
    requires i < |walk| && Monotone(walk, req.dir)
    ensures InRange(walk[i].number, Request(req.dir, After(req.current, Selected(walk[..i], req)), req.target))
        == InRange(walk[i].number, req)
  {
    var steps := Selected(walk[..i], req);
    if steps != [] {
      SelectedMembers(walk[..i], req);
      var last := steps[|steps| - 1];
      assert last in steps;
      var e :| e in walk[..i] && e.number == last;
      var j :| 0 <= j < i && walk[..i][j] == e;
      assert walk[j] == e;
    }
  }

  /** A selection from a range that holds no number is empty. */
  lemma {:induction false} SelectedEmpty(walk: seq<Entry>, req: Request)
    requires forall n :: !InRange(n, req)
    ensures Selected(walk, req) == []
  {
    if walk != [] {
      SelectedEmpty(walk[1..], req);
    }
  }

  /** Going down from `hi` to `lo` selects the numbers going up from `lo` to `hi` selects, reversed. */
  lemma {:induction false} DownRetracesUp(cat: seq<Entry>, lo: nat, hi: nat)
    ensures Selected(Reverse(cat), Request(Down, hi, lo)) == Reverse(Selected(cat, Request(Up, lo, hi)))
  {
    if cat != [] {
      var down, up := Request(Down, hi, lo), Request(Up, lo, hi);
      var head := if InRange(cat[0].number, up) then [cat[0].number] else [];
      assert InRange(cat[0].number, down) == InRange(cat[0].number, up);
      DownRetracesUp(cat[1..], lo, hi);
      SelectedAppend(Reverse(cat[1..]), [cat[0]], down);
      assert Selected([cat[0]], down) == head;
      ReverseAppend(head, Selected(cat[1..], up));
      assert Reverse(head) == head;
    }
  }

  /** An entry that is no fault extends the fault-free prefix of the walk by one. */
  lemma ClearStep(walk: seq<Entry>, i: nat, scheme: Scheme, classes: Classes, req: Request)
    requires i < |walk|
    requires forall j :: 0 <= j < i ==> Fault(walk, j, scheme, classes, req).None?
    requires Fault(walk, i, scheme, classes, req).None?
    ensures forall j :: 0 <= j < i + 1 ==> Fault(walk, j, scheme, classes, req).None?
  {
  }

  /** The walk stops at the first position with a fault. */
  lemma {:induction false} FaultFromFirst(walk: seq<Entry>, k: nat, i: nat, scheme: Scheme, classes: Classes, req: Request)
    requires k <= i <= |walk|
    requires forall j :: k <= j < i ==> Fault(walk, j, scheme, classes, req).None?
    requires i < |walk| ==> Fault(walk, i, scheme, classes, req).Some?
    ensures FaultFrom(walk, k, scheme, classes, req) == i
    decreases i - k
  {
    if k < i {
      FaultFromFirst(walk, k + 1, i, scheme, classes, req);
    }
  }

  /** Past the early exits, `version()` is the walk over the catalog in visiting order. */
  lemma ResolveIsWalk(files: seq<string>, scheme: Scheme, classes: Classes, moduleName: string,
                      current: nat, target: nat, cat: seq<Entry>)
    requires FindCatalog(files, scheme) == Success(cat) && cat != []
    requires target == 0 || target in Numbers(cat)
    ensures var req := Request(DirectionOf(current, target), current, target);
      Resolve(files, scheme, classes, moduleName, current, target) == Walk(WalkOrder(cat, req.dir), scheme, classes, moduleName, req)
  {
  }

  /** A walk whose first fault is at `i` answers that fault after the steps in range before it. */
  lemma WalkStopsAt(walk: seq<Entry>, i: nat, scheme: Scheme, classes: Classes, moduleName: string, req: Request)
    requires i < |walk|
    requires forall j :: 0 <= j < i ==> Fault(walk, j, scheme, classes, req).None?
    requires Fault(walk, i, scheme, classes, req).Some?
    ensures Walk(walk, scheme, classes, moduleName, req)
         == Run(StepEvents(moduleName, Selected(walk[..i], req), req.dir), Failed(Fault(walk, i, scheme, classes, req).value))
  {
    FaultFromFirst(walk, 0, i, scheme, classes, req);
  }

  /** A walk with no fault runs every step in range and reaches the target. */
  lemma WalkThrough(walk: seq<Entry>, scheme: Scheme, classes: Classes, moduleName: string, req: Request)
    requires forall j :: 0 <= j < |walk| ==> Fault(walk, j, scheme, classes, req).None?
    ensures var steps := Selected(walk, req);
      var applied := StepEvents(moduleName, steps, req.dir);
      Walk(walk, scheme, classes, moduleName, req)
        == if After(req.current, steps) == req.target then Run(applied, Reached(req.target))
           else Run(applied + [Recorded(moduleName, req.target)], Reached(req.target))
  {
    FaultFromFirst(walk, 0, |walk|, scheme, classes, req);
    assert walk[..|walk|] == walk;
  }

  // ---------------------------------------------------------------------
  // The walk, over any visiting order

  /**
   * A walk that nothing stops ran every entry in range, each step followed by
   * its write, then at most one write of the target.
   */
  lemma WalkCompleted(walk: seq<Entry>, scheme: Scheme, classes: Classes, moduleName: string, req: Request)
    requires Walk(walk, scheme, classes, moduleName, req).outcome.Reached?
    ensures var run := Walk(walk, scheme, classes, moduleName, req);
      var steps := Executed(run.events);
      && run.outcome == Reached(req.target)
      && steps == Selected(walk, req)
      && (run.events == StepEvents(moduleName, steps, req.dir)
          || run.events == StepEvents(moduleName, steps, req.dir) + [Recorded(moduleName, req.target)])
  {
    var stop := FaultFrom(walk, 0, scheme, classes, req);
    assert walk[..stop] == walk;
    var steps := Selected(walk, req);
    var applied := StepEvents(moduleName, steps, req.dir);
    ExecutedStepEvents(moduleName, steps, req.dir);
    ExecutedAppend(applied, [Recorded(moduleName, req.target)]);
    assert Executed([Recorded(moduleName, req.target)]) == [];
  }

  /** A walk that nothing stops leaves the module at the target and no other module changed. */
  lemma WalkCompletedStore(walk: seq<Entry>, scheme: Scheme, classes: Classes, moduleName: string, req: Request,
                           table: map<string, nat>)
    requires Stored(table, moduleName) == req.current
    requires Walk(walk, scheme, classes, moduleName, req).outcome.Reached?
    ensures var run := Walk(walk, scheme, classes, moduleName, req);
      && Stored(Apply(table, run.events), moduleName) == req.target
      && forall other :: other != moduleName ==> Stored(Apply(table, run.events), other) == Stored(table, other)
  {
    var stop := FaultFrom(walk, 0, scheme, classes, req);
    var steps := Selected(walk[..stop], req);
    var applied := StepEvents(moduleName, steps, req.dir);
    StepEventsStore(table, moduleName, steps, req.dir);
    if After(req.current, steps) != req.target {
      ApplyAppend(table, applied, [Recorded(moduleName, req.target)]);
    }
  }

  /**
   * A walk that a fault stops ran a first part of the entries in range, each
   * step followed by its write, and nothing after.
   */
  lemma WalkFailed(walk: seq<Entry>, scheme: Scheme, classes: Classes, moduleName: string, req: Request)
    requires Walk(walk, scheme, classes, moduleName, req).outcome.Failed?
    ensures var run := Walk(walk, scheme, classes, moduleName, req);
      var steps := Executed(run.events);
      && (run.outcome.error.Gap? || run.outcome.error.ClassMissing? || run.outcome.error.MethodMissing?)
      && (run.outcome.error.Gap? ==> scheme == Sequential)
      && run.events == StepEvents(moduleName, steps, req.dir)
      && steps <= Selected(walk, req)
  {
    var stop := FaultFrom(walk, 0, scheme, classes, req);
    var steps := Selected(walk[..stop], req);
    var run := Walk(walk, scheme, classes, moduleName, req);
    assert stop < |walk|;
    WalkStopsAt(walk, stop, scheme, classes, moduleName, req);
    assert run.events == StepEvents(moduleName, steps, req.dir);
    FaultKinds(walk, stop, scheme, classes, req);
    ExecutedStepEvents(moduleName, steps, req.dir);
    SelectedPrefix(walk, stop, req);
  }

  /** A fault is a gap (only under the sequential scheme), a missing class or a missing method. */
  lemma FaultKinds(walk: seq<Entry>, j: nat, scheme: Scheme, classes: Classes, req: Request)
    requires j < |walk|
    requires Fault(walk, j, scheme, classes, req).Some?
    ensures var e := Fault(walk, j, scheme, classes, req).value;
      && (e.Gap? || e.ClassMissing? || e.MethodMissing?)
      && (e.Gap? ==> scheme == Sequential)
  {
  }

  /** The steps selected from a prefix of the walk are a prefix of the steps selected from all of it. */
  lemma SelectedPrefix(walk: seq<Entry>, k: nat, req: Request)
    requires k <= |walk|
    ensures Selected(walk[..k], req) <= Selected(walk, req)
  {
    SelectedAppend(walk[..k], walk[k..], req);
    assert walk[..k] + walk[k..] == walk;
  }

  /** A walk that a fault stops leaves the module at its last step, or where it was. */
  lemma WalkFailedStore(walk: seq<Entry>, scheme: Scheme, classes: Classes, moduleName: string, req: Request,
                        table: map<string, nat>)
    requires Stored(table, moduleName) == req.current
    requires Walk(walk, scheme, classes, moduleName, req).outcome.Failed?
    ensures var run := Walk(walk, scheme, classes, moduleName, req);
      && Stored(Apply(table, run.events), moduleName) == After(req.current, Executed(run.events))
      && forall other :: other != moduleName ==> Stored(Apply(table, run.events), other) == Stored(table, other)
  {
    var stop := FaultFrom(walk, 0, scheme, classes, req);
    var steps := Selected(walk[..stop], req);
    ExecutedStepEvents(moduleName, steps, req.dir);
    StepEventsStore(table, moduleName, steps, req.dir);
  }

  // ---------------------------------------------------------------------
  // What one call of version() promises

  /**
   * The exits before the walk change nothing: a duplicate number, a positive
   * target with no migration, and an empty catalog with target 0 (which
   * answers TRUE).
   */
  lemma EarlyExits(files: seq<string>, scheme: Scheme, classes: Classes, moduleName: string, current: nat, target: nat)
    ensures FindCatalog(files, scheme).Failure? ==>
      Resolve(files, scheme, classes, moduleName, current, target) == Run([], Failed(FindCatalog(files, scheme).error))
    ensures FindCatalog(files, scheme).Success? && target > 0 && target !in Numbers(FindCatalog(files, scheme).value) ==>
      Resolve(files, scheme, classes, moduleName, current, target) == Run([], Failed(NotFound(target)))
    ensures FindCatalog(files, scheme) == Success([]) && target == 0 ==>
      Resolve(files, scheme, classes, moduleName, current, target) == Run([], NothingToRun)
  {
  }

  /**
   * A call that completes answers the target, and ran exactly the catalog's
   * numbers inside the range, ascending going up and descending going down,
   * each followed at once by the write of its number, then at most one final
   * write of the target.
   */
  lemma CompletedSteps(files: seq<string>, scheme: Scheme, classes: Classes, moduleName: string,
                       current: nat, target: nat, cat: seq<Entry>)
    requires FindCatalog(files, scheme) == Success(cat)
    requires Resolve(files, scheme, classes, moduleName, current, target).outcome.Reached?
    ensures var run := Resolve(files, scheme, classes, moduleName, current, target);
      var req := Request(DirectionOf(current, target), current, target);
      var steps := Executed(run.events);
      && run.outcome == Reached(target)
      && steps == Selected(WalkOrder(cat, req.dir), req)
      && (forall n :: n in steps <==> n in Numbers(cat) && InRange(n, req))
      && Ordered(steps, req.dir)
      && (run.events == StepEvents(moduleName, steps, req.dir)
          || run.events == StepEvents(moduleName, steps, req.dir) + [Recorded(moduleName, target)])
  {
    var req := Request(DirectionOf(current, target), current, target);
    var walk := WalkOrder(cat, req.dir);
    CatalogContents(files, scheme, cat);
    WalkOrderFacts(cat, req.dir);
    WalkCompleted(walk, scheme, classes, moduleName, req);
    SelectedMembers(walk, req);
    SelectedOrdered(walk, req);
  }

  /**
   * After a call that completes, the module's stored version is the target,
   * and no other module's version has changed.
   */
  lemma CompletedStore(files: seq<string>, scheme: Scheme, classes: Classes, moduleName: string,
                       table: map<string, nat>, target: nat)
    requires Resolve(files, scheme, classes, moduleName, Stored(table, moduleName), target).outcome.Reached?
    ensures var run := Resolve(files, scheme, classes, moduleName, Stored(table, moduleName), target);
      && Stored(Apply(table, run.events), moduleName) == target
      && forall other :: other != moduleName ==> Stored(Apply(table, run.events), other) == Stored(table, other)
  {
    var current := Stored(table, moduleName);
    var cat := FindCatalog(files, scheme).value;
    var req := Request(DirectionOf(current, target), current, target);
    WalkCompletedStore(WalkOrder(cat, req.dir), scheme, classes, moduleName, req, table);
  }

  /**
   * A call that fails during the walk (a gap, a missing class or a missing
   * method) ran some first part of the steps in range, each followed by its
   * write, and then stopped without the final write.
   */
  lemma FailedWalkSteps(files: seq<string>, scheme: Scheme, classes: Classes, moduleName: string,
                        current: nat, target: nat, cat: seq<Entry>)
    requires FindCatalog(files, scheme) == Success(cat)
    requires target == 0 || target in Numbers(cat)
    requires Resolve(files, scheme, classes, moduleName, current, target).outcome.Failed?
    ensures var run := Resolve(files, scheme, classes, moduleName, current, target);
      var req := Request(DirectionOf(current, target), current, target);
      var steps := Executed(run.events);
      && (run.outcome.error.Gap? || run.outcome.error.ClassMissing? || run.outcome.error.MethodMissing?)
      && run.events == StepEvents(moduleName, steps, req.dir)
      && steps <= Selected(WalkOrder(cat, req.dir), req)
  {
    var req := Request(DirectionOf(current, target), current, target);
    WalkFailed(WalkOrder(cat, req.dir), scheme, classes, moduleName, req);
  }

  /**
   * After a call that fails during the walk, the module keeps the number of
   * the last step that ran, or its old version when none ran; no rollback,
   * and no other module changes.
   */
  lemma FailedWalkStore(files: seq<string>, scheme: Scheme, classes: Classes, moduleName: string,
                        table: map<string, nat>, target: nat)
    requires FindCatalog(files, scheme).Success?
    requires target == 0 || target in Numbers(FindCatalog(files, scheme).value)
    requires Resolve(files, scheme, classes, moduleName, Stored(table, moduleName), target).outcome.Failed?
    ensures var run := Resolve(files, scheme, classes, moduleName, Stored(table, moduleName), target);
      && Stored(Apply(table, run.events), moduleName) == After(Stored(table, moduleName), Executed(run.events))
      && forall other :: other != moduleName ==> Stored(Apply(table, run.events), other) == Stored(table, other)
  {
    var current := Stored(table, moduleName);
    var cat := FindCatalog(files, scheme).value;
    var req := Request(DirectionOf(current, target), current, target);
    WalkFailedStore(WalkOrder(cat, req.dir), scheme, classes, moduleName, req, table);
  }

  /** A call whose target is the stored version runs no step and writes nothing. */
  lemma AtTargetNoOp(files: seq<string>, scheme: Scheme, classes: Classes, moduleName: string, current: nat)
    ensures var run := Resolve(files, scheme, classes, moduleName, current, current);
      && run.events == []
      && (run.outcome.Reached? ==> run.outcome.version == current)
  {
    var req := Request(DirectionOf(current, current), current, current);
    if FindCatalog(files, scheme).Success? {
      var cat := FindCatalog(files, scheme).value;
      var walk := WalkOrder(cat, req.dir);
      var stop := FaultFrom(walk, 0, scheme, classes, req);
      SelectedEmpty(walk[..stop], req);
    }
  }

  /**
   * Going up from `lo` to `hi` and then down from `hi` to `lo`, both to
   * completion: the down steps are the up steps in reverse, so each
   * migration's `down` runs once, in strictly descending order.
   */
  lemma UpThenDown(files: seq<string>, scheme: Scheme, classes: Classes, moduleName: string, lo: nat, hi: nat)
    requires lo < hi
    requires Resolve(files, scheme, classes, moduleName, lo, hi).outcome.Reached?
    requires Resolve(files, scheme, classes, moduleName, hi, lo).outcome.Reached?
    ensures Executed(Resolve(files, scheme, classes, moduleName, hi, lo).events)
         == Reverse(Executed(Resolve(files, scheme, classes, moduleName, lo, hi).events))
  {
    var cat := FindCatalog(files, scheme).value;
    WalkCompleted(cat, scheme, classes, moduleName, Request(Up, lo, hi));
    WalkCompleted(Reverse(cat), scheme, classes, moduleName, Request(Down, hi, lo));
    DownRetracesUp(cat, lo, hi);
  }

  /** The timestamp scheme never reports a sequence gap. */
  lemma TimestampNeverGaps(files: seq<string>, classes: Classes, moduleName: string, current: nat, target: nat)
    ensures var run := Resolve(files, Timestamp, classes, moduleName, current, target);
      !(run.outcome.Failed? && run.outcome.error.Gap?)
  {
    var run := Resolve(files, Timestamp, classes, moduleName, current, target);
    CatalogRejectsDuplicates(files, Timestamp);
    if FindCatalog(files, Timestamp).Success? && run.outcome.Failed? {
      var cat := FindCatalog(files, Timestamp).value;
      var req := Request(DirectionOf(current, target), current, target);
      if !(target > 0 && target !in Numbers(cat)) && cat != [] {
        assert run == Walk(WalkOrder(cat, req.dir), Timestamp, classes, moduleName, req);
        WalkFailed(WalkOrder(cat, req.dir), Timestamp, classes, moduleName, req);
      }
    }
  }

  /**
   * `latest()` aims at the number of the catalog's last file, which is the
   * highest number in the catalog.
   */
  lemma LatestTargetsHighest(files: seq<string>, scheme: Scheme, cat: seq<Entry>)
    requires FindCatalog(files, scheme) == Success(cat) && cat != []
    ensures var last := cat[|cat| - 1];
      && last.number in Numbers(cat)
      && (forall n :: n in Numbers(cat) ==> n <= last.number)
      && Number(last.file) == last.number
  {
    CatalogContents(files, scheme, cat);
    LastIsHighest(cat);
  }

  /** The last entry of a sorted catalog carries its highest number. */
  lemma LastIsHighest(cat: seq<Entry>)
    requires Ascending(cat) && cat != []
    ensures cat[|cat| - 1] in cat
    ensures forall n :: n in Numbers(cat) ==> n <= cat[|cat| - 1].number
  {
    forall n | n in Numbers(cat) ensures n <= cat[|cat| - 1].number {
      var e :| e in cat && e.number == n;
      var k :| 0 <= k < |cat| && cat[k] == e;
    }
  }

  /**
   * `latest()` on an empty catalog answers "none found", and on a duplicate
   * number answers that error; in both cases it runs and writes nothing.
   */
  lemma LatestEarlyExits(files: seq<string>, scheme: Scheme, classes: Classes, moduleName: string, current: nat)
    ensures FindCatalog(files, scheme) == Success([]) ==>
      ResolveLatest(files, scheme, classes, moduleName, current) == Run([], Failed(NoneFound))
    ensures FindCatalog(files, scheme).Failure? ==>
      ResolveLatest(files, scheme, classes, moduleName, current) == Run([], Failed(FindCatalog(files, scheme).error))
  {
  }

  /**
   * After a `latest()` that completes, the module's stored version is the
   * highest number in the catalog.
   */
  lemma LatestStoresHighest(files: seq<string>, scheme: Scheme, classes: Classes, moduleName: string,
                            table: map<string, nat>)
    requires ResolveLatest(files, scheme, classes, moduleName, Stored(table, moduleName)).outcome.Reached?
    ensures var run := ResolveLatest(files, scheme, classes, moduleName, Stored(table, moduleName));
      && FindCatalog(files, scheme).Success?
      && Stored(Apply(table, run.events), moduleName) in Numbers(FindCatalog(files, scheme).value)
      && forall n :: n in Numbers(FindCatalog(files, scheme).value) ==> n <= Stored(Apply(table, run.events), moduleName)
  {
    var cat := FindCatalog(files, scheme).value;
    LatestTargetsHighest(files, scheme, cat);
    CompletedStore(files, scheme, classes, moduleName, table, Number(cat[|cat| - 1].file));
  }

  /**
   * A gap is found during the walk, not before it: with migrations 1, 2 and 4
   * going up from 0 to 4, steps 1 and 2 run and are recorded before the gap
   * at 4 stops the call.
   */
  lemma GapAfterSteps(f1: string, f2: string, f4: string, classes: Classes, moduleName: string)
    requires forall f :: f in [f1, f2, f4] ==> ClassName(f) in classes.declared && ClassName(f) in classes.withUp
    ensures Walk([Entry(1, f1), Entry(2, f2), Entry(4, f4)], Sequential, classes, moduleName, Request(Up, 0, 4))
         == Run(StepEvents(moduleName, [1, 2], Up), Failed(Gap(4)))
  {
    var walk, req := [Entry(1, f1), Entry(2, f2), Entry(4, f4)], Request(Up, 0, 4);
    assert f1 in [f1, f2, f4] && f2 in [f1, f2, f4];
    assert Fault(walk, 0, Sequential, classes, req).None?;
    assert Fault(walk, 1, Sequential, classes, req).None?;
    assert Fault(walk, 2, Sequential, classes, req) == Some(Gap(4));
    WalkStopsAt(walk, 2, Sequential, classes, moduleName, req);
    var head := [Entry(1, f1), Entry(2, f2)];
    assert walk[..2] == head;
    SelectedAppend([Entry(1, f1)], [Entry(2, f2)], req);
    assert head == [Entry(1, f1)] + [Entry(2, f2)];
    assert Selected(head, req) == [1, 2];
  }
}
