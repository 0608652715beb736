/**
 * The migration library as an object: its configuration, the `migrations`
 * table it reads and writes, and the record of the migration steps it calls
 * (MY_Migration.php, lines 180-298 and 315-398). Each method runs the
 * source's loop or check step by step and is proved to agree with the
 * specification functions of `Catalog`, `VersionStore` and `Resolution`.
 */
module Migration {
  import opened Wrappers
  import opened MigrationTypes
  import opened Naming
  import opened Catalog
  import opened VersionStore
  import opened Resolution

  class Migrator {
    /** The module whose migrations the library works on (`_current_module`). */
    const moduleName: string
    /** The `migration_type` setting. */
    const scheme: Scheme
    /** The basenames, without `.php`, that the directory listing returns, in listing order. */
    const files: seq<string>
    /** The classes that including the migration files declares. */
    const classes: Classes
    /** The `migration_version` setting that `current()` aims at. */
    const configured: nat
    /** The `migrations` table: one version per module. */
    var versions: map<string, nat>
    /** Each `up`/`down` call and each version write, oldest first. */
    var trace: seq<Event>

    constructor(moduleName: string, scheme: Scheme, files: seq<string>, classes: Classes, configured: nat,
                versions: map<string, nat>)
      ensures this.moduleName == moduleName && this.scheme == scheme && this.files == files
      ensures this.classes == classes && this.configured == configured
      ensures this.versions == versions && trace == []
    {
      this.moduleName := moduleName;
      this.scheme := scheme;
      this.files := files;
      this.classes := classes;
      this.configured := configured;
      this.versions := versions;
      trace := [];
    }

    /** `_get_version`: the stored version of a module, 0 when it has no row. */
    method GetVersion(requested: string) returns (v: nat)
      ensures v == Stored(versions, ModuleOf(requested, moduleName))
    {
      var m := ModuleOf(requested, moduleName);
      if m in versions {
        v := versions[m];
      } else {
        v := 0;
      }
    }

    /** `_update_version`: update the module's row, or insert it when there is none. */
    method UpdateVersion(version: nat, requested: string)
      modifies this`versions, this`trace
      ensures var m := ModuleOf(requested, moduleName);
        && versions == Upsert(old(versions), m, version)
        && trace == old(trace) + [Recorded(m, version)]
    {
      var m := ModuleOf(requested, moduleName);
      versions := versions[m := version];
      trace := trace + [Recorded(m, version)];
    }

    /**
     * `find_migrations`: keep the names the scheme's regex accepts, keyed by
     * their number, stop at a repeated number, and sort by number.
     */
    method FindMigrations() returns (r: Result<seq<Entry>, Error>)
      ensures r == FindCatalog(files, scheme)
      ensures r.Success? ==> Ascending(r.value)
    {
      var migrations: map<nat, string> := map[];
      var i := 0;
      while i < |files|
        invariant 0 <= i <= |files|
        invariant Scan(Examined(files[..i], scheme)) == Success(migrations)
      {
        var name := files[i];
        ScanNext(files, i, scheme);
        if Matches(name, scheme) {
          var number := Number(name);
          if number in migrations {
            ScanStopsAt(files, i, scheme);
            return Failure(Duplicate(number));
          }
          migrations := migrations[number := name];
        }
        i := i + 1;
      }
      assert files[..i] == files;
      return Success(KSort(migrations));
    }

    /**
     * `version($target)`: run every migration between the stored version and
     * the target, writing the version after each, and answer the target, or
     * stop at the first error.
     */
    method Version(target: nat) returns (out: Outcome)
      modifies this`versions, this`trace
      ensures var run := Resolve(files, scheme, classes, moduleName, Stored(old(versions), moduleName), target);
        && out == run.outcome
        && trace == old(trace) + run.events
        && versions == Apply(old(versions), run.events)
    {
      var current := GetVersion("");
      var found := FindMigrations();
      if found.Failure? {
        return Failed(found.error);
      }
      var migrations := found.value;
      ghost var cat := migrations;
      if target > 0 && target !in Numbers(migrations) {
        return Failed(NotFound(target));
      }
      var dir: Direction;
      if target > current {
        dir := Up;
      } else {
        dir := Down;
        migrations := Reverse(migrations);
      }
      if migrations == [] {
        assert cat == [];
        return NothingToRun;
      }
      CatalogContents(files, scheme, cat);
      WalkOrderFacts(cat, dir);
      ResolveIsWalk(files, scheme, classes, moduleName, current, target, cat);
      out := RunMigrations(migrations, dir, current, target);
    }

    /**
     * The loop of `version()` over the catalog in visiting order: check for
     * a gap and for the class, and run and record each migration inside the
     * range; when the loop finishes, write the target unless the version is
     * already there.
     */
    method RunMigrations(migrations: seq<Entry>, dir: Direction, start: nat, target: nat) returns (out: Outcome)
      requires Monotone(migrations, dir)
      modifies this`versions, this`trace
      ensures var run := Walk(migrations, scheme, classes, moduleName, Request(dir, start, target));
        && out == run.outcome
        && trace == old(trace) + run.events
        && versions == Apply(old(versions), run.events)
    {
      ghost var req := Request(dir, start, target);
      ghost var steps: seq<nat> := [];
      var current := start;
      var previous: Option<nat> := None;
      var i := 0;
      while i < |migrations|
        invariant 0 <= i <= |migrations|
        invariant forall j :: 0 <= j < i ==> Fault(migrations, j, scheme, classes, req).None?
        invariant i == 0 ==> previous == None
        invariant i > 0 ==> previous == Some(migrations[i - 1].number)
        invariant steps == Selected(migrations[..i], req)
        invariant current == After(start, steps)
        invariant trace == old(trace) + StepEvents(moduleName, steps, dir)
        invariant versions == Apply(old(versions), StepEvents(moduleName, steps, dir))
      {
        var fault, next := Visit(migrations, i, dir, start, target, current, previous, old(trace), old(versions));
        if fault.Some? {
          WalkStopsAt(migrations, i, scheme, classes, moduleName, req);
          return Failed(fault.value);
        }
        ClearStep(migrations, i, scheme, classes, req);
        previous := Some(migrations[i].number);
        current := next;
        steps := Selected(migrations[..i + 1], req);
        i := i + 1;
      }
      assert migrations[..i] == migrations;
      WalkThrough(migrations, scheme, classes, moduleName, req);
      out := Finish(current, target, StepEvents(moduleName, steps, dir), old(trace), old(versions));
    }

    /**
     * One turn of the loop at position `i`: the gap, class and method checks,
     * then, for a number inside the range, the step and its version write.
     */
    method Visit(migrations: seq<Entry>, i: nat, dir: Direction, ghost start: nat, target: nat, current: nat,
                 previous: Option<nat>, ghost log: seq<Event>, ghost table: map<string, nat>)
      returns (fault: Option<Error>, next: nat)
      requires i < |migrations| && Monotone(migrations, dir)
      requires previous == if i == 0 then None else Some(migrations[i - 1].number)
      requires current == After(start, Selected(migrations[..i], Request(dir, start, target)))
      requires trace == log + StepEvents(moduleName, Selected(migrations[..i], Request(dir, start, target)), dir)
      requires versions == Apply(table, StepEvents(moduleName, Selected(migrations[..i], Request(dir, start, target)), dir))
      modifies this`versions, this`trace
      ensures fault == Fault(migrations, i, scheme, classes, Request(dir, start, target))
      ensures fault.Some? ==> trace == old(trace) && versions == old(versions)
      ensures fault.None? ==>
        var steps := Selected(migrations[..i + 1], Request(dir, start, target));
        && next == After(start, steps)
        && trace == log + StepEvents(moduleName, steps, dir)
        && versions == Apply(table, StepEvents(moduleName, steps, dir))
    {
      ghost var req := Request(dir, start, target);
      ghost var steps := Selected(migrations[..i], req);
      fault := CheckEntry(migrations, i, previous, current, dir, start, target);
      if fault.Some? {
        return fault, current;
      }
      var number := migrations[i].number;
      NextStep(migrations, i, req, steps, current);
      next := current;
      if (dir == Up && number > current && number <= target) || (dir == Down && number <= current && number > target) {
        RunStep(number, dir, steps, log, table);
        next := number;
      }
    }

    /**
     * The end of a walk that nothing stopped: write the target unless the
     * last step already left the version there, and answer the target.
     */
    method Finish(current: nat, target: nat, ghost applied: seq<Event>, ghost log: seq<Event>, ghost table: map<string, nat>)
      returns (out: Outcome)
      requires trace == log + applied && versions == Apply(table, applied)
      modifies this`versions, this`trace
      ensures out == Reached(target)
      ensures current == target ==> trace == log + applied && versions == Apply(table, applied)
      ensures current != target ==>
        var events := applied + [Recorded(moduleName, target)];
        trace == log + events && versions == Apply(table, events)
    {
      var version := current;
      if version != target {
        ApplyAppend(table, applied, [Recorded(moduleName, target)]);
        assert Apply(Upsert(versions, moduleName, target), []) == Upsert(versions, moduleName, target);
        version := target;
        UpdateVersion(version, "");
      }
      return Reached(version);
    }

    /**
     * The checks of `version()` on one entry of the walk, in the source's
     * order: a jump of more than one from the previous number (sequential
     * scheme only), a class the file does not declare, and, for an entry
     * inside the range, a class without the method of the direction. The
     * range test uses the running version, as the source does.
     */
    method CheckEntry(migrations: seq<Entry>, i: nat, previous: Option<nat>, current: nat, dir: Direction,
                      ghost start: nat, target: nat) returns (fault: Option<Error>)
      requires i < |migrations| && Monotone(migrations, dir)
      requires previous == if i == 0 then None else Some(migrations[i - 1].number)
      requires current == After(start, Selected(migrations[..i], Request(dir, start, target)))
      ensures fault == Fault(migrations, i, scheme, classes, Request(dir, start, target))
    {
      var number := migrations[i].number;
      if scheme == Sequential && previous.Some? && Distance(number, previous.value) > 1 {
        return Some(Gap(number));
      }
      var className := ClassName(migrations[i].file);
      if className !in classes.declared {
        return Some(ClassMissing(className));
      }
      RangeUnchanged(migrations, i, Request(dir, start, target));
      if (dir == Up && number > current && number <= target) || (dir == Down && number <= current && number > target) {
        if !Callable(classes, className, dir) {
          return Some(MethodMissing(className, dir));
        }
      }
      return None;
    }

    /**
     * One step of the walk: call the migration's method of the direction,
     * then at once write its number as the module's version.
     */
    method RunStep(number: nat, dir: Direction, ghost steps: seq<nat>, ghost log: seq<Event>, ghost table: map<string, nat>)
      requires trace == log + StepEvents(moduleName, steps, dir)
      requires versions == Apply(table, StepEvents(moduleName, steps, dir))
      modifies this`versions, this`trace
      ensures trace == log + StepEvents(moduleName, steps + [number], dir)
      ensures versions == Apply(table, StepEvents(moduleName, steps + [number], dir))
    {
      RecordStep(table, moduleName, steps, number, dir);
      trace := trace + [Ran(number, dir)];
      UpdateVersion(number, "");
      assert log + StepEvents(moduleName, steps, dir) + [Ran(number, dir)] + [Recorded(moduleName, number)]
          == log + (StepEvents(moduleName, steps, dir) + [Ran(number, dir)] + [Recorded(moduleName, number)]);
    }

    /**
     * `latest()`: "none found" on an empty catalog, otherwise `version()` for
     * the number of the last migration file.
     */
    method Latest() returns (out: Outcome)
      modifies this`versions, this`trace
      ensures var run := ResolveLatest(files, scheme, classes, moduleName, Stored(old(versions), moduleName));
        && out == run.outcome
        && trace == old(trace) + run.events
        && versions == Apply(old(versions), run.events)
    {
      var found := FindMigrations();
      if found.Failure? {
        return Failed(found.error);
      }
      var migrations := found.value;
      if migrations == [] {
        return Failed(NoneFound);
      }
      var last := migrations[|migrations| - 1].file;
      LatestIsVersion(files, scheme, classes, moduleName, Stored(versions, moduleName), migrations);
      out := Version(Number(last));
    }

    /** `current()`: `version()` for the configured version. */
    method Current() returns (out: Outcome)
      modifies this`versions, this`trace
      ensures var run := Resolve(files, scheme, classes, moduleName, Stored(old(versions), moduleName), configured);
        && out == run.outcome
        && trace == old(trace) + run.events
        && versions == Apply(old(versions), run.events)
    {
      out := Version(configured);
    }
  }

  /**
   * One more entry of the walk: the range test against the running version
   * agrees with the test against the starting version, and the entry adds
   * its number to the selection exactly when it is in range.
   */
  lemma NextStep(walk: seq<Entry>, i: nat, req: Request, steps: seq<nat>, current: nat)
    requires i < |walk| && Monotone(walk, req.dir)
    requires steps == Selected(walk[..i], req) && current == After(req.current, steps)
    ensures InRange(walk[i].number, Request(req.dir, current, req.target)) == InRange(walk[i].number, req)
    ensures Selected(walk[..i + 1], req) == if InRange(walk[i].number, req) then steps + [walk[i].number] else steps
  {
    RangeUnchanged(walk, i, req);
    assert walk[..i + 1] == walk[..i] + [walk[i]];
    SelectedAppend(walk[..i], [walk[i]], req);
    assert steps + [] == steps;
  }

  /** Running and recording one more step appends its two events and writes its number. */
  lemma RecordStep(table: map<string, nat>, moduleName: string, before: seq<nat>, number: nat, dir: Direction)
    ensures StepEvents(moduleName, before + [number], dir)
         == StepEvents(moduleName, before, dir) + [Ran(number, dir)] + [Recorded(moduleName, number)]
    ensures Apply(table, StepEvents(moduleName, before + [number], dir))
         == Upsert(Apply(table, StepEvents(moduleName, before, dir)), moduleName, number)
  {
    var step := [Ran(number, dir), Recorded(moduleName, number)];
    StepEventsAppend(moduleName, before, [number], dir);
    assert StepEvents(moduleName, [number], dir) == step;
    ApplyAppend(table, StepEvents(moduleName, before, dir), step);
    var t := Apply(table, StepEvents(moduleName, before, dir));
    assert Apply(t, step) == Apply(t, step[1..]);
    assert Apply(t, step[1..]) == Apply(Upsert(t, moduleName, number), []);
  }

  /** Past its own exits, `latest()` is `version()` aimed at the last file's number. */
  lemma LatestIsVersion(files: seq<string>, scheme: Scheme, classes: Classes, moduleName: string,
                        current: nat, cat: seq<Entry>)
    requires FindCatalog(files, scheme) == Success(cat) && cat != []
    ensures ResolveLatest(files, scheme, classes, moduleName, current)
         == Resolve(files, scheme, classes, moduleName, current, Number(cat[|cat| - 1].file))
  {
  }
}
