/**
 * The `migrations` table: one version per module, read with `_get_version`
 * and written with the upsert `_update_version` (MY_Migration.php, lines
 * 375-398).
 */
module VersionStore {
  import opened MigrationTypes

  /**
   * `! $module AND $module = $this->_current_module`: a falsy module name ("" or
   * "0" in PHP) stands for the module the library is working on.
   */
  function ModuleOf(requested: string, current: string): (m: string)
    ensures requested != "" && requested != "0" ==> m == requested
    ensures requested == "" || requested == "0" ==> m == current
  {
    if requested == "" || requested == "0" then current else requested
  }

  /** `_get_version`: the version in the module's row, 0 when it has none. */
  function Stored(table: map<string, nat>, moduleName: string): (v: nat)
    ensures moduleName !in table ==> v == 0
    ensures moduleName in table ==> v == table[moduleName]
  {
    if moduleName in table then table[moduleName] else 0
  }

  /**
   * `_update_version`: update the module's row when there is one, insert one
   * otherwise. A following read gives the written version, and every other
   * module reads as before.
   */
  function Upsert(table: map<string, nat>, moduleName: string, version: nat): (t: map<string, nat>)
    ensures t.Keys == table.Keys + {moduleName}
    ensures Stored(t, moduleName) == version
    ensures forall other :: other != moduleName ==> Stored(t, other) == Stored(table, other)
  {
    // On a map the UPDATE of an existing row and the INSERT of a new one are
    // the same assignment.
    table[moduleName := version]
  }

  /** The table after replaying the writes in `events`, oldest first. */
  function Apply(table: map<string, nat>, events: seq<Event>): map<string, nat>
    decreases |events|
  {
    if events == [] then table
    else
      var t := match events[0]
        case Recorded(m, v) => Upsert(table, m, v)
        case Ran(_, _) => table;
      Apply(t, events[1..])
  }

  lemma {:induction false} ApplyAppend(table: map<string, nat>, a: seq<Event>, b: seq<Event>)
    ensures Apply(table, a + b) == Apply(Apply(table, a), b)
    decreases |a|
  {
    if a != [] {
      var t := match a[0] case Recorded(m, v) => Upsert(table, m, v) case Ran(_, _) => table;
      assert (a + b)[0] == a[0] && (a + b)[1..] == a[1..] + b;
      ApplyAppend(t, a[1..], b);
    } else {
      assert a + b == b;
    }
  }

  /** Writes only ever touch the modules they name. */
  lemma {:induction false} ApplyKeepsOthers(table: map<string, nat>, events: seq<Event>, other: string)
    requires forall k :: 0 <= k < |events| && events[k].Recorded? ==> events[k].moduleName != other
    ensures Stored(Apply(table, events), other) == Stored(table, other)
    decreases |events|
  {
    if events != [] {
      var t := match events[0] case Recorded(m, v) => Upsert(table, m, v) case Ran(_, _) => table;
      assert forall k :: 0 <= k < |events| - 1 ==> events[1..][k] == events[k + 1];
      ApplyKeepsOthers(t, events[1..], other);
    }
  }

  /** After a replay, a module reads as the last version written for it. */
  lemma {:induction false} ApplyLastWrite(table: map<string, nat>, events: seq<Event>, moduleName: string, version: nat)
    requires events != [] && events[|events| - 1] == Recorded(moduleName, version)
    ensures Stored(Apply(table, events), moduleName) == version
  {
    var n := |events| - 1;
    assert events == events[..n] + [events[n]];
    ApplyAppend(table, events[..n], [events[n]]);
  }
}
