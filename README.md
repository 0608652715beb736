# MY_Migration: a verified model of the HMVC migration engine

`MY_Migration` is the CodeIgniter HMVC migration library. For the module it
works on, it finds the migration files, then walks from the version stored in
the `migrations` table to a requested version. It calls each migration's `up`
or `down` along the way and writes the reached version back after every step.
This project models that engine in Dafny and proves what it does.

The model has three parts.

- **Catalog** (`Naming`, `Catalog`).
  - The numbering scheme picks the basename regex: `^\d{3}_(\w+)$` (sequential) or `^\d{14}_(\w+)$` (timestamp).
  - PCRE's `$` also accepts a name that ends in a single newline, so the model accepts one too.
  - `_get_migration_number` returns the leading digit run, or `"0"` when there is none.
  - `_get_migration_name` returns the text after the first underscore.
  - `find_migrations` keeps the accepted names, keyed by number, and stops at a repeated number with the "multiple version" error.
  - It then sorts the catalog by number.
  - A file's version is the numeric value of its number string. On catalog names, equal values mean equal strings (`Naming.SameNumberSameDigits`), so keying by value loses nothing.
- **Version store** (`VersionStore`).
  - The `migrations` table is a map from module name to version.
  - `_get_version` reads 0 for a module with no row.
  - `_update_version` updates the row, or inserts one when there is none.
  - A falsy module name (`""` or `"0"`) stands for the current module.
- **Version walk** (`Resolution`, `Migration`).
  - `Resolution.Resolve` states what one call of `version($target)` does, as a value:
    - the events it leaves behind: each `up`/`down` call and each version write, in order;
    - its answer: the version reached, TRUE for an empty catalog, or FALSE with an error.
  - `Resolution.ResolveLatest` does the same for `latest()`.
  - The class `Migration.Migrator` holds the configuration, the table (`versions`) and the event record (`trace`).
  - Its methods run the source's loops step by step. They are proved to leave exactly the events and the table that the functions describe.
  - The lemmas of `Resolution` then state, in the source's terms, what every call does. See the table below.

Outside the library, three things are given as plain values:

- the directory listing: the basenames, without `.php`, in listing order;
- the classes the included files declare, with those whose `up` or `down` is callable;
- the `migrations` table.

## Model

| member | source | states |
|---|---|---|
| Naming.MigrationNumber | MY_Migration.php:349-353 | the result is a non-empty string of digits: the name's leading digit run (a prefix of the name that stops at a non-digit or at the end), or "0" when the name does not start with a digit |
| Naming.MigrationName | MY_Migration.php:363-368 | "" when the name has no underscore, otherwise exactly the text after its first underscore |
| Naming.Matches | MY_Migration.php:64-67 | the definition of the scheme's basename regex, `^\d{3}_(\w+)$` or `^\d{14}_(\w+)$`, with PCRE's `$` also accepting one final newline; its consequences are `Naming.MatchShape`, `Naming.SequentialAccepts`, `Naming.SequentialRejects` and `Naming.TimestampExamples` |
| Naming.SequentialAccepts | MY_Migration.php:67 | the sequential regex accepts `001_create_users`, and also that name followed by one newline |
| Naming.SequentialRejects | MY_Migration.php:67 | the sequential regex rejects two final newlines, two or four digits, an empty `\w+` tail, and a `-` in the tail |
| Naming.TimestampExamples | MY_Migration.php:65-66 | the timestamp regex accepts a fourteen-digit name and rejects a three-digit one |
| Naming.MatchShape | MY_Migration.php:64-67 | every name the scheme's regex accepts starts with exactly 3 (sequential) or 14 (timestamp) digits followed by an underscore |
| Naming.NumberOfMatch | MY_Migration.php:349-353 | on a name the regex accepts, the number helper returns exactly its 3- or 14-digit prefix |
| Naming.NameOfMatch | MY_Migration.php:363-368 | on a name the regex accepts, the name helper returns everything after the `\d{w}_` prefix |
| Naming.SplitRoundTrip | MY_Migration.php:349-368 | on a name the regex accepts, the number has the scheme's width, and number + "_" + name rebuilds the basename |
| Naming.NumberReadsDigits | MY_Migration.php:351-352 | the version of a file is the decimal value of the string the number helper returns |
| Naming.Number | MY_Migration.php:326 | the definition of a file's version: the value of its leading digit run; `Naming.NumberReadsDigits` ties it to the string the number helper returns |
| Naming.ClassName | MY_Migration.php:224 | the definition of the class a file must declare, `'Migration_'.ucfirst(strtolower(name part))` |
| Naming.ClassNameOfMatch | MY_Migration.php:224 | for an accepted file, the class text is `Migration_` followed by the basename's part after the `\d{w}_` prefix, lower-cased, with its first letter upper-cased |
| Naming.SameNumberSameDigits | MY_Migration.php:326-329 | two accepted names have the same numeric version exactly when their number strings are equal |
| Catalog.Examined | MY_Migration.php:320-326 | one candidate per listed name, in listing order: the `i`-th records whether the regex accepts the `i`-th name and that name's number |
| Catalog.Add | MY_Migration.php:324-335 | the definition of one turn of the loop: a rejected name is skipped, a number already present fails with Duplicate, any other name is stored under its number |
| Catalog.Scan | MY_Migration.php:320-337 | the definition of the loop of `find_migrations` over the listing; its meaning is stated by `Catalog.ScanContents` and `Catalog.ScanSucceedsIffDistinct` |
| Catalog.FindCatalog | MY_Migration.php:315-341 | the definition of `find_migrations`: the scan, then `ksort`; its meaning is stated by `Catalog.CatalogContents` and `Catalog.CatalogRejectsDuplicates` |
| Catalog.KSort | MY_Migration.php:339 | the result is strictly ascending by number and holds exactly the map's entries |
| Catalog.ScanContents | MY_Migration.php:320-337 | a scan that succeeds keys every accepted name by its number and holds nothing else |
| Catalog.ScanSucceedsIffDistinct | MY_Migration.php:328-333 | the scan succeeds exactly when no two accepted names share a number; when it fails, the "multiple version" error names the number of the first duplicate in listing order: the first accepted name whose number an earlier accepted name already has |
| Catalog.ScanFailureSticks | MY_Migration.php:329-333 | once the scan has stopped at a duplicate, the names that follow change nothing |
| Catalog.ScanSkips | MY_Migration.php:323-325 | a name the regex rejects, wherever it stands, leaves the scan unchanged |
| Catalog.CatalogContents | MY_Migration.php:315-341 | a returned catalog is sorted ascending, and an entry is in it exactly when its file is in the listing, the regex accepts the file, and the entry's number is the file's number |
| Catalog.CatalogRejectsDuplicates | MY_Migration.php:328-333 | `find_migrations` fails exactly when two accepted names share a number, and its error is Duplicate of the number of the first duplicate in listing order: the first accepted name whose number an earlier accepted name already has |
| Catalog.NonMatchingIgnored | MY_Migration.php:320-326 | adding a name the regex rejects anywhere in the listing gives the same result: skipped silently, not an error |
| VersionStore.ModuleOf | MY_Migration.php:377 | a module name of "" or "0" stands for the current module; any other name stands for itself |
| VersionStore.Stored | MY_Migration.php:375-380 | a module without a row reads 0, and one with a row reads its version |
| VersionStore.Upsert | MY_Migration.php:389-398 | after the write, the table has the module's row, a read of the module gives the written version, and every other module reads as before |
| VersionStore.ApplyLastWrite | MY_Migration.php:389-398 | after a sequence of writes, a module reads as the last version written for it |
| VersionStore.ApplyKeepsOthers | MY_Migration.php:389-398 | writes for other modules leave a module's version unchanged |
| Resolution.DirectionOf | MY_Migration.php:198-205 | the walk goes up exactly when the target is above the current version, and down otherwise, equality included |
| Resolution.WalkOrderFacts | MY_Migration.php:198-205 | the visiting order (the catalog going up, `krsort` of it going down) has the catalog's numbers, strictly increasing going up and strictly decreasing going down |
| Resolution.Fault | MY_Migration.php:217-246 | the definition of why the walk stops at an entry: a jump of more than one from the previous number under the sequential scheme, a class the file does not declare, or, for an entry in range, a class without the direction's method; `Resolution.FaultKinds` states its cases |
| Resolution.Walk | MY_Migration.php:211-265 | the definition of the walk: stop at the first fault after the steps in range before it, otherwise run them all and write the target unless the last step reached it; stated by `Resolution.WalkCompleted` and `Resolution.WalkFailed` |
| Resolution.Resolve | MY_Migration.php:180-266 | the definition of one `version($target)` call: the catalog, the not-found check, the empty-catalog answer, the direction and the walk; stated by the lemmas below and implemented by `Migration.Migrator.Version` |
| Resolution.ResolveLatest | MY_Migration.php:273-288 | the definition of `latest()`: "none found" on an empty catalog, otherwise `version()` for the last file's number; stated by `Resolution.LatestEarlyExits` and `Resolution.LatestStoresHighest` |
| Resolution.FaultFrom | MY_Migration.php:214-253 | the walk stops at the first entry with a fault and nowhere earlier |
| Resolution.SelectedMembers | MY_Migration.php:236-239 | a number is run exactly when a catalog entry carries it and it lies in the range (current, target] going up or (target, current] going down |
| Resolution.SelectedOrdered | MY_Migration.php:214-239 | the numbers run keep the visiting order: strictly ascending up, strictly descending down |
| Resolution.RangeUnchanged | MY_Migration.php:236-251 | the range test with the running `$current_version`, which each step moves to its own number, agrees with the test against the version the call started from |
| Resolution.StepEventsShape | MY_Migration.php:249-251 | each step's call is followed at once by the write of its number as the module's version |
| Resolution.StepEventsStore | MY_Migration.php:249-251 | after the steps' events, the module reads as the last step's number (or its old version when no step ran) and no other module changes |
| Resolution.DownRetracesUp | MY_Migration.php:236-239 | going down from hi to lo over the reversed catalog selects the numbers that going up from lo to hi selects, in reverse |
| Resolution.ResolveIsWalk | MY_Migration.php:191-214 | past the early exits, `version()` is the walk over the catalog in the visiting order |
| Resolution.WalkStopsAt | MY_Migration.php:214-253 | a walk whose first fault is at entry i answers that fault, after running and recording the steps in range before i |
| Resolution.WalkThrough | MY_Migration.php:214-261 | a walk with no fault runs every step in range and answers the target, with the final write only when the last step did not already reach the target |
| Resolution.WalkCompleted | MY_Migration.php:214-265 | a walk that completes answered the target, ran exactly the steps in range, each followed by its write, then at most one write of the target |
| Resolution.WalkCompletedStore | MY_Migration.php:249-261 | after a walk that completes, the module is stored at the target and no other module changed |
| Resolution.WalkFailed | MY_Migration.php:214-252 | a walk that stops answers a gap (sequential scheme only), a missing class or a missing method, after running a first part of the steps in range, each with its write, and nothing more |
| Resolution.FaultKinds | MY_Migration.php:217-246 | every fault is a gap, a missing class or a missing method, and a gap occurs only under the sequential scheme |
| Resolution.WalkFailedStore | MY_Migration.php:217-251 | after a walk that stops, the module keeps the number of the last step run, or its old version when none ran, and no other module changed |
| Resolution.EarlyExits | MY_Migration.php:191-209 | a duplicate number, a positive target that is not in the catalog, and an empty catalog with target 0 each run no step and write nothing; they answer Duplicate, NotFound and TRUE respectively |
| Resolution.CompletedSteps | MY_Migration.php:198-265 | a `version()` call that completes answers the target, and ran exactly the catalog numbers in range, ascending going up and descending going down, each followed by its write, then at most one final write of the target |
| Resolution.CompletedStore | MY_Migration.php:255-261 | after a `version()` call that completes, the module's stored version is the target and no other module's version changed |
| Resolution.FailedWalkSteps | MY_Migration.php:217-246 | a `version()` call that fails during the walk answers a gap, a missing class or a missing method; it ran a first part of the steps in range, each with its write, and skipped the final write |
| Resolution.FailedWalkStore | MY_Migration.php:217-251 | after a `version()` call that fails during the walk, the module keeps the last step's number, or its old version; there is no rollback, and no other module changed |
| Resolution.AtTargetNoOp | MY_Migration.php:236-261 | a call whose target is the stored version runs no step and writes nothing, and when it answers a version, that version is the target |
| Resolution.UpThenDown | MY_Migration.php:198-239 | after completed calls from lo up to hi and from hi back down to lo, the down steps are exactly the up steps in reverse order |
| Resolution.TimestampNeverGaps | MY_Migration.php:217-221 | under the timestamp scheme, no call answers a sequence gap |
| Resolution.GapAfterSteps | MY_Migration.php:214-252 | with migrations 1, 2 and 4 going up from 0 to 4, steps 1 and 2 run and are recorded before the gap at 4 stops the call |
| Resolution.LatestEarlyExits | MY_Migration.php:275-280 | `latest()` on an empty catalog answers "none found", and on a duplicate number answers that error, with no step and no write |
| Resolution.LatestTargetsHighest | MY_Migration.php:283-287 | the last file of the catalog carries the highest catalog number, and that is the number `latest()` aims at |
| Resolution.LatestStoresHighest | MY_Migration.php:273-288 | after a `latest()` call that completes, the module's stored version is the highest catalog number |
| Migration.Migrator.GetVersion | MY_Migration.php:375-380 | returns the stored version of the requested module, falling back to the current module; 0 when it has no row |
| Migration.Migrator.UpdateVersion | MY_Migration.php:389-398 | the table becomes the upsert of the module's version, and the trace gains exactly that write |
| Migration.Migrator.FindMigrations | MY_Migration.php:315-341 | the loop returns the catalog `Catalog.FindCatalog` describes (so sorted ascending), or the first duplicate |
| Migration.Migrator.Version | MY_Migration.php:180-266 | answers what `Resolution.Resolve` gives for the stored version and the target; the trace and the table gain exactly its events |
| Migration.Migrator.RunMigrations | MY_Migration.php:211-265 | the loop over the catalog in the visiting order answers, records and stores exactly what `Resolution.Walk` gives |
| Migration.Migrator.Visit | MY_Migration.php:214-252 | one turn of the loop: answers the entry's fault, changing nothing, or runs and records the entry when it is in range and moves the running version to it |
| Migration.Migrator.CheckEntry | MY_Migration.php:217-246 | the gap, class and method checks, in the source's order, with the running version, give the entry's fault |
| Migration.Migrator.RunStep | MY_Migration.php:248-251 | the step's call and then the write of its number are appended to the trace and applied to the table |
| Migration.Migrator.Finish | MY_Migration.php:255-265 | answers the target; writes the target only when the running version differs from it |
| Migration.Migrator.Latest | MY_Migration.php:273-288 | answers, records and stores exactly what `Resolution.ResolveLatest` gives: "none found" on an empty catalog, otherwise `version()` for the last file's number |
| Migration.Migrator.Current | MY_Migration.php:295-298 | answers, records and stores exactly what `version()` gives for the configured version |
| Migration.NextStep | MY_Migration.php:233-239 | at each entry, the range test with the running version agrees with the test against the start, and the entry joins the steps exactly when it is in range |
| Migration.RecordStep | MY_Migration.php:249-251 | running one more step appends its call and its write, and stores its number |
| Migration.LatestIsVersion | MY_Migration.php:283-287 | on a non-empty catalog, `latest()` is `version()` aimed at the number of the catalog's last file |

## Left out

- The constructor's work (MY_Migration.php:33-93) is not modelled: loading the configuration and the language file, `show_error` on a bad setting, creating and seeding the table, and `auto_latest`. `Migration.Migrator.constructor` takes the settings as given.
- `init_module`, `list_all_modules`, `list_all_modules_with_migrations`, `migrate_all_modules` and the `display_*` helpers (MY_Migration.php:95-170) are not modelled. They depend on the module discovery of the HMVC extension, which is not part of this model.
- `error_string` is not modelled: the error is the `Error` value carried by `Failed`.
- The `__get` delegation to the framework is not modelled, and neither are `log_message` or the language lines.
- The DDL inside migration steps is not modelled.
- `glob`, `include_once`, `class_exists`, `new $class`, `is_callable` and `call_user_func` are given as values: the listing `files`, the `Classes` record, and the `Ran` events of `trace`.
- A step whose `up()` or `down()` throws is not modelled. `call_user_func` (MY_Migration.php:249) has no handler, so in PHP `version()` would end after the earlier steps' writes, without this step's write and without the final write. In the model every `Ran` event is followed by its `Recorded` event.
- The order of `include_once` is not modelled. In PHP, `include_once` (MY_Migration.php:223) runs in visiting order, and `class_exists($class, FALSE)` (MY_Migration.php:227) sees only the classes declared by the files included so far, so a class declared only by a later file is reported missing. In the model, `Classes.declared` is one fixed set, so such a class counts as present.
- Class names are compared exactly. PHP's `class_exists` and `is_callable` (MY_Migration.php:227, 242) accept a class declared with any capitalisation, such as `class migration_create_users`. The model finds the class only when exactly the `ClassRef` that `Naming.ClassName` builds is in `Classes.declared`.
- Failures of the database calls are not modelled. The table is a map, and the value `_update_version` returns is ignored, as `version()` ignores it.
- The source names the table `migrations` directly, whatever `migration_table` is set to. The model has that one table.
- Migration.Migrator.Version: versions are `nat` values. The `'%03d'` padding of the target and the string form of the returned version ("001") are not kept.
- Migration.Migrator.Version: a negative target cannot be passed.
- Migration.Migrator.FindMigrations: one `scheme` chooses the basename regex, and it is assumed to agree with the module's `migration_type`. In PHP the regex is set once, in the constructor (MY_Migration.php:65-67), from the core configuration. `init_module` (MY_Migration.php:156-158) then replaces `_migration_type` with each module's own setting, but does not recompute the regex. So a timestamp module under a sequential core has all its files rejected, and `current()` answers "not found", while the model finds those files.
- Migration.Migrator.Version: the same `scheme` also chooses the target's padding and whether gaps are checked (MY_Migration.php:185-189, 217). PHP takes these from the module's `migration_type`, which can differ from the type the regex was built for; the model assumes the two agree.
- Migration.Migrator.Version: the answer is the version as a number, while PHP returns a string or an int. A completed call to version 0 answers `Reached(0)` in the model, but PHP's answer depends on the case:
  - under the sequential scheme, when the final write runs, PHP returns `"000"`, which is true;
  - under the timestamp scheme, when the final write runs, PHP returns `"0"`, which is false;
  - when nothing is written, PHP returns the stored value (int `0`, or the row's `"0"`), which is false.
  A caller testing the answer for FALSE reads the last two as failures.
- Migration.Migrator.Version: a timestamp number with leading zeros is found by its value. PHP keys such a number by its string, which `(string)$target` does not reproduce, so it would answer "not found".
- Migration.Migrator.FindMigrations: `show_error` on a duplicate number ends the whole request. The model returns `Failed(Duplicate(n))`, which `version()` and `latest()` pass on before any step or write.
- Naming.MigrationNumber: for the empty name, PHP's `sscanf` returns -1 and leaves the number unset, while the model answers "0". Catalog names are never empty.
- VersionStore.Upsert: models the update-or-insert that `_update_version` evidently means. On PHP 8, its `count($row)` of a row object or of no row throws a TypeError.
- A sequence gap is found during the walk, after the earlier steps in range have already run and been written (`Resolution.GapAfterSteps`).
- A positive target above the highest migration gets "not found", like any other target that is not in the catalog (`Resolution.EarlyExits`).
