/**
 * Values shared by the catalog, the version store and the migration walk of
 * the HMVC migration library (`MY_Migration`).
 */
module MigrationTypes {

  /**
   * The name of a migration class, `Migration_` followed by `suffix`; the
   * fixed prefix is kept apart from the part that varies with the file.
   */
  datatype ClassRef = MigrationClass(suffix: string)

  /** The class name as PHP spells it. */
  function ClassText(c: ClassRef): string
  {
    "Migration_" + c.suffix
  }

  /** Which method of a migration class a walk calls: `up` or `down`. */
  datatype Direction = Up | Down

  /**
   * The reasons `version()`, `latest()` and `find_migrations()` give up; each
   * stands for one language line of the library (`migration_not_found`,
   * `migration_sequence_gap`, `migration_class_doesnt_exist`,
   * `migration_missing_up_method` / `_down_method`, `migration_none_found`,
   * `migration_multiple_version`).
   */
  datatype Error =
    | NotFound(version: nat)
    | Gap(version: nat)
    | ClassMissing(className: ClassRef)
    | MethodMissing(className: ClassRef, direction: Direction)
    | NoneFound
    | Duplicate(version: nat)

  /**
   * What `version()` answers: the version reached (an int), TRUE when the
   * catalog is empty and there is nothing to walk, or FALSE with the error
   * string set.
   */
  datatype Outcome = Reached(version: nat) | NothingToRun | Failed(error: Error)

  /**
   * What a call leaves behind, in order: a migration step that was run
   * (`call_user_func` on `up` or `down`), or a version written to the
   * `migrations` table for a module.
   */
  datatype Event = Ran(number: nat, direction: Direction) | Recorded(moduleName: string, version: nat)
}
