/**
  What the mydumper driver obtains from code outside it, passed in as
  values: the inherited MySQL driver's credentials and table list, shell
  escaping, and the host's filesystem, processes, clock and directories.
 */
module Collaborators {

  /** The driver-side inputs of `dumpCmd` / `loadCmd`. */
  datatype Driver = Driver(
    /** `drush_escapeshellarg`, left uninterpreted. */
    escape: string -> string,
    /** `$this->creds()` of the inherited MySQL driver. */
    creds: string,
    /** `$this->creds(FALSE)` of the inherited MySQL driver. */
    credsExplicit: string,
    /** `parent::listTables()`: every table of the database, in its order. */
    allTables: seq<string>,
    /** `$this->db_spec['database']`. */
    database: string)

  /** Options read through `drush_get_option`. */
  datatype Options = Options(
    /** `--gzip` is set to a true value. */
    gzip: bool,
    /** `--data-only` is set (`isset`, whatever its value). */
    dataOnly: bool)

  /** The host environment, as oracles. */
  datatype Host = Host(
    /** `file_exists`. */
    fileExists: string -> bool,
    /** Exit status `drush_op_system` returns for a command line. */
    exitCode: string -> int,
    /** What the backup engine's `prepare_backup_dir` returns ("" when it fails). */
    backupDir: string,
    /** `drush_find_tmp()`. */
    tmpDir: string,
    /** `gmdate('Ymd_His')` at the time of the call. */
    now: string)
}
