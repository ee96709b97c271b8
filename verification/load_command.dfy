/**
  Validation of a dump directory and composition of the restore command
  (`loadCmd`). Building the command may itself run one process: the
  mysql replay of `schema_sql` for structure-only tables, which must
  succeed before the myloader command is handed back.
 */
module LoadCommand {
  import opened Results
  import opened Collaborators
  import opened DumpCommand

  /** Why a load did not happen; carried in the driver's `DRUSH_SQL_LOAD_FAIL` errors. */
  datatype LoadError =
    | MissingDirectory(dir: string)
    | SchemaReplayFailed(code: int)
    | LoaderFailed(code: int)

  /** The processes `loadCmd` ran, in order, and what it returned. */
  datatype LoadStep = LoadStep(ran: seq<string>, result: Result<string, LoadError>)

  function SchemaFile(dir: string): string {
    dir + "/" + SchemaFileName
  }

  /** The single-connection mysql client fed the saved structure-only DDL. */
  function ReplayCommand(drv: Driver, dir: string): string {
    "mysql " + drv.creds + " < " + SchemaFile(dir)
  }

  /** The parallel loader over the dump directory, silent. */
  function LoaderCommand(drv: Driver, dir: string): string {
    "myloader --directory " + dir + " --verbose 0 " + drv.credsExplicit
  }

  /** `loadCmd($dump_dir)`; the directory is shell-escaped before it is looked up. */
  function LoadCmd(dumpDir: string, drv: Driver, host: Host): (r: LoadStep)
    // a missing directory fails at once: no command, no process
    ensures !host.fileExists(drv.escape(dumpDir)) ==>
      r.ran == [] && r.result == Failure(MissingDirectory(drv.escape(dumpDir)))
    // the replay runs exactly when the directory and its schema_sql both exist
    ensures r.ran == if host.fileExists(drv.escape(dumpDir)) && host.fileExists(SchemaFile(drv.escape(dumpDir)))
                     then [ReplayCommand(drv, drv.escape(dumpDir))] else []
    // the loader command is produced exactly when nothing before it failed
    ensures r.result.Success? <==>
      && host.fileExists(drv.escape(dumpDir))
      && (host.fileExists(SchemaFile(drv.escape(dumpDir))) ==>
            host.exitCode(ReplayCommand(drv, drv.escape(dumpDir))) == 0)
    ensures r.result.Success? ==> r.result.value == LoaderCommand(drv, drv.escape(dumpDir))
    // a failing replay reports its exit status
    ensures r.result.Failure? && host.fileExists(drv.escape(dumpDir)) ==>
      r.result.error == SchemaReplayFailed(host.exitCode(ReplayCommand(drv, drv.escape(dumpDir))))
  {
    var dir := drv.escape(dumpDir);
    if !host.fileExists(dir) then
      LoadStep([], Failure(MissingDirectory(dir)))
    else
      var exec := LoaderCommand(drv, dir);
      if host.fileExists(SchemaFile(dir)) then
        var replay := ReplayCommand(drv, dir);
        var code := host.exitCode(replay);
        if code == 0 then LoadStep([replay], Success(exec))
        else LoadStep([replay], Failure(SchemaReplayFailed(code)))
      else
        LoadStep([], Success(exec))
  }
}
