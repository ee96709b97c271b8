/**
  The driver's `dump()` and `load()`: resolve the location, build the
  command, hand it to the process primitive and map its exit status to
  success or to the driver's error.
 */
module Orchestrator {
  import opened Results
  import opened PhpText
  import opened Tables
  import opened Collaborators
  import opened DumpPath
  import opened DumpCommand
  import opened LoadCommand

  /** `DRUSH_SQL_DUMP_FAIL`. */
  datatype DumpError = DumpFailed

  /**
    The processes `dump()` ran and its outcome; on success, the dump path it
    publishes as the backend result, if it publishes one.
   */
  datatype DumpReport = DumpReport(ran: seq<string>, outcome: Result<Option<string>, DumpError>)

  /** The escaped dump location `dump()` passes to `dumpCmd`. */
  function DumpTarget(arg: PathArg, drv: Driver, host: Host): string {
    drv.escape(DumpFile(arg, drv.database, host))
  }

  /** `dump($output_dir)` over the expanded table selection `sel`. */
  function Dump(arg: PathArg, sel: Selection, opts: Options, drv: Driver, host: Host): (r: DumpReport)
    // exactly one process: the composed backup command for the resolved location
    ensures r.ran == [DumpCmd(sel, DumpTarget(arg, drv, host), drv, opts)]
    ensures r.outcome.Success? <==> host.exitCode(r.ran[0]) == 0
    // on success the location is published exactly when it is not PHP-empty
    ensures r.outcome.Success? ==>
      r.outcome.value == if PhpEmpty(DumpTarget(arg, drv, host)) then None else Some(DumpTarget(arg, drv, host))
  {
    var target := DumpTarget(arg, drv, host);
    var cmd := DumpCmd(sel, target, drv, opts);
    if host.exitCode(cmd) == 0 then
      DumpReport([cmd], Success(if PhpEmpty(target) then None else Some(target)))
    else
      DumpReport([cmd], Failure(DumpFailed))
  }

  /**
    A backup into an explicit directory with one structure-only table and
    nothing else configured: a parenthesised mydumper run over every other
    table, chained with a mysqldump of that table's structure into the
    directory's `schema_sql`.
   */
  lemma DumpOneStructureTable(dir: string, table: string, opts: Options, drv: Driver, host: Host)
    requires dir != "" && '@' !in dir
    ensures var cmd := Dump(Text(dir), Selection([], [], [table]), opts, drv, host).ran[0];
      && StartsWith(cmd, "(mydumper ")
      && EndsWith(cmd, ChainTail([table], SchemaDir(drv.escape(drv.escape(dir)))) + ")")
    ensures var p := Plan(Selection([], [], [table]), drv.escape(dir), drv, opts);
      && (forall t :: t in p.main.tablesList <==> t in drv.allTables && t != table)
      && p.schema == Some(SchemaDump(ReplaceAll(drv.creds, "--database=", " "), [table], SchemaDir(drv.escape(drv.escape(dir)))))
  {
    var sel := Selection([], [], [table]);
    AbsentFirstChar(DatabaseToken, dir);
    AbsentFirstChar(DateToken, dir);
    ExplicitPathUnchanged(dir, drv.database, host);
    var target := DumpTarget(Text(dir), drv, host);
    assert target == drv.escape(dir);
    var cmd := DumpCmd(sel, target, drv, opts);
    assert Dump(Text(dir), sel, opts, drv, host).ran[0] == cmd;
  }

  /** What `load()` did: the processes run in order, the errors set, and whether success was logged. */
  datatype LoadReport = LoadReport(ran: seq<string>, errors: seq<LoadError>, restored: bool)

  /**
    `load($dump_dir)` as intended: when `loadCmd` fails its error is the
    result, otherwise the loader runs and its exit status decides.
   */
  function Load(dumpDir: string, drv: Driver, host: Host): (r: LoadReport)
    ensures r.restored <==> r.errors == []
    ensures |r.errors| <= 1 && |r.ran| <= 2
    // nothing is run for a missing directory
    ensures !host.fileExists(drv.escape(dumpDir)) ==>
      r.ran == [] && r.errors == [MissingDirectory(drv.escape(dumpDir))]
    // the loader runs last, and only after every earlier process (the replay) succeeded
    ensures forall i :: 0 <= i < |r.ran| - 1 ==>
      r.ran[i] == ReplayCommand(drv, drv.escape(dumpDir)) && host.exitCode(r.ran[i]) == 0
    // success means: the directory exists, the replay (if needed) and the loader both exited 0
    ensures r.restored ==>
      && host.fileExists(drv.escape(dumpDir))
      && |r.ran| > 0
      && r.ran[|r.ran| - 1] == LoaderCommand(drv, drv.escape(dumpDir))
      && host.exitCode(LoaderCommand(drv, drv.escape(dumpDir))) == 0
      && (host.fileExists(SchemaFile(drv.escape(dumpDir))) <==> |r.ran| == 2)
    // and conversely: every step passing is a successful restore
    ensures r.restored <==>
      && host.fileExists(drv.escape(dumpDir))
      && (host.fileExists(SchemaFile(drv.escape(dumpDir))) ==>
            host.exitCode(ReplayCommand(drv, drv.escape(dumpDir))) == 0)
      && host.exitCode(LoaderCommand(drv, drv.escape(dumpDir))) == 0
    // once the restore command is built the loader runs after what `loadCmd` ran
    ensures LoadCmd(dumpDir, drv, host).result.Success? ==>
      r.ran == LoadCmd(dumpDir, drv, host).ran + [LoaderCommand(drv, drv.escape(dumpDir))]
    // a failing loader is reported with its exit status
    ensures LoadCmd(dumpDir, drv, host).result.Success? && !r.restored ==>
      r.errors == [LoaderFailed(host.exitCode(LoaderCommand(drv, drv.escape(dumpDir))))]
    // a failing `loadCmd` is the result, and nothing more runs
    ensures LoadCmd(dumpDir, drv, host).result.Failure? ==>
      r.ran == LoadCmd(dumpDir, drv, host).ran && r.errors == [LoadCmd(dumpDir, drv, host).result.error]
  {
    var step := LoadCmd(dumpDir, drv, host);
    match step.result
    case Failure(e) => LoadReport(step.ran, [e], false)
    case Success(cmd) =>
      var code := host.exitCode(cmd);
      if code == 0 then LoadReport(step.ran + [cmd], [], true)
      else LoadReport(step.ran + [cmd], [LoaderFailed(code)], false)
  }

  /** PHP FALSE, the value `loadCmd` returns after setting an error, as a command line. */
  const FalseCommand := ""

  /**
    `load($dump_dir)` as written: the value of `loadCmd` is passed to the
    process primitive whether or not it is an error.
   */
  function LoadAsWritten(dumpDir: string, drv: Driver, host: Host): (r: LoadReport)
    ensures |r.ran| > 0
    // what `loadCmd` ran, then its value: the myloader command, or FALSE after an error
    ensures r.ran == LoadCmd(dumpDir, drv, host).ran
      + [if LoadCmd(dumpDir, drv, host).result.Success? then LoadCmd(dumpDir, drv, host).result.value else FalseCommand]
    // success is logged exactly when that last process exits 0, whatever `loadCmd` reported
    ensures r.restored <==> host.exitCode(r.ran[|r.ran| - 1]) == 0
    // the error `loadCmd` set stays, and a non-zero exit adds the load failure after it
    ensures r.errors ==
      (if LoadCmd(dumpDir, drv, host).result.Failure? then [LoadCmd(dumpDir, drv, host).result.error] else [])
      + (if r.restored then [] else [LoaderFailed(host.exitCode(r.ran[|r.ran| - 1]))])
  {
    var step := LoadCmd(dumpDir, drv, host);
    var cmd := if step.result.Success? then step.result.value else FalseCommand;
    var earlier := if step.result.Failure? then [step.result.error] else [];
    var code := host.exitCode(cmd);
    if code == 0 then LoadReport(step.ran + [cmd], earlier, true)
    else LoadReport(step.ran + [cmd], earlier + [LoaderFailed(code)], false)
  }

  /**
    The discrepancy: for a directory that does not exist, the code as
    written still calls the process primitive (with FALSE), and when that
    call reports 0 it logs a successful restore next to the error.
   */
  lemma LoadAsWrittenRunsAfterMissingDirectory(dumpDir: string, drv: Driver, host: Host)
    requires !host.fileExists(drv.escape(dumpDir))
    ensures LoadAsWritten(dumpDir, drv, host).ran == [FalseCommand]
    ensures LoadAsWritten(dumpDir, drv, host).errors[0] == MissingDirectory(drv.escape(dumpDir))
    ensures host.exitCode(FalseCommand) == 0 ==> LoadAsWritten(dumpDir, drv, host).restored
    ensures Load(dumpDir, drv, host).ran == [] && !Load(dumpDir, drv, host).restored
  {
  }

  /** Whenever `loadCmd` succeeds, the code as written and the intended load agree exactly. */
  lemma LoadAgreesWhenCommandBuilt(dumpDir: string, drv: Driver, host: Host)
    requires LoadCmd(dumpDir, drv, host).result.Success?
    ensures LoadAsWritten(dumpDir, drv, host) == Load(dumpDir, drv, host)
  {
  }
}
