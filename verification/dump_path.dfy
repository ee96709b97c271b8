/**
  Resolution of the dump location (`dumpFile`): a generated
  `<backup dir>/@DATABASE_@DATE` when no path is given, then substitution
  of the `@DATABASE` and `@DATE` tokens with PHP `str_replace` semantics.
 */
module DumpPath {
  import opened PhpText
  import opened Collaborators

  /** The `$output_dir` argument: a PHP boolean or a string. */
  datatype PathArg = Flag(on: bool) | Text(path: string)

  /**
    `$output_dir === TRUE || $output_dir == ''`. Under PHP's loose
    comparison FALSE equals '', so both booleans ask for a generated path.
   */
  predicate Generates(arg: PathArg) {
    arg.Flag? || arg.path == ""
  }

  const DatabaseToken := "@DATABASE"
  const DateToken := "@DATE"
  const DefaultName := "@DATABASE_@DATE"

  /** The backup engine's directory, or the temporary directory when that is PHP-empty. */
  function BackupBase(host: Host): string {
    if PhpEmpty(host.backupDir) then host.tmpDir else host.backupDir
  }

  /**
    `str_replace(array('@DATABASE', '@DATE'), array($database, $now), $path)`:
    the pairs are applied in turn, so every `@DATABASE` is replaced first and
    then every `@DATE`, including one the database name brought in.
   */
  function Substitute(path: string, database: string, now: string): string {
    ReplaceAll(ReplaceAll(path, DatabaseToken, database), DateToken, now)
  }

  /** `dumpFile($output_dir)`. */
  function DumpFile(arg: PathArg, database: string, host: Host): string {
    var raw := if Generates(arg) then BackupBase(host) + "/" + DefaultName else arg.path;
    Substitute(raw, database, host.now)
  }

  lemma DefaultNameFirstPass(database: string)
    ensures ReplaceAll(DefaultName, DatabaseToken, database) == database + "_" + DateToken
  {
    assert DefaultName[..|DatabaseToken|] == DatabaseToken;
    assert DefaultName[|DatabaseToken|..] == "_@DATE";
    assert ReplaceAll("_@DATE", DatabaseToken, database) == "_@DATE";
  }

  lemma DateTokenPass(now: string)
    ensures ReplaceAll(DateToken, DateToken, now) == now
  {
    assert DateToken[..|DateToken|] == DateToken;
    assert DateToken[|DateToken|..] == "";
  }

  lemma DatabaseTokenPass(database: string)
    ensures ReplaceAll(DatabaseToken, DatabaseToken, database) == database
  {
    assert DatabaseToken[..|DatabaseToken|] == DatabaseToken;
    assert DatabaseToken[|DatabaseToken|..] == "";
  }

  lemma FirstPass(base: string, database: string)
    ensures ReplaceAll(base + "/" + DefaultName, DatabaseToken, database)
         == ReplaceAll(base, DatabaseToken, database) + "/" + (database + "_" + DateToken)
  {
    assert base + "/" + DefaultName == base + ['/'] + DefaultName;
    ReplaceAround(base, '/', DefaultName, DatabaseToken, database);
    DefaultNameFirstPass(database);
  }

  lemma SecondPass(base1: string, database: string, now: string)
    ensures ReplaceAll(base1 + "/" + (database + "_" + DateToken), DateToken, now)
         == ReplaceAll(base1, DateToken, now) + "/" + ReplaceAll(database, DateToken, now) + "_" + now
  {
    assert base1 + "/" + (database + "_" + DateToken) == base1 + ['/'] + (database + "_" + DateToken);
    ReplaceAround(base1, '/', database + "_" + DateToken, DateToken, now);
    assert database + "_" + DateToken == database + ['_'] + DateToken;
    ReplaceAround(database, '_', DateToken, DateToken, now);
    DateTokenPass(now);
  }

  /**
    A generated path is the (substituted) base directory, a slash, the
    database name with every `@DATE` in it replaced, an underscore and the
    timestamp: the default template is rewritten at both tokens.
   */
  lemma DefaultPath(arg: PathArg, database: string, host: Host)
    requires Generates(arg)
    ensures DumpFile(arg, database, host)
         == Substitute(BackupBase(host), database, host.now) + "/"
            + ReplaceAll(database, DateToken, host.now) + "_" + host.now
  {
    var base := BackupBase(host);
    FirstPass(base, database);
    SecondPass(ReplaceAll(base, DatabaseToken, database), database, host.now);
  }

  /**
    With no token in the base directory and no `@DATE` in the database
    name, the generated path is `<base>/<database>_<timestamp>`.
   */
  lemma DefaultPathPlain(arg: PathArg, database: string, host: Host)
    requires Generates(arg)
    requires !Occurs(DatabaseToken, BackupBase(host)) && !Occurs(DateToken, BackupBase(host))
    requires !Occurs(DateToken, database)
    ensures DumpFile(arg, database, host) == BackupBase(host) + "/" + database + "_" + host.now
  {
    DefaultPath(arg, database, host);
    ReplaceAbsent(BackupBase(host), DatabaseToken, database);
    ReplaceAbsent(BackupBase(host), DateToken, host.now);
    ReplaceAbsent(database, DateToken, host.now);
  }

  /** An explicit path without tokens is returned as given. */
  lemma ExplicitPathUnchanged(path: string, database: string, host: Host)
    requires path != ""
    requires !Occurs(DatabaseToken, path) && !Occurs(DateToken, path)
    ensures DumpFile(Text(path), database, host) == path
  {
    ReplaceAbsent(path, DatabaseToken, database);
    ReplaceAbsent(path, DateToken, host.now);
  }

  /**
    An explicit `<dir>/@DATABASE` names the database's own entry in `dir`:
    the token in a given path is replaced just as in a generated one.
   */
  lemma ExplicitDatabasePath(dir: string, database: string, host: Host)
    requires !Occurs(DatabaseToken, dir) && !Occurs(DateToken, dir)
    requires !Occurs(DateToken, database)
    ensures DumpFile(Text(dir + "/" + DatabaseToken), database, host) == dir + "/" + database
  {
    assert dir + "/" + DatabaseToken == dir + ['/'] + DatabaseToken;
    ReplaceAround(dir, '/', DatabaseToken, DatabaseToken, database);
    ReplaceAbsent(dir, DatabaseToken, database);
    DatabaseTokenPass(database);
    assert dir + "/" + database == dir + ['/'] + database;
    ReplaceAround(dir, '/', database, DateToken, host.now);
    ReplaceAbsent(dir, DateToken, host.now);
    ReplaceAbsent(database, DateToken, host.now);
  }
}
