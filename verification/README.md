# Drush mydumper SQL driver, modelled in Dafny

This project models the core of Drush's mydumper driver (`Sqlmydumper`), which backs up and
restores a MySQL database with the parallel `mydumper` / `myloader` tools:

- **Table selection.** The driver takes a whitelist, a skip list and a structure-only list. It merges the
  skip and structure-only lists (`array_merge`). It computes the `--tables-list` passed to mydumper:
  the whitelist when there is one, and otherwise the database's tables minus the merged list
  (`array_diff`, order kept). Module `Tables`.
- **Backup command (`dumpCmd`).** This is the mydumper invocation with its fixed flags. In default
  mode it may carry a chained `mysqldump --no-data` of the structure-only tables into
  `<dir>/schema_sql`, and the command is then parenthesised. It is built as a `DumpPlan` and rendered
  to the exact text the PHP concatenates. Module `DumpCommand`.
- **Dump location (`dumpFile`).** With no path, the driver generates `<backup dir or tmp>/@DATABASE_@DATE`.
  It then applies `str_replace` of both tokens. Module `DumpPath`. PHP's string primitives (`empty`,
  `implode`, `str_replace`) are in `PhpText`.
- **Restore command (`loadCmd`).** A missing directory is an error. Otherwise the optional
  `schema_sql` replay runs, and a non-zero exit is an error. Otherwise the `myloader` command is
  returned. Module `LoadCommand`.
- **`dump()` / `load()`.** They map the exit status of the process they run to success or to the
  driver error. Module `Orchestrator`.

Everything outside this file is a parameter (module `Collaborators`):

- `drush_escapeshellarg`, which stays uninterpreted;
- `creds()` and `creds(FALSE)`;
- `parent::listTables()`;
- `drush_get_option`;
- `file_exists` and the exit status of `drush_op_system`;
- the backup engine's `prepare_backup_dir`, `drush_find_tmp` and `gmdate('Ymd_His')`.

Points where the code may surprise a reader, all modelled as the code behaves:

- The command is parenthesised whenever there is no whitelist, even without a chain.
- `@DATABASE` and `@DATE` are replaced at every occurrence, `@DATABASE` first. A `@DATE` inside
  the database name is replaced as well.
- The data-only option is tested with `isset`, and it emits mydumper's `--no-schemas`.
- The table lists are ordered PHP lists, not sets: order and repetitions are kept.
- PHP `empty()` also treats the string `"0"` as empty. This affects the `--outputdir` test, the `.`
  default for the chain, the backup-dir fallback and the published dump path.

## Model

| member | source | states |
|---|---|---|
| `Tables.EffectiveSkip` | lib/Drush/Sql/Sqlmydumper.php:17 | The merged skip list holds exactly the structure and skip tables, all of them. |
| `Tables.Without` | lib/Drush/Sql/Sqlmydumper.php:49 | `array_diff` keeps a table iff the source list has it and the dropped list does not. |
| `Tables.WithoutOrderAndCounts` | lib/Drush/Sql/Sqlmydumper.php:49 | `array_diff` keeps the source order (a subsequence), and keeps each kept table as often as the source list has it. |
| `Tables.WithoutIsUnique` | lib/Drush/Sql/Sqlmydumper.php:49-51 | Any order-preserving sublist that keeps every non-dropped table with full multiplicity and no dropped one is the default table list. |
| `Tables.WithoutSameMembers` | lib/Drush/Sql/Sqlmydumper.php:17 | Only membership in the merged list matters: merge order and overlap of skip and structure lists do not change the result. |
| `Tables.WithoutConcat` | lib/Drush/Sql/Sqlmydumper.php:17 | Dropping the merged list equals dropping the structure list and then the skip list. |
| `Tables.DataTables` | lib/Drush/Sql/Sqlmydumper.php:44-51 | The tables list is the whitelist when non-empty; otherwise the database tables in neither skip nor structure, in database order, each as often as the database lists it and no skipped one at all. |
| `PhpText.SplitJoin` | lib/Drush/Sql/Sqlmydumper.php:45 | A non-empty comma-joined tables list decodes back to the same list when no table name holds a comma. |
| `PhpText.JoinCharFree` | lib/Drush/Sql/Sqlmydumper.php:64-65 | Joining introduces no character that neither the separator nor the parts contain. |
| `PhpText.ReplaceAbsent` | lib/Drush/Sql/Sqlmydumper.php:95 | `str_replace` leaves a string without an occurrence of the needle unchanged. |
| `PhpText.ReplaceIdentity` | lib/Drush/Sql/Sqlmydumper.php:95 | Replacing the needle by itself is the identity: the left-to-right rewrite neither loses nor repeats text between matches. |
| `PhpText.ReplaceAround` | lib/Drush/Sql/Sqlmydumper.php:95 | A character absent from the needle separates independent rewrites of its two sides. |
| `PhpText.ReplaceCharFree` | lib/Drush/Sql/Sqlmydumper.php:60 | The `--database=` rewrite of the credentials adds no character absent from credentials and replacement. |
| `DumpCommand.Plan` | lib/Drush/Sql/Sqlmydumper.php:11-69 | Flags: `--compress` iff gzip, `--no-schemas` iff data-only, `--outputdir` iff the escaped dir is not empty. Whitelist: exactly the whitelist, no chain, no parentheses. Otherwise parenthesised, default table list (database order and multiplicity kept), chain iff structure tables, dumping exactly them into the dir or `.`. |
| `DumpCommand.DumpCmd` | lib/Drush/Sql/Sqlmydumper.php:11-69 | The text starts with `(` iff there is no whitelist, then ends with `)`. It opens with `mydumper`, the explicit credentials, `--verbose 0 --build-empty-files`, `--outputdir` iff the escaped dir is not empty, `--compress` iff gzip, `--no-schemas` iff data-only, and the `--tables-list` of the chosen tables, also when a chain follows. The whole text is exactly that invocation with a whitelist, the parenthesised invocation without one and without structure tables, and otherwise the parenthesised invocation followed by ` && mysqldump `, the credentials with `--database=` rewritten to a space, ` --no-data `, ` --no-autocommit --single-transaction --opt -Q`, the space-joined structure tables and ` > <dir or .>/schema_sql`. |
| `DumpCommand.TablesListReadBack` | lib/Drush/Sql/Sqlmydumper.php:44-51 | The `--tables-list` value of a non-empty list splits back at its commas into exactly the chosen tables when no table name holds a comma; an empty list (every table skipped) leaves ` --tables-list ` with an empty value. |
| `DumpCommand.RenderAmpersandIffChain` | lib/Drush/Sql/Sqlmydumper.php:64-68 | A plan whose inputs carry no `&` renders to text containing `&` iff it has the chained mysqldump. |
| `DumpCommand.ChainIffAmpersand` | lib/Drush/Sql/Sqlmydumper.php:54-68 | When the explicit credentials, the escaped dir and the database and whitelist table names carry no `&`, the command contains `&` (the `&&` chain) iff there is no whitelist and there are structure tables. |
| `DumpPath.DefaultPath` | lib/Drush/Sql/Sqlmydumper.php:86-95 | A generated path is the substituted base dir, `/`, the database name with `@DATE` replaced, `_`, and the timestamp. |
| `DumpPath.DefaultPathPlain` | lib/Drush/Sql/Sqlmydumper.php:86-95 | Without tokens in the base dir and no `@DATE` in the name, the generated path is `<base>/<database>_<timestamp>`, with tmp as the fallback base. |
| `DumpPath.ExplicitPathUnchanged` | lib/Drush/Sql/Sqlmydumper.php:86-96 | An explicit non-empty path without tokens is returned unchanged. |
| `DumpPath.ExplicitDatabasePath` | lib/Drush/Sql/Sqlmydumper.php:78-97 | `dumpFile` on an explicit `<dir>/@DATABASE` (no tokens in `dir`, no `@DATE` in the name) returns `<dir>/<database>`: tokens in a given path are replaced too. |
| `LoadCommand.LoadCmd` | lib/Drush/Sql/Sqlmydumper.php:124-155 | A missing dir is an error and runs nothing. The replay runs iff the dir and `schema_sql` exist. The myloader command is produced iff no step failed. A failed replay reports its exit status. |
| `Orchestrator.Dump` | lib/Drush/Sql/Sqlmydumper.php:106-122 | One process runs, the command for the resolved escaped location. Success iff its exit is 0, and then the location is published iff it is not empty. |
| `Orchestrator.DumpOneStructureTable` | lib/Drush/Sql/Sqlmydumper.php:106-110 | With one structure table into an explicit dir: a parenthesised mydumper run over every other table, chained into that dir's `schema_sql` with that table. |
| `Orchestrator.Load` | lib/Drush/Sql/Sqlmydumper.php:157-168 | A missing dir runs nothing. The loader runs last and only after a successful replay. Success iff no error, iff the dir exists, the replay (when `schema_sql` exists) exited 0 and the loader exited 0. Once `loadCmd` succeeds the loader runs after what `loadCmd` ran, and a non-zero exit is reported as `LoaderFailed` with that status. A failing `loadCmd` is the only error and nothing more runs. |
| `Orchestrator.LoadAsWritten` | lib/Drush/Sql/Sqlmydumper.php:157-168 | As written, after what `loadCmd` ran, its value always runs: the myloader command, or FALSE after an error. Success is logged iff that process exits 0; the error `loadCmd` set stays, and a non-zero exit adds `LoaderFailed` with that status. |
| `Orchestrator.LoadAsWrittenRunsAfterMissingDirectory` | lib/Drush/Sql/Sqlmydumper.php:157-166 | As written, a missing dir still runs the FALSE command after the error, and logs success if that exits 0. The intended load runs nothing. |
| `Orchestrator.LoadAgreesWhenCommandBuilt` | lib/Drush/Sql/Sqlmydumper.php:157-168 | Whenever `loadCmd` succeeds, the written and the intended load are identical. |

## Findings

| source | as written | input that shows it | evidently intended | confidence | as-written member | corrected member |
|---|---|---|---|---|---|---|
| lib/Drush/Sql/Sqlmydumper.php:157-166 | `load()` passes `loadCmd`'s return value to `drush_op_system` without checking it, so after an error it runs FALSE as a command | a dump directory for which `file_exists` is false | return the `loadCmd` error and run nothing further | medium: what `drush_op_system(FALSE)` does is outside this model; not executed | `Orchestrator.LoadAsWritten`, `Orchestrator.LoadAsWrittenRunsAfterMissingDirectory` | `Orchestrator.Load` |

## Left out

- Shell escaping (`drush_escapeshellarg`) is an uninterpreted function. The model reproduces two
  things as written without analysing them: `dump()` escapes a path that `dumpCmd` escapes again,
  and `loadCmd` calls `file_exists` on the escaped path.
- `creds()`, `creds(FALSE)` and `parent::listTables()` come from the MySQL driver. That driver is not
  part of this model, so they are opaque inputs.
- The table selection (`get_expanded_table_selection`) is an input. `drush_get_option` becomes two
  booleans: gzip is truthy, and data-only is set.
- The processes and the clock are oracles. `file_exists` is a predicate. `drush_op_system` is a
  function from command line to exit status, and each command runs at most once per call.
  `gmdate('Ymd_His')`, `drush_find_tmp` and the backup engine's `prepare_backup_dir` are string inputs.
  The backup engine's failure value is taken as "".
- What the shell does with the parentheses and `&&` is not modelled, and neither are the mydumper,
  myloader, mysqldump and mysql programs. The dump chain's exit status is the single value of the
  oracle.
- Logging and result reporting are not modelled (`drush_log`, `drush_backend_set_result`, message
  texts). Only success, the error kind and the published path remain. That includes the
  success message at line 147, which names an undefined variable.
- `Orchestrator.LoadAsWritten`: FALSE is modelled as the empty command line given to the
  exit-status oracle. What PHP's `system` does with it is not modelled.
- `DumpCommand.ChainIffAmpersand` assumes that no `&` occurs in the explicit credentials, the
  escaped directory or the database and whitelist table names. Without that assumption, the text alone cannot show whether the
  chain is present; the plan-level statement in `DumpCommand.Plan` holds unconditionally.
