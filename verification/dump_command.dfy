/**
  Composition of the backup command (`dumpCmd`): a mydumper invocation
  over the data tables, optionally chained with a single-connection
  mysqldump of the structure-only tables into `<dir>/schema_sql`, the
  whole possibly wrapped in parentheses. The command is first built as a
  `DumpPlan` and then rendered to the exact text the driver concatenates.
 */
module DumpCommand {
  import opened Results
  import opened PhpText
  import opened Tables
  import opened Collaborators

  /** The mydumper invocation. */
  datatype Mydumper = Mydumper(
    creds: string,
    outputDir: Option<string>,
    compress: bool,
    noSchemas: bool,
    tablesList: seq<string>)

  /** The chained mysqldump of structure-only tables. */
  datatype SchemaDump = SchemaDump(creds: string, tables: seq<string>, targetDir: string)

  /** A whole backup command: the invocation, the optional chain, and whether it is parenthesised. */
  datatype DumpPlan = DumpPlan(main: Mydumper, schema: Option<SchemaDump>, grouped: bool)

  /** File the chained mysqldump writes; myloader skips this name (it chokes on `schema.sql`). */
  const SchemaFileName := "schema_sql"

  /** Directory the chained mysqldump writes into: the escaped output dir, or `.` when that is empty. */
  function SchemaDir(dir: string): string {
    if PhpEmpty(dir) then "." else dir
  }

  /** The structure of the command `dumpCmd` builds for `outputDir`. */
  function Plan(sel: Selection, outputDir: string, drv: Driver, opts: Options): (p: DumpPlan)
    // silent operation, credentials, gzip and data-only flags are always carried over
    ensures p.main.creds == drv.credsExplicit
    ensures p.main.compress == opts.gzip && p.main.noSchemas == opts.dataOnly
    // --outputdir appears exactly when the escaped directory is not PHP-empty
    ensures p.main.outputDir.Some? <==> !PhpEmpty(drv.escape(outputDir))
    ensures p.main.outputDir.Some? ==> p.main.outputDir.value == drv.escape(outputDir)
    // whitelist mode: exactly the whitelist, no chain, no parentheses
    ensures |sel.tables| > 0 ==>
      p.main.tablesList == sel.tables && p.schema.None? && !p.grouped
    // default mode: every database table outside skip and structure, in database order
    ensures |sel.tables| == 0 ==>
      && p.grouped
      && (forall t :: t in p.main.tablesList <==> t in drv.allTables && t !in sel.skip && t !in sel.structure)
      && IsSubsequence(p.main.tablesList, drv.allTables)
      && (forall t :: multiset(p.main.tablesList)[t] ==
            (if t in sel.skip || t in sel.structure then 0 else multiset(drv.allTables)[t]))
    // the chain exists exactly in default mode with structure tables, and dumps exactly those
    ensures p.schema.Some? <==> |sel.tables| == 0 && |sel.structure| > 0
    ensures p.schema.Some? ==>
      && p.schema.value.tables == sel.structure
      && p.schema.value.targetDir == SchemaDir(drv.escape(outputDir))
      && p.schema.value.creds == ReplaceAll(drv.creds, "--database=", " ")
  {
    var dir := drv.escape(outputDir);
    var main := Mydumper(
      drv.credsExplicit,
      if PhpEmpty(dir) then None else Some(dir),
      opts.gzip,
      opts.dataOnly,
      DataTables(sel, drv.allTables));
    if |sel.tables| > 0 then
      DumpPlan(main, None, false)
    else if |sel.structure| > 0 then
      var chain := SchemaDump(ReplaceAll(drv.creds, "--database=", " "), sel.structure, SchemaDir(dir));
      DumpPlan(main, Some(chain), true)
    else
      DumpPlan(main, None, true)
  }

  /** The option text after the credentials, in the order the driver appends it. */
  function FlagText(m: Mydumper): string {
    " --verbose 0 --build-empty-files "
    + (if m.outputDir.Some? then " --outputdir " + m.outputDir.value + " " else "")
    + (if m.compress then " --compress" else "")
    + (if m.noSchemas then " --no-schemas" else "")
  }

  function TablesListText(tables: seq<string>): string {
    " --tables-list " + Join(tables, ",")
  }

  /**
    The `--tables-list` value mydumper receives reads back, split at its
    commas, as exactly the chosen tables, provided there is at least one
    and no table name has a comma.
   */
  lemma TablesListReadBack(tables: seq<string>)
    requires CharFree(',', tables)
    ensures |" --tables-list "| <= |TablesListText(tables)|
    ensures |tables| > 0 ==> Split(TablesListText(tables)[|" --tables-list "|..], ',') == tables
    // an empty list, when every table is skipped, leaves the option with an empty value
    ensures |tables| == 0 ==> TablesListText(tables) == " --tables-list "
  {
    assert TablesListText(tables)[|" --tables-list "|..] == Join(tables, [',']);
    if |tables| > 0 {
      SplitJoin(tables, ',');
    }
  }

  /** The invocation up to its table list. */
  function MainHead(m: Mydumper): string {
    "mydumper " + (m.creds + FlagText(m))
  }

  function MainText(m: Mydumper): string {
    MainHead(m) + TablesListText(m.tablesList)
  }

  function RedirectText(dir: string): string {
    " > " + dir + "/" + SchemaFileName
  }

  /** The chained mysqldump up to its table list. */
  function SchemaHead(s: SchemaDump): string {
    " && mysqldump " + s.creds + " --no-data " + " --no-autocommit --single-transaction --opt -Q"
  }

  /** The structure tables, space-joined, and the redirect into `<dir>/schema_sql`. */
  function ChainTail(tables: seq<string>, dir: string): string {
    " " + Join(tables, " ") + RedirectText(dir)
  }

  function SchemaTail(s: SchemaDump): string {
    ChainTail(s.tables, s.targetDir)
  }

  function SchemaText(s: SchemaDump): string {
    SchemaHead(s) + SchemaTail(s)
  }

  /** The command before any parentheses: the invocation, then the chain if there is one. */
  function Inner(p: DumpPlan): string {
    MainText(p.main) + (if p.schema.Some? then SchemaText(p.schema.value) else "")
  }

  function Render(p: DumpPlan): string {
    if p.grouped then "(" + Inner(p) + ")" else Inner(p)
  }

  lemma EndsWithConcat(a: string, b: string)
    ensures EndsWith(a + b, b)
  {
    assert (a + b)[|a|..] == b;
  }

  lemma EndsWithExtend(a: string, b: string, suffix: string)
    requires EndsWith(b, suffix)
    ensures EndsWith(a + b, suffix)
  {
    assert (a + b)[|a + b| - |suffix|..] == b[|b| - |suffix|..];
  }

  lemma StartsWithConcat(a: string, b: string)
    ensures StartsWith(a + b, a)
  {
    assert (a + b)[..|a|] == a;
  }

  lemma StartsWithExtend(a: string, b: string, prefix: string)
    requires StartsWith(a, prefix)
    ensures StartsWith(a + b, prefix)
  {
    assert (a + b)[..|prefix|] == a[..|prefix|];
  }

  lemma GroupedShape(inner: string, prefix: string, suffix: string)
    requires StartsWith(inner, prefix) && EndsWith(inner, suffix)
    ensures StartsWith("(" + inner + ")", "(" + prefix)
    ensures EndsWith("(" + inner + ")", suffix + ")")
  {
    var g := "(" + inner + ")";
    assert g[..1 + |prefix|] == "(" + inner[..|prefix|];
    assert g[|g| - |suffix| - 1..] == inner[|inner| - |suffix|..] + ")";
  }

  /** The invocation always leads; the chain, when present, comes last and ends with its redirect. */
  lemma InnerShape(p: DumpPlan)
    ensures StartsWith(Inner(p), "mydumper ")
    ensures StartsWith(Inner(p), MainText(p.main))
    ensures p.schema.None? ==> EndsWith(Inner(p), TablesListText(p.main.tablesList))
    ensures p.schema.Some? ==>
      EndsWith(Inner(p), SchemaTail(p.schema.value))
  {
    var m := p.main;
    StartsWithConcat("mydumper ", m.creds + FlagText(m));
    StartsWithExtend(MainHead(m), TablesListText(m.tablesList), "mydumper ");
    StartsWithExtend(MainText(m), if p.schema.Some? then SchemaText(p.schema.value) else "", "mydumper ");
    StartsWithConcat(MainText(m), if p.schema.Some? then SchemaText(p.schema.value) else "");
    if p.schema.Some? {
      var c := p.schema.value;
      EndsWithConcat(SchemaHead(c), SchemaTail(c));
      EndsWithExtend(MainText(m), SchemaText(c), SchemaTail(c));
    } else {
      EndsWithConcat(MainHead(m), TablesListText(m.tablesList));
      assert Inner(p) == MainText(m);
    }
  }

  /** Where the rendered command starts and ends, read off the plan. */
  lemma RenderShape(p: DumpPlan)
    ensures |Render(p)| > 0 && (Render(p)[0] == '(' <==> p.grouped)
    ensures p.grouped ==> StartsWith(Render(p), "(mydumper ") && EndsWith(Render(p), ")")
    ensures !p.grouped ==> StartsWith(Render(p), "mydumper ")
    ensures !p.grouped && p.schema.None? ==> EndsWith(Render(p), TablesListText(p.main.tablesList))
    ensures p.grouped && p.schema.None? ==> EndsWith(Render(p), TablesListText(p.main.tablesList) + ")")
    ensures p.grouped && p.schema.Some? ==> EndsWith(Render(p), SchemaTail(p.schema.value) + ")")
  {
    InnerShape(p);
    var suffix :=
      if p.schema.Some? then SchemaTail(p.schema.value)
      else TablesListText(p.main.tablesList);
    if p.grouped {
      GroupedShape(Inner(p), "mydumper ", suffix);
      EndsWithConcat("(" + Inner(p), ")");
    } else {
      assert Render(p)[..9] == "mydumper ";
    }
  }

  /** The text of the planned invocation, spelled out from the inputs. */
  lemma PlanMainText(sel: Selection, outputDir: string, drv: Driver, opts: Options)
    ensures MainText(Plan(sel, outputDir, drv, opts).main)
         == "mydumper " + drv.credsExplicit + " --verbose 0 --build-empty-files "
            + (if PhpEmpty(drv.escape(outputDir)) then "" else " --outputdir " + drv.escape(outputDir) + " ")
            + (if opts.gzip then " --compress" else "")
            + (if opts.dataOnly then " --no-schemas" else "")
            + " --tables-list " + Join(DataTables(sel, drv.allTables), ",")
  {
    var d := drv.escape(outputDir);
    var m := Plan(sel, outputDir, drv, opts).main;
    var a := if PhpEmpty(d) then "" else " --outputdir " + d + " ";
    var b := if opts.gzip then " --compress" else "";
    var c := if opts.dataOnly then " --no-schemas" else "";
    var v := " --verbose 0 --build-empty-files ";
    var t := " --tables-list ";
    var j := Join(DataTables(sel, drv.allTables), ",");
    assert FlagText(m) == v + a + b + c;
    assert MainText(m) == "mydumper " + (drv.credsExplicit + (v + a + b + c)) + (t + j);
    Regroup("mydumper ", drv.credsExplicit, v, a, b, c, t, j);
  }

  lemma Regroup(p: string, q: string, v: string, a: string, b: string, c: string, t: string, j: string)
    ensures p + (q + (v + a + b + c)) + (t + j) == p + q + v + a + b + c + t + j
  {
  }

  /** A grouped command with a chain, spelled out piece by piece as the driver concatenates it. */
  lemma ChainedText(p: DumpPlan)
    ensures p.grouped && p.schema.Some? ==>
      Render(p) == "(" + MainText(p.main) + " && mysqldump " + p.schema.value.creds
        + " --no-data " + " --no-autocommit --single-transaction --opt -Q" + SchemaTail(p.schema.value) + ")"
  {
    if p.grouped && p.schema.Some? {
      var c := p.schema.value;
      assert Render(p) == "(" + (MainText(p.main) + (SchemaHead(c) + SchemaTail(c))) + ")";
      RegroupChain("(", MainText(p.main), " && mysqldump ", c.creds, " --no-data ",
        " --no-autocommit --single-transaction --opt -Q", SchemaTail(c), ")");
    }
  }

  lemma RegroupChain(o: string, m: string, h1: string, h2: string, h3: string, h4: string, t: string, e: string)
    ensures o + (m + ((h1 + h2 + h3 + h4) + t)) + e == o + m + h1 + h2 + h3 + h4 + t + e
  {
  }

  /** The rendered command opens with the whole invocation, after the parenthesis if grouped. */
  lemma RenderLeads(p: DumpPlan)
    ensures StartsWith(Render(p), (if p.grouped then "(" else "") + MainText(p.main))
  {
    InnerShape(p);
    var suffix :=
      if p.schema.Some? then SchemaTail(p.schema.value)
      else TablesListText(p.main.tablesList);
    if p.grouped {
      GroupedShape(Inner(p), MainText(p.main), suffix);
    } else {
      assert "" + MainText(p.main) == MainText(p.main);
    }
  }

  /** `dumpCmd($table_selection, $output_dir)`. */
  function DumpCmd(sel: Selection, outputDir: string, drv: Driver, opts: Options): (r: string)
    // parenthesised exactly when there is no whitelist
    ensures |r| > 0 && (r[0] == '(' <==> |sel.tables| == 0)
    ensures |sel.tables| == 0 ==> StartsWith(r, "(mydumper ") && EndsWith(r, ")")
    ensures |sel.tables| > 0 ==> StartsWith(r, "mydumper ")
    // the mydumper invocation, with every flag in the driver's order and the tables list,
    // leads in every mode; the text is exactly it, parenthesised it, or parenthesised it
    // chained with the structure-only mysqldump into `<dir>/schema_sql`
    ensures var main := "mydumper " + drv.credsExplicit + " --verbose 0 --build-empty-files "
        + (if PhpEmpty(drv.escape(outputDir)) then "" else " --outputdir " + drv.escape(outputDir) + " ")
        + (if opts.gzip then " --compress" else "")
        + (if opts.dataOnly then " --no-schemas" else "")
        + " --tables-list " + Join(DataTables(sel, drv.allTables), ",");
      && StartsWith(r, (if |sel.tables| == 0 then "(" else "") + main)
      && (|sel.tables| > 0 ==> r == main)
      && (|sel.tables| == 0 && |sel.structure| == 0 ==> r == "(" + main + ")")
      && (|sel.tables| == 0 && |sel.structure| > 0 ==>
            r == "(" + main + " && mysqldump " + ReplaceAll(drv.creds, "--database=", " ")
              + " --no-data " + " --no-autocommit --single-transaction --opt -Q"
              + ChainTail(sel.structure, SchemaDir(drv.escape(outputDir))) + ")")
    // what the command ends with: the table list, or the redirect of the chain
    ensures |sel.tables| > 0 ==> EndsWith(r, TablesListText(sel.tables))
    ensures |sel.tables| == 0 && |sel.structure| == 0 ==>
      EndsWith(r, TablesListText(Without(drv.allTables, EffectiveSkip(sel))) + ")")
    ensures |sel.tables| == 0 && |sel.structure| > 0 ==>
      EndsWith(r, ChainTail(sel.structure, SchemaDir(drv.escape(outputDir))) + ")")
  {
    var p := Plan(sel, outputDir, drv, opts);
    RenderShape(p);
    RenderLeads(p);
    PlanMainText(sel, outputDir, drv, opts);
    ChainedText(p);
    Render(p)
  }

  lemma MainTextAmpersandFree(m: Mydumper)
    requires '&' !in m.creds && CharFree('&', m.tablesList)
    requires m.outputDir.Some? ==> '&' !in m.outputDir.value
    ensures '&' !in MainText(m)
  {
    JoinCharFree(m.tablesList, ",", '&');
    assert '&' !in FlagText(m);
    assert '&' !in TablesListText(m.tablesList);
  }

  /**
    A plan whose credentials, output directory and table names carry no `&`
    renders to a command containing `&` exactly when it chains the
    structure-only mysqldump with `&&`.
   */
  lemma RenderAmpersandIffChain(p: DumpPlan)
    requires '&' !in p.main.creds && CharFree('&', p.main.tablesList)
    requires p.main.outputDir.Some? ==> '&' !in p.main.outputDir.value
    ensures '&' in Render(p) <==> p.schema.Some?
  {
    MainTextAmpersandFree(p.main);
    InnerAmpersand(p);
    RenderAmpersand(p);
  }

  /**
    With no `&` in the explicit credentials, the escaped directory or the
    database and whitelist table names,
    the command contains `&` exactly when the structure-only mysqldump is
    chained with `&&`: in whitelist mode or without structure tables there
    is no chained process at all.
   */
  lemma ChainIffAmpersand(sel: Selection, outputDir: string, drv: Driver, opts: Options)
    requires '&' !in drv.credsExplicit && '&' !in drv.escape(outputDir)
    requires CharFree('&', drv.allTables) && CharFree('&', sel.tables)
    ensures '&' in DumpCmd(sel, outputDir, drv, opts) <==> |sel.tables| == 0 && |sel.structure| > 0
  {
    var p := Plan(sel, outputDir, drv, opts);
    assert DumpCmd(sel, outputDir, drv, opts) == Render(p);
    assert CharFree('&', p.main.tablesList);
    RenderAmpersandIffChain(p);
  }

  lemma InnerAmpersand(p: DumpPlan)
    requires '&' !in MainText(p.main)
    ensures '&' in Inner(p) <==> p.schema.Some?
  {
    if p.schema.Some? {
      assert SchemaHead(p.schema.value)[1] == '&';
      assert SchemaText(p.schema.value)[1] == '&';
    } else {
      assert Inner(p) == MainText(p.main);
    }
  }

  lemma RenderAmpersand(p: DumpPlan)
    ensures '&' in Render(p) <==> '&' in Inner(p)
  {
  }
}
