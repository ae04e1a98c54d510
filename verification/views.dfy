/**
 The multi-pattern tool of `src/main.rs`. Each view of `./config.toml` names an
 input file, a list of expressions and a list of column labels declared apart
 from them. Views are printed one after another in ascending name order; each
 table is a title row, a label row, and then, for every line and every
 expression that matches it (all of them, not just the first), one data row.
 */
module Views {
  import opened Results
  import opened Errors
  import opened LineSplit
  import opened Patterns
  import opened StringOrder
  import Tablex

  /** A table as rows of cell texts; layout and borders are not modelled. */
  type Table = seq<Row>

  /** One view of the configuration file. */
  datatype ViewConfig = ViewConfig(regexes: seq<string>, file: string, labels: seq<string>)

  /** The `[view]` table of the configuration file, by view name. */
  type Config = map<string, ViewConfig>

  /** The configuration file, relative to the working directory. */
  const ConfigPath: string := "./config.toml"

  // ---------------------------------------------------------------- compiling

  /** Compile a view's expressions in declaration order; the first that does not compile
      stops everything (a panic). */
  function CompileAll(compile: string -> Option<Regex>, sources: seq<string>): (r: Result<seq<Regex>, Error>)
    ensures r.Success? <==> forall i :: 0 <= i < |sources| ==> compile(sources[i]).Some?
    ensures r.Success? ==>
      |r.value| == |sources| && forall i :: 0 <= i < |sources| ==> r.value[i] == compile(sources[i]).value
    ensures r.Failure? ==>
      exists k :: 0 <= k < |sources| && compile(sources[k]).None? && r.error == RegexDoesNotCompile(sources[k]) &&
        forall i :: 0 <= i < k ==> compile(sources[i]).Some?
  {
    if |sources| == 0 then Success([])
    else
      var n := |sources| - 1;
      match CompileAll(compile, sources[..n])
      case Failure(e) => Failure(e)
      case Success(regexes) =>
        match compile(sources[n])
        case None => Failure(RegexDoesNotCompile(sources[n]))
        case Some(re) => Success(regexes + [re])
  }

  // ---------------------------------------------------------------- rows of one line

  /** The rows one line yields: one per expression that matches it, in declaration order. */
  function LineRows(regexes: seq<Regex>, labels: seq<string>, line: string): (rows: seq<Row>)
    ensures forall k :: 0 <= k < |rows| ==> |rows[k]| == |labels|
  {
    if |regexes| == 0 then []
    else LineRows(regexes[..|regexes| - 1], labels, line) + RegexRow(regexes[|regexes| - 1], labels, line)
  }

  /** The positions of the expressions that match `line`. */
  function MatchingRegexes(regexes: seq<Regex>, line: string): set<nat> {
    set j: nat | j < |regexes| && regexes[j].captures(line).Some?
  }

  /** How many of the expressions match `line`. */
  function MatchingRegexCount(regexes: seq<Regex>, line: string): nat {
    |MatchingRegexes(regexes, line)|
  }

  lemma MatchingRegexesSnoc(regexes: seq<Regex>, line: string)
    requires |regexes| > 0
    ensures var n := |regexes| - 1;
      MatchingRegexCount(regexes, line)
        == MatchingRegexCount(regexes[..n], line) + (if regexes[n].captures(line).Some? then 1 else 0)
  {
    var n := |regexes| - 1;
    var before := MatchingRegexes(regexes[..n], line);
    var last: set<nat> := if regexes[n].captures(line).Some? then {n} else {};
    forall j | j in MatchingRegexes(regexes, line)
      ensures j in before + last
    {
      if j < n {
        assert regexes[..n][j] == regexes[j];
      }
    }
    assert MatchingRegexes(regexes, line) == before + last;
    assert before !! last;
  }

  /** A line yields as many rows as expressions match it; the count is not capped at one. */
  lemma {:induction false} LineRowsCount(regexes: seq<Regex>, labels: seq<string>, line: string)
    ensures |LineRows(regexes, labels, line)| == MatchingRegexCount(regexes, line)
  {
    if |regexes| > 0 {
      var n := |regexes| - 1;
      LineRowsCount(regexes[..n], labels, line);
      MatchingRegexesSnoc(regexes, line);
      assert |LineRows(regexes, labels, line)|
          == |LineRows(regexes[..n], labels, line)| + |RegexRow(regexes[n], labels, line)|;
    }
  }

  /** A line that no expression matches yields no rows. */
  lemma UnmatchedLineYieldsNothing(regexes: seq<Regex>, labels: seq<string>, line: string)
    requires forall j :: 0 <= j < |regexes| ==> regexes[j].captures(line).None?
    ensures LineRows(regexes, labels, line) == []
  {
    LineRowsCount(regexes, labels, line);
    assert MatchingRegexes(regexes, line) == {};
  }

  lemma {:induction false} LineRowsAppend(a: seq<Regex>, b: seq<Regex>, labels: seq<string>, line: string)
    ensures LineRows(a + b, labels, line) == LineRows(a, labels, line) + LineRows(b, labels, line)
    decreases |b|
  {
    if |b| == 0 {
      assert a + b == a;
    } else {
      assert (a + b)[..|a + b| - 1] == a + b[..|b| - 1];
      LineRowsAppend(a, b[..|b| - 1], labels, line);
    }
  }

  // ---------------------------------------------------------------- rows of the content

  /** The data rows of a view: each line's rows, in line order. */
  function DataRows(regexes: seq<Regex>, labels: seq<string>, lines: seq<string>): (rows: seq<Row>)
    ensures forall k :: 0 <= k < |rows| ==> |rows[k]| == |labels|
  {
    if |lines| == 0 then []
    else DataRows(regexes, labels, lines[..|lines| - 1]) + LineRows(regexes, labels, lines[|lines| - 1])
  }

  /** The number of matching expressions, summed over the lines. */
  function TotalMatches(regexes: seq<Regex>, lines: seq<string>): nat {
    if |lines| == 0 then 0
    else TotalMatches(regexes, lines[..|lines| - 1]) + MatchingRegexCount(regexes, lines[|lines| - 1])
  }

  /** There are exactly as many data rows as (line, matching expression) pairs. */
  lemma {:induction false} DataRowsCount(regexes: seq<Regex>, labels: seq<string>, lines: seq<string>)
    ensures |DataRows(regexes, labels, lines)| == TotalMatches(regexes, lines)
  {
    if |lines| > 0 {
      DataRowsCount(regexes, labels, lines[..|lines| - 1]);
      LineRowsCount(regexes, labels, lines[|lines| - 1]);
    }
  }

  lemma {:induction false} DataRowsAppend(regexes: seq<Regex>, labels: seq<string>, a: seq<string>, b: seq<string>)
    ensures DataRows(regexes, labels, a + b) == DataRows(regexes, labels, a) + DataRows(regexes, labels, b)
    decreases |b|
  {
    if |b| == 0 {
      assert a + b == a;
    } else {
      var ab, init := a + b, b[..|b| - 1];
      assert ab[..|ab| - 1] == a + init;
      assert ab[|ab| - 1] == b[|b| - 1];
      DataRowsAppend(regexes, labels, a, init);
      assert DataRows(regexes, labels, ab)
          == DataRows(regexes, labels, a + init) + LineRows(regexes, labels, b[|b| - 1]);
      assert DataRows(regexes, labels, b)
          == DataRows(regexes, labels, init) + LineRows(regexes, labels, b[|b| - 1]);
    }
  }

  /** Where the row of line `i` matched by expression `j` lands among the data rows: after
      the rows of all earlier lines, and after the rows of earlier expressions on that line. */
  function RowPosition(regexes: seq<Regex>, labels: seq<string>, lines: seq<string>, i: nat, j: nat): nat
    requires i < |lines| && j < |regexes|
  {
    |DataRows(regexes, labels, lines[..i])| + |LineRows(regexes[..j], labels, lines[i])|
  }

  /** The rows of one line, split around expression `j`. */
  lemma LineRowsSplit(regexes: seq<Regex>, labels: seq<string>, line: string, j: nat)
    requires j < |regexes|
    ensures LineRows(regexes, labels, line)
         == LineRows(regexes[..j], labels, line) + RegexRow(regexes[j], labels, line)
            + LineRows(regexes[j + 1..], labels, line)
  {
    assert regexes == regexes[..j] + [regexes[j]] + regexes[j + 1..];
    assert LineRows([regexes[j]], labels, line) == RegexRow(regexes[j], labels, line) by {
      assert [regexes[j]][..0] == [];
    }
    LineRowsAppend(regexes[..j], [regexes[j]], labels, line);
    LineRowsAppend(regexes[..j] + [regexes[j]], regexes[j + 1..], labels, line);
  }

  /** The data rows, split around line `i`. */
  lemma DataRowsSplit(regexes: seq<Regex>, labels: seq<string>, lines: seq<string>, i: nat)
    requires i < |lines|
    ensures DataRows(regexes, labels, lines)
         == DataRows(regexes, labels, lines[..i]) + LineRows(regexes, labels, lines[i])
            + DataRows(regexes, labels, lines[i + 1..])
  {
    assert lines == lines[..i] + [lines[i]] + lines[i + 1..];
    assert DataRows(regexes, labels, [lines[i]]) == LineRows(regexes, labels, lines[i]) by {
      assert [lines[i]][..0] == [];
    }
    DataRowsAppend(regexes, labels, lines[..i], [lines[i]]);
    DataRowsAppend(regexes, labels, lines[..i] + [lines[i]], lines[i + 1..]);
  }

  /** The row of line `i` matched by expression `j` holds, in label order, the groups of
      that match, with "" for every label that is not a participating group of it. */
  lemma DataRowAt(regexes: seq<Regex>, labels: seq<string>, lines: seq<string>, i: nat, j: nat)
    requires i < |lines| && j < |regexes| && regexes[j].captures(lines[i]).Some?
    ensures var rows, p := DataRows(regexes, labels, lines), RowPosition(regexes, labels, lines, i, j);
      var cap := regexes[j].captures(lines[i]).value;
      && p < |rows|
      && |rows[p]| == |labels|
      && forall k :: 0 <= k < |labels| ==>
           (labels[k] in cap ==> rows[p][k] == cap[labels[k]]) && (labels[k] !in cap ==> rows[p][k] == "")
  {
    DataRowsSplit(regexes, labels, lines, i);
    LineRowsSplit(regexes, labels, lines[i], j);
  }

  /** Data rows are ordered by line first and by expression declaration order within a line. */
  lemma DataRowOrder(regexes: seq<Regex>, labels: seq<string>, lines: seq<string>, i: nat, j: nat, i': nat, j': nat)
    requires i < |lines| && j < |regexes| && regexes[j].captures(lines[i]).Some?
    requires i' < |lines| && j' < |regexes| && regexes[j'].captures(lines[i']).Some?
    requires i < i' || (i == i' && j < j')
    ensures RowPosition(regexes, labels, lines, i, j) < RowPosition(regexes, labels, lines, i', j')
  {
    if i < i' {
      var pre := lines[..i'];
      assert pre[..i] == lines[..i] && pre[i] == lines[i];
      DataRowsSplit(regexes, labels, pre, i);
      LineRowsSplit(regexes, labels, lines[i], j);
      assert |LineRows(regexes[..j], labels, lines[i])| < |LineRows(regexes, labels, lines[i])|;
    } else {
      var pre := regexes[..j'];
      assert pre[..j] == regexes[..j] && pre[j] == regexes[j];
      LineRowsSplit(pre, labels, lines[i], j);
    }
  }

  /** With one expression, a view's data rows are exactly what the single-pattern tool extracts. */
  lemma {:induction false} SingleRegexAgrees(re: Regex, labels: seq<string>, lines: seq<string>)
    ensures DataRows([re], labels, lines) == Tablex.MatchingRows(re, labels, lines)
  {
    if |lines| > 0 {
      SingleRegexAgrees(re, labels, lines[..|lines| - 1]);
      assert [re][..0] == [];
      assert LineRows([re], labels, lines[|lines| - 1]) == RegexRow(re, labels, lines[|lines| - 1]);
    }
  }

  // ---------------------------------------------------------------- one view

  /** A view's table: a one-cell title row with the view name, the declared labels, then
      the data rows. */
  function ViewTable(name: string, labels: seq<string>, regexes: seq<Regex>, content: string): (t: Table)
    ensures |t| == 2 + TotalMatches(regexes, Lines(content))
    ensures t[0] == [name] && t[1] == labels
    ensures forall k :: 2 <= k < |t| ==> |t[k]| == |labels|
    ensures t[2..] == DataRows(regexes, labels, Lines(content))
  {
    DataRowsCount(regexes, labels, Lines(content));
    [[name], labels] + DataRows(regexes, labels, Lines(content))
  }

  /** One pass of the view loop: read the file, then compile the expressions, then build the
      table. A file that cannot be read is reported before any expression is compiled. */
  function RenderView(name: string, view: ViewConfig, readFile: string -> Option<string>,
                      compile: string -> Option<Regex>): (r: Result<Table, Error>)
    ensures readFile(view.file).None? ==> r == Failure(FileUnreadable(view.file))
    ensures r.Success? <==>
      readFile(view.file).Some? && forall i :: 0 <= i < |view.regexes| ==> compile(view.regexes[i]).Some?
    ensures readFile(view.file).Some? && r.Failure? ==>
      exists k :: 0 <= k < |view.regexes| && compile(view.regexes[k]).None? &&
        r.error == RegexDoesNotCompile(view.regexes[k]) &&
        forall i :: 0 <= i < k ==> compile(view.regexes[i]).Some?
    ensures r.Success? ==> |r.value| >= 2 && r.value[0] == [name] && r.value[1] == view.labels
    ensures r.Success? ==>
      var regexes := CompileAll(compile, view.regexes).value;
      && |regexes| == |view.regexes|
      && (forall i :: 0 <= i < |regexes| ==> regexes[i] == compile(view.regexes[i]).value)
      && r.value[2..] == DataRows(regexes, view.labels, Lines(readFile(view.file).value))
  {
    match readFile(view.file)
    case None => Failure(FileUnreadable(view.file))
    case Some(content) =>
      match CompileAll(compile, view.regexes)
      case Failure(e) => Failure(e)
      case Success(regexes) => Success(ViewTable(name, view.labels, regexes, content))
  }

  // ---------------------------------------------------------------- the run

  /** What a run printed, and what stopped it if it stopped early. Tables printed before a
      failing view stay printed. */
  datatype Run = Run(printed: seq<Table>, failure: Option<Error>)

  /** `run` is what printing the views `names` in order produces: every printed table is
      its view's rendering, and the run stops at the first view that fails to render,
      the one right after the last printed table. */
  predicate PrintedInOrder(names: seq<string>, config: Config, readFile: string -> Option<string>,
                           compile: string -> Option<Regex>, run: Run)
    requires forall k :: 0 <= k < |names| ==> names[k] in config
  {
    && |run.printed| <= |names|
    && (forall k :: 0 <= k < |run.printed| ==>
          RenderView(names[k], config[names[k]], readFile, compile) == Success(run.printed[k]))
    && (run.failure.None? ==> |run.printed| == |names|)
    && (run.failure.Some? ==>
          |run.printed| < |names| &&
          RenderView(names[|run.printed|], config[names[|run.printed|]], readFile, compile)
            == Failure(run.failure.value))
  }

  /** Render and print the views `names` in that order, stopping at the first that fails. */
  method PrintViews(names: seq<string>, config: Config, readFile: string -> Option<string>,
                    compile: string -> Option<Regex>) returns (run: Run)
    requires forall k :: 0 <= k < |names| ==> names[k] in config
    ensures PrintedInOrder(names, config, readFile, compile, run)
  {
    var printed: seq<Table> := [];
    var i := 0;
    while i < |names|
      invariant i <= |names| && |printed| == i
      invariant forall k :: 0 <= k < i ==>
        RenderView(names[k], config[names[k]], readFile, compile) == Success(printed[k])
    {
      var rendered := RenderView(names[i], config[names[i]], readFile, compile);
      if rendered.Failure? {
        return Run(printed, Some(rendered.error));
      }
      printed := printed + [rendered.value];
      i := i + 1;
    }
    return Run(printed, None);
  }

  /** Each table opens with a one-cell title row, and the titles strictly ascend. */
  predicate TitlesAscend(tables: seq<Table>) {
    && (forall k :: 0 <= k < |tables| ==> |tables[k]| > 0 && |tables[k][0]| == 1)
    && forall i, j :: 0 <= i < j < |tables| ==> Lt(tables[i][0][0], tables[j][0][0])
  }

  /** Tables rendered for strictly ascending names have strictly ascending titles. */
  lemma TitlesAscending(names: seq<string>, config: Config, readFile: string -> Option<string>,
                        compile: string -> Option<Regex>, printed: seq<Table>)
    requires |printed| <= |names|
    requires forall k :: 0 <= k < |names| ==> names[k] in config
    requires forall i, j :: 0 <= i < j < |names| ==> Lt(names[i], names[j])
    requires forall k :: 0 <= k < |printed| ==>
      RenderView(names[k], config[names[k]], readFile, compile) == Success(printed[k])
    ensures TitlesAscend(printed)
  {
    forall k | 0 <= k < |printed|
      ensures |printed[k]| > 0 && printed[k][0] == [names[k]]
    {
      assert RenderView(names[k], config[names[k]], readFile, compile).Success?;
    }
  }

  /** `try_main` of the binary: load the configuration, then render and print every view
      in ascending name order, stopping at the first view that fails. */
  method TryMain(loadConfig: string -> Option<Config>, readFile: string -> Option<string>,
                 compile: string -> Option<Regex>) returns (run: Run)
    ensures loadConfig(ConfigPath).None? ==> run == Run([], Some(ConfigUnreadable(ConfigPath)))
    ensures loadConfig(ConfigPath).Some? ==>
      var config := loadConfig(ConfigPath).value;
      PrintedInOrder(SortedKeys(config.Keys), config, readFile, compile, run)
    ensures TitlesAscend(run.printed)
  {
    var loaded := loadConfig(ConfigPath);
    if loaded.None? {
      return Run([], Some(ConfigUnreadable(ConfigPath)));
    }
    var config := loaded.value;
    var names := SortedKeys(config.Keys);
    run := PrintViews(names, config, readFile, compile);
    TitlesAscending(names, config, readFile, compile, run.printed);
  }
}
