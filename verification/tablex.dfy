/**
 The single-pattern tool of `src/lib.rs`: one expression, whose own named groups
 are the columns, is applied to every line of one file, and each matching line
 becomes a row of the printed table. The expression and file come either from
 the command line or from a named view of the user's configuration.
 */
module Tablex {
  import opened Results
  import opened Errors
  import opened LineSplit
  import opened Patterns

  // ---------------------------------------------------------------- extraction

  /** The rows of `lines` that `re` matches, in line order: the reference for `parse_table`. */
  function MatchingRows(re: Regex, labels: seq<string>, lines: seq<string>): (rows: seq<Row>)
    ensures forall k :: 0 <= k < |rows| ==> |rows[k]| == |labels|
  {
    if |lines| == 0 then []
    else MatchingRows(re, labels, lines[..|lines| - 1]) + RegexRow(re, labels, lines[|lines| - 1])
  }

  /** The positions of the lines the expression matches. */
  function MatchedLines(re: Regex, lines: seq<string>): set<nat> {
    set i: nat | i < |lines| && re.captures(lines[i]).Some?
  }

  /** How many of `lines` the expression matches. */
  function MatchedLineCount(re: Regex, lines: seq<string>): nat {
    |MatchedLines(re, lines)|
  }

  lemma MatchedLinesSnoc(re: Regex, lines: seq<string>)
    requires |lines| > 0
    ensures var n := |lines| - 1;
      MatchedLineCount(re, lines)
        == MatchedLineCount(re, lines[..n]) + (if re.captures(lines[n]).Some? then 1 else 0)
  {
    var n := |lines| - 1;
    var before := MatchedLines(re, lines[..n]);
    var last: set<nat> := if re.captures(lines[n]).Some? then {n} else {};
    forall i | i in MatchedLines(re, lines)
      ensures i in before + last
    {
      if i < n {
        assert lines[..n][i] == lines[i];
      }
    }
    assert MatchedLines(re, lines) == before + last;
    assert before !! last;
  }

  /** One row per matching line and none for the others. */
  lemma {:induction false} MatchingRowsCount(re: Regex, labels: seq<string>, lines: seq<string>)
    ensures |MatchingRows(re, labels, lines)| == MatchedLineCount(re, lines)
  {
    if |lines| > 0 {
      var n := |lines| - 1;
      MatchingRowsCount(re, labels, lines[..n]);
      MatchedLinesSnoc(re, lines);
      assert |MatchingRows(re, labels, lines)|
          == |MatchingRows(re, labels, lines[..n])| + |RegexRow(re, labels, lines[n])|;
    }
  }

  /** Rows of consecutive blocks of lines are the rows of each block, concatenated. */
  lemma {:induction false} MatchingRowsAppend(re: Regex, labels: seq<string>, a: seq<string>, b: seq<string>)
    ensures MatchingRows(re, labels, a + b) == MatchingRows(re, labels, a) + MatchingRows(re, labels, b)
    decreases |b|
  {
    if |b| == 0 {
      assert a + b == a;
    } else {
      assert (a + b)[..|a + b| - 1] == a + b[..|b| - 1];
      MatchingRowsAppend(re, labels, a, b[..|b| - 1]);
    }
  }

  /** A matching line's row holds its captures, and sits right after the rows of all earlier lines. */
  lemma MatchingRowAt(re: Regex, labels: seq<string>, lines: seq<string>, i: nat)
    requires i < |lines| && re.captures(lines[i]).Some?
    ensures var rows := MatchingRows(re, labels, lines);
      var p := |MatchingRows(re, labels, lines[..i])|;
      && p < |rows|
      && rows[p] == ParseCapture(labels, re.captures(lines[i]).value)
  {
    assert lines == lines[..i] + [lines[i]] + lines[i + 1..];
    assert MatchingRows(re, labels, [lines[i]]) == RegexRow(re, labels, lines[i]);
    MatchingRowsAppend(re, labels, lines[..i], [lines[i]]);
    MatchingRowsAppend(re, labels, lines[..i] + [lines[i]], lines[i + 1..]);
  }

  /** Rows come out in line order: an earlier matching line's row comes before a later one's. */
  lemma MatchingRowsOrder(re: Regex, labels: seq<string>, lines: seq<string>, i: nat, j: nat)
    requires i < j < |lines| && re.captures(lines[i]).Some?
    ensures |MatchingRows(re, labels, lines[..i])| < |MatchingRows(re, labels, lines[..j])|
  {
    assert lines[..j] == lines[..i] + [lines[i]] + lines[i + 1..j];
    assert MatchingRows(re, labels, [lines[i]]) == RegexRow(re, labels, lines[i]);
    MatchingRowsAppend(re, labels, lines[..i], [lines[i]]);
    MatchingRowsAppend(re, labels, lines[..i] + [lines[i]], lines[i + 1..j]);
  }

  /** `parse_table`: compile the expression (a panic if it does not compile), take its
      labels, and extract one row per matching line of `content`. */
  function ParseTable(compile: string -> Option<Regex>, regex: string, content: string): (r: Result<seq<Row>, Error>)
    ensures r.Failure? <==> compile(regex).None?
    ensures r.Failure? ==> r.error == RegexDoesNotCompile(regex)
    ensures r.Success? ==>
      var labels := GetLabels(compile(regex).value.captureNames);
      && r.value == MatchingRows(compile(regex).value, labels, Lines(content))
      && |r.value| == MatchedLineCount(compile(regex).value, Lines(content))
      && forall k :: 0 <= k < |r.value| ==> |r.value[k]| == |labels|
  {
    match compile(regex)
    case None => Failure(RegexDoesNotCompile(regex))
    case Some(re) =>
      MatchingRowsCount(re, GetLabels(re.captureNames), Lines(content));
      Success(MatchingRows(re, GetLabels(re.captureNames), Lines(content)))
  }

  // ---------------------------------------------------------------- rendering

  /** A cell of the printed grid. */
  datatype Cell = Cell(content: string)

  /** The printed grid, as rows of cells; layout and borders are not modelled. */
  type AsciiTable = seq<seq<Cell>>

  function IntoCells(row: Row): (cells: seq<Cell>)
    ensures |cells| == |row|
    ensures forall j :: 0 <= j < |row| ==> cells[j].content == row[j]
  {
    if |row| == 0 then [] else IntoCells(row[..|row| - 1]) + [Cell(row[|row| - 1])]
  }

  /** `into_ascii_table`: one grid row per data row, in order; the grid holds only the data rows. */
  function IntoAsciiTable(table: seq<Row>): (grid: AsciiTable)
    ensures |grid| == |table|
    ensures forall i :: 0 <= i < |table| ==>
              |grid[i]| == |table[i]| && forall j :: 0 <= j < |table[i]| ==> grid[i][j].content == table[i][j]
  {
    if |table| == 0 then [] else IntoAsciiTable(table[..|table| - 1]) + [IntoCells(table[|table| - 1])]
  }

  /** The text a grid shows, cell by cell. */
  function Contents(grid: AsciiTable): seq<Row> {
    seq(|grid|, i requires 0 <= i < |grid| => seq(|grid[i]|, j requires 0 <= j < |grid[i]| => grid[i][j].content))
  }

  /** The grid shows exactly the extracted rows, and any grid is the rendering of what it shows. */
  lemma AsciiTableRoundTrip(table: seq<Row>, grid: AsciiTable)
    ensures Contents(IntoAsciiTable(table)) == table
    ensures IntoAsciiTable(Contents(grid)) == grid
  {
    var t := IntoAsciiTable(table);
    forall i | 0 <= i < |table|
      ensures Contents(t)[i] == table[i]
    {
    }
    var g := IntoAsciiTable(Contents(grid));
    forall i | 0 <= i < |grid|
      ensures g[i] == grid[i]
    {
      assert |g[i]| == |grid[i]|;
      forall j | 0 <= j < |grid[i]|
        ensures g[i][j] == grid[i][j]
      {
        assert g[i][j].content == grid[i][j].content;
      }
    }
  }

  // ---------------------------------------------------------------- configuration

  const XdgConfigHome: string := "XDG_CONFIG_HOME"
  const Home: string := "HOME"
  const ConfigFile: string := "tablex/config.toml"

  /** `PathBuf::join` of a relative path: a `/` goes in between unless `base` is empty
      or already ends with one. */
  function JoinPath(base: string, rel: string): (path: string)
    ensures |base| <= |path| && path[..|base|] == base
    ensures |rel| <= |path| && path[|path| - |rel|..] == rel
    ensures |path| == |base| + |rel| <==> (|base| == 0 || base[|base| - 1] == '/')
    ensures |path| != |base| + |rel| ==> |path| == |base| + 1 + |rel| && path[|base|] == '/'
  {
    if |base| == 0 || base[|base| - 1] == '/' then base + rel else base + "/" + rel
  }

  /** `get_config_path`: `tablex/config.toml` under `XDG_CONFIG_HOME` when that is set,
      otherwise under `HOME`; a panic when neither is. */
  function ConfigPath(env: map<string, string>): (r: Result<string, Error>)
    ensures r.Success? <==> XdgConfigHome in env || Home in env
    ensures r.Failure? ==> r.error == NoHomeVariable
    ensures XdgConfigHome in env ==>
      |env[XdgConfigHome]| <= |r.value| && r.value[..|env[XdgConfigHome]|] == env[XdgConfigHome]
    ensures XdgConfigHome !in env && Home in env ==>
      |env[Home]| <= |r.value| && r.value[..|env[Home]|] == env[Home]
    ensures r.Success? ==> |ConfigFile| <= |r.value| && r.value[|r.value| - |ConfigFile|..] == ConfigFile
    ensures r.Success? ==>
      r.value == JoinPath(if XdgConfigHome in env then env[XdgConfigHome] else env[Home], ConfigFile)
  {
    if XdgConfigHome in env then Success(JoinPath(env[XdgConfigHome], ConfigFile))
    else if Home in env then Success(JoinPath(env[Home], ConfigFile))
    else Failure(NoHomeVariable)
  }

  /** Once `XDG_CONFIG_HOME` is set, `HOME` plays no part. */
  lemma XdgOverridesHome(env: map<string, string>, home: string)
    requires XdgConfigHome in env
    ensures ConfigPath(env) == ConfigPath(env[Home := home]) == ConfigPath(env - {Home})
  {
  }

  /** A view of the configuration file: one expression and the file it is applied to. */
  datatype ViewConfig = ViewConfig(regex: string, file: string)

  /** The `[view]` table of the configuration file, by view name. */
  type Config = map<string, ViewConfig>

  /** `Config::from` at the path `get_config_path` chose; `loadConfig` stands for reading and
      deserialising the file, `None` when either fails. */
  function LoadConfig(env: map<string, string>, loadConfig: string -> Option<Config>): (r: Result<Config, Error>)
    ensures ConfigPath(env).Failure? ==> r == Failure(NoHomeVariable)
    ensures ConfigPath(env).Success? ==>
      (r.Success? <==> loadConfig(ConfigPath(env).value).Some?) &&
      (r.Failure? ==> r.error == ConfigUnreadable(ConfigPath(env).value))
    ensures r.Success? ==> ConfigPath(env).Success? && r.value == loadConfig(ConfigPath(env).value).value
  {
    match ConfigPath(env)
    case Failure(e) => Failure(e)
    case Success(path) =>
      match loadConfig(path)
      case None => Failure(ConfigUnreadable(path))
      case Some(config) => Success(config)
  }

  // ---------------------------------------------------------------- dispatch

  datatype SubCommand = View(name: string)

  /** The parsed command line: an optional expression and input file, and an optional
      `view <name>` subcommand. */
  datatype Cli = Cli(regex: Option<string>, inputFile: Option<string>, cmd: Option<SubCommand>)

  /** Read `file`, extract its rows with `regex`, and render them. */
  function ShowFile(regex: string, file: string, readFile: string -> Option<string>,
                    compile: string -> Option<Regex>): (r: Result<AsciiTable, Error>)
    ensures readFile(file).None? ==> r == Failure(FileUnreadable(file))
    ensures readFile(file).Some? && compile(regex).None? ==> r == Failure(RegexDoesNotCompile(regex))
    ensures r.Success? <==> readFile(file).Some? && compile(regex).Some?
    ensures r.Success? ==>
      var re := compile(regex).value;
      Contents(r.value) == MatchingRows(re, GetLabels(re.captureNames), Lines(readFile(file).value))
  {
    match readFile(file)
    case None => Failure(FileUnreadable(file))
    case Some(content) =>
      match ParseTable(compile, regex, content)
      case Failure(e) => Failure(e)
      case Success(table) =>
        AsciiTableRoundTrip(table, []);
        Success(IntoAsciiTable(table))
  }

  /** What `try_main` reports after showing a file: the grid it printed, or why it stopped. */
  function Printed(shown: Result<AsciiTable, Error>): (r: Result<Option<AsciiTable>, Error>)
    ensures r.Success? <==> shown.Success?
    ensures r.Success? ==> r.value == Some(shown.value)
    ensures r.Failure? ==> r.error == shown.error
  {
    match shown
    case Failure(e) => Failure(e)
    case Success(grid) => Success(Some(grid))
  }

  /** `try_main` of the library: the grid it prints, if any, or why it stopped. A `view`
      subcommand is served from the configuration; otherwise a table is printed only when
      both an expression and an input file were given. */
  function TryMain(env: map<string, string>, loadConfig: string -> Option<Config>,
                   readFile: string -> Option<string>, compile: string -> Option<Regex>,
                   cli: Cli): (r: Result<Option<AsciiTable>, Error>)
    ensures LoadConfig(env, loadConfig).Failure? ==> r == Failure(LoadConfig(env, loadConfig).error)
    ensures r.Success? && r.value.Some? ==>
      cli.cmd.Some? || (cli.regex.Some? && cli.inputFile.Some?)
    ensures (LoadConfig(env, loadConfig).Success? && cli.cmd.None? &&
             (cli.regex.None? || cli.inputFile.None?)) ==> r == Success(None)
    ensures (LoadConfig(env, loadConfig).Success? && cli.cmd.Some? &&
             cli.cmd.value.name !in LoadConfig(env, loadConfig).value) ==>
              r == Failure(NoSuchView(cli.cmd.value.name))
    ensures (LoadConfig(env, loadConfig).Success? && cli.cmd.Some? &&
             cli.cmd.value.name in LoadConfig(env, loadConfig).value) ==>
              var view := LoadConfig(env, loadConfig).value[cli.cmd.value.name];
              r == Printed(ShowFile(view.regex, view.file, readFile, compile))
    ensures (LoadConfig(env, loadConfig).Success? && cli.cmd.None? &&
             cli.regex.Some? && cli.inputFile.Some?) ==>
              r == Printed(ShowFile(cli.regex.value, cli.inputFile.value, readFile, compile))
  {
    match LoadConfig(env, loadConfig)
    case Failure(e) => Failure(e)
    case Success(config) =>
      match cli.cmd
      case Some(View(name)) =>
        if name !in config then Failure(NoSuchView(name))
        else Printed(ShowFile(config[name].regex, config[name].file, readFile, compile))
      case None =>
        if cli.regex.Some? && cli.inputFile.Some? then
          Printed(ShowFile(cli.regex.value, cli.inputFile.value, readFile, compile))
        else Success(None)
  }

  /** A `view` subcommand takes precedence: the positional arguments are then ignored. */
  lemma SubcommandWins(env: map<string, string>, loadConfig: string -> Option<Config>,
                       readFile: string -> Option<string>, compile: string -> Option<Regex>,
                       cli: Cli, regex: Option<string>, inputFile: Option<string>)
    requires cli.cmd.Some?
    ensures TryMain(env, loadConfig, readFile, compile, cli)
         == TryMain(env, loadConfig, readFile, compile, Cli(regex, inputFile, cli.cmd))
  {
  }

  /** In ad-hoc mode with everything in place, the printed grid holds one row per matching
      line of the input file, in line order, with the expression's own labels as columns. */
  lemma AdHocPrintsMatchingLines(env: map<string, string>, loadConfig: string -> Option<Config>,
                                 readFile: string -> Option<string>, compile: string -> Option<Regex>,
                                 regex: string, file: string)
    requires LoadConfig(env, loadConfig).Success?
    requires readFile(file).Some? && compile(regex).Some?
    ensures var r := TryMain(env, loadConfig, readFile, compile, Cli(Some(regex), Some(file), None));
      var re := compile(regex).value;
      && r.Success? && r.value.Some?
      && Contents(r.value.value) == MatchingRows(re, GetLabels(re.captureNames), Lines(readFile(file).value))
  {
  }

  /** `view <name>` shows the named view: its expression applied to its file. The view's file
      is read first, so an unreadable file is reported even if its expression is bad. */
  lemma ViewPrintsNamedView(env: map<string, string>, loadConfig: string -> Option<Config>,
                            readFile: string -> Option<string>, compile: string -> Option<Regex>,
                            cli: Cli, name: string)
    requires LoadConfig(env, loadConfig).Success? && cli.cmd == Some(View(name))
    requires name in LoadConfig(env, loadConfig).value
    ensures var view := LoadConfig(env, loadConfig).value[name];
      var r := TryMain(env, loadConfig, readFile, compile, cli);
      && (readFile(view.file).None? ==> r == Failure(FileUnreadable(view.file)))
      && (readFile(view.file).Some? && compile(view.regex).None? ==> r == Failure(RegexDoesNotCompile(view.regex)))
      && (readFile(view.file).Some? && compile(view.regex).Some? ==>
            var re := compile(view.regex).value;
            && r.Success? && r.value.Some?
            && Contents(r.value.value) == MatchingRows(re, GetLabels(re.captureNames), Lines(readFile(view.file).value)))
  {
  }
}
