# tablex, modelled in Dafny

tablex turns line-oriented text into a table. It applies regular expressions with
named capture groups to each line, and each match becomes a row with one cell per
column label. The repository holds two variants of this engine, and the model covers both:

- **The single-pattern tool** (`src/lib.rs`, module `Tablex`). One expression is
  applied to one file. The columns are the expression's own named groups, in
  declaration order. The expression and file come from the command line (ad-hoc mode)
  or from a named view in `$XDG_CONFIG_HOME/tablex/config.toml`, with `$HOME` as the
  fallback base (the `view <name>` subcommand). The printed grid has one row per
  matching line.
- **The multi-pattern tool** (`src/main.rs`, module `Views`). Every view in
  `./config.toml` is printed, in ascending name order. A view has its own list of
  expressions and its own label list. Its table is a title row holding the view name,
  then the label row, then the data rows. For each line, every expression that matches
  adds a row, in declaration order.

Both variants share these pieces:

- `LineSplit` models Rust's `str::lines`.
- `Patterns` holds the abstract compiled expression, `get_labels`, and the
  match-to-row step (`get_named_capture!` / `parse_capture`).
- `StringOrder` gives the key order in which a `BTreeMap<String, _>` iterates.

The regex engine is abstract. A compiled expression, `Patterns.Regex`, is its list of
capture-group names (`None` for an unnamed group) plus its search of one line. That
search yields the participating named groups of the match, or `None` when nothing
matches. Compiling is a parameter `string -> Option<Regex>`, where `None` means the
expression did not compile. The model takes these as parameters:

- reading a file: `string -> Option<string>`;
- loading the configuration: `string -> Option<Config>`;
- the environment: a `map<string, string>`;
- the parsed command line: a `Cli` value.

Failures are values of `Errors.Error`. `IsPanic()` marks the ones the program reports by
panicking through `expect` instead of returning `Err`.

Points of the code worth knowing when reading the model:

- In `src/main.rs` a line matched by several expressions yields one row per matching
  expression. The inner loop has no `break`.
- The grid `src/lib.rs` prints holds only the data rows.
- The only output of either variant is the prettytable grid.
- `get_config_path` joins `tablex/config.toml` onto the base directory. The
  multi-pattern tool instead reads `./config.toml` from the working directory.

## Model

| member | source | states |
|---|---|---|
| LineSplit.Lines | src/lib.rs:61-62 | no line yielded by `lines()` contains a line feed |
| LineSplit.LinesCons | src/lib.rs:62 | the first line of `a + "\n" + b` is `a` without one trailing `\r`, and the rest are the lines of `b` |
| LineSplit.LinesCount | src/lib.rs:61-62 | the number of lines is the number of line feeds plus one for an unterminated final line: empty content has no lines and a trailing `\n` adds no empty line |
| LineSplit.LinesOfLFTerminated | src/main.rs:54 | lines written each followed by `\n` are split back into exactly those lines (when none holds `\n` or ends with `\r`) |
| LineSplit.LinesOfCRLFTerminated | src/lib.rs:62 | lines written each followed by `\r\n` are split back into exactly those lines: the `\r` of a `\r\n` terminator is removed |
| LineSplit.BareLFStripsFinalCR | src/lib.rs:62 | a bare `\n` after a final `\r` changes the last line: `"a\r"` is the one line `a\r`, but `"a\r\n"` is the one line `a` |
| LineSplit.TrailingTerminatorAddsNoLine | src/lib.rs:62 | appending `\r\n` to content whose last line is unterminated leaves its lines unchanged; so does appending `\n`, provided the content does not end with `\r` |
| StringOrder.SortedKeys | src/main.rs:37 | the keys of the view map are visited each exactly once, in strictly ascending order |
| StringOrder.LeTotal | src/main.rs:37 | `Ord for String`, which orders the keys of a `BTreeMap`, is total: of any two strings one sorts no later than the other |
| StringOrder.LeAntisymmetric | src/main.rs:37 | two strings that each sort no later than the other are equal, so no two keys share a place |
| StringOrder.LeTransitive | src/main.rs:37 | the key order is transitive |
| StringOrder.Least | src/main.rs:37 | the first key a `BTreeMap` yields is one no other key sorts before |
| Patterns.GetLabels | src/lib.rs:29-35 | the labels are exactly the names of the named groups; unnamed groups are dropped, so there are as many labels as groups that are not `None` |
| Patterns.GetLabelsAppend | src/lib.rs:29-35 | labels of consecutive runs of groups are the labels of each run, concatenated |
| Patterns.GetLabelsAt | src/lib.rs:29-35 | the named group at position i supplies the label at its column, the number of labels before it |
| Patterns.GetLabelsOrder | src/lib.rs:29-35 | labels keep declaration order: a named group gets an earlier column than every later one |
| Patterns.NamedCapture | src/lib.rs:36-41 | `get_named_capture!` (also written inline at `src/main.rs:62`): a label whose group took part in the match gives the captured text; the cell is empty exactly when the group did not take part or captured the empty string |
| Patterns.ParseCapture | src/lib.rs:51-56 | a row has one cell per label; cell k is the text captured by group `labels[k]` if it took part in the match, and `""` otherwise, never an error |
| Patterns.UnnamedLabelIsEmpty | src/lib.rs:36-41 | a label that is not a group of the expression yields `""` in every row that expression produces |
| Patterns.RegexRow | src/main.rs:57-65 | one expression adds exactly one row of label width for a line it matches and none for a line it does not match |
| Tablex.MatchingRows | src/lib.rs:61-66 | every extracted row is as wide as the label list |
| Tablex.MatchingRowsCount | src/lib.rs:61-66 | the number of rows equals the number of lines the expression matches; other lines are skipped |
| Tablex.MatchingRowsAppend | src/lib.rs:61-66 | rows of a concatenation of line blocks are the rows of each block, concatenated |
| Tablex.MatchingRowAt | src/lib.rs:61-66 | the row of a matching line holds that line's captures in label order, and sits right after the rows of all earlier lines |
| Tablex.MatchingRowsOrder | src/lib.rs:61-66 | rows keep the relative order of their source lines: an earlier matching line's row comes before a later one's |
| Tablex.ParseTable | src/lib.rs:58-68 | a non-compiling expression stops the run, and is the only failure; otherwise the rows are exactly the extracted rows of the matching lines, in line order (`MatchingRows`), one per matching line, each as wide as the expression's label list |
| Tablex.IntoCells | src/lib.rs:75-78 | a grid row has exactly the cells of its data row, in order |
| Tablex.IntoAsciiTable | src/lib.rs:70-80 | one grid row per data row, in order, each holding that row's cells; the grid holds only the data rows |
| Tablex.AsciiTableRoundTrip | src/lib.rs:73-80 | the grid shows exactly the extracted table, and every grid renders what it shows |
| Tablex.JoinPath | src/lib.rs:48 | the joined path is the base, then a `/` unless the base is empty or ends with one, then the relative path |
| Tablex.ConfigPath | src/lib.rs:43-49 | the path is `JoinPath(base, "tablex/config.toml")`, where the base is `XDG_CONFIG_HOME` when set and `HOME` otherwise; neither set is fatal |
| Tablex.XdgOverridesHome | src/lib.rs:44-47 | once `XDG_CONFIG_HOME` is set, the value or absence of `HOME` does not change the path |
| Tablex.LoadConfig | src/lib.rs:85-86 | the configuration returned is the one loaded from the path `get_config_path` chose; a missing base directory is fatal; a file that cannot be loaded is an error (tagged in the model with that path) |
| Tablex.ShowFile | src/lib.rs:98-100 | an unreadable input file fails before compiling; the call succeeds exactly when the file is readable and the expression compiles, and the printed grid then shows the expression's rows of the file's lines |
| Tablex.TryMain | src/lib.rs:84-118 | configuration failures come first; a missing view name is fatal; `view <name>` shows the named view's expression on its file; without a subcommand the expression is shown on the file when both are given, and otherwise nothing is printed |
| Tablex.SubcommandWins | src/lib.rs:90-116 | with a `view` subcommand the positional expression and file do not affect the outcome |
| Tablex.ViewPrintsNamedView | src/lib.rs:93-100 | `view <name>` for a configured view reads the view's file (an unreadable file is reported first), then compiles its expression (reported when bad), and otherwise prints the file's matching lines as rows |
| Tablex.AdHocPrintsMatchingLines | src/lib.rs:107-110 | with both arguments, a loadable configuration, a readable file and a compiling expression, the printed grid is the file's matching lines as rows |
| Views.CompileAll | src/main.rs:40-44 | expressions compile in declaration order into a list of the same length; the first one that fails is reported, and all before it compiled |
| Views.LineRows | src/main.rs:56-67 | every row a line yields has as many cells as there are declared labels |
| Views.LineRowsCount | src/main.rs:56-67 | a line yields one row per matching expression, with no cap at one |
| Views.UnmatchedLineYieldsNothing | src/main.rs:57 | a line that no expression matches yields no rows |
| Views.LineRowsAppend | src/main.rs:56-67 | expressions listed one after another contribute their rows in list order |
| Views.DataRows | src/main.rs:54-69 | every data row has as many cells as there are declared labels |
| Views.DataRowsCount | src/main.rs:54-69 | the number of data rows is the number of matching expressions, summed over the lines |
| Views.DataRowsAppend | src/main.rs:54-69 | rows of consecutive line blocks are the rows of each block, concatenated |
| Views.DataRowAt | src/main.rs:59-65 | the row for line i and matching expression j holds, in label order, that match's groups, with `""` for each label that is not a participating group |
| Views.DataRowOrder | src/main.rs:54-56 | data rows are ordered by line first and then by expression declaration order within a line |
| Views.SingleRegexAgrees | src/main.rs:54-67 | a view with one expression extracts exactly the rows the single-pattern `parse_table` extracts |
| Views.ViewTable | src/main.rs:46-69 | a view's table is a one-cell title row with the view name, then the declared labels, then the data rows of its content (`DataRows`): one label-wide row per matching (line, expression) pair |
| Views.RenderView | src/main.rs:38-69 | the input file is read before any expression is compiled; the view renders exactly when the file is readable and every expression compiles; the failure names the first expression that does not compile; a rendered table's data rows are those of the compiled expressions on the file's lines |
| Views.PrintViews | src/main.rs:37-71 | views are rendered in the given order; each printed table is its view's rendering; the run stops at the first view that fails, and that view is the one after the last printed |
| Views.TitlesAscending | src/main.rs:37 | tables rendered for strictly ascending view names carry one-cell title rows that strictly ascend |
| Views.TryMain | src/main.rs:29-74 | an unreadable `./config.toml` stops the run with nothing printed; views are printed in strictly ascending name order; the run stops at the first failing view, and the tables already printed stay printed |

## Left out

- The regex engine (`Regex::new`, `captures`, `capture_names`) is library code. The model keeps it abstract. `Patterns.WellFormed` states the two guarantees the model relies on: group 0 is unnamed, and a match reports only groups the expression names.
- Grid layout, borders and `printstd` are rendering. A printed table is only its rows of cells.
- TOML deserialisation, file reads and the environment are I/O and are passed in as parameters. `env::var` failing on a value that is not valid Unicode is not modelled, because a Dafny string is always valid Unicode.
- Error payloads: `ConfigUnreadable(path)`, `FileUnreadable(path)` and `NoSuchView(name)` carry a path or a name as tags of the model. The program's own `io::Error` from `read_to_string` (`src/lib.rs:98`, `src/lib.rs:108`, `src/lib.rs:131`, `src/main.rs:32`, `src/main.rs:38`) does not name the path, and the panic at `src/lib.rs:96` does not name the view. The model promises only which kind of failure occurs and where.
- Tablex.JoinPath: models `PathBuf::join` on Unix, with `/` as the separator. On Windows the separator inserted is `\`, and a base that ends with `\` gets none; that form is not modelled.
- Command-line parsing by structopt is left out. The model takes a parsed `Cli`.
- The debug print of the configuration (`src/main.rs:34`) is left out. So are `main`'s error printing and exit status (`src/main.rs:21-26`). These are output only.
- The commented-out `RegexTable` and its rayon `par_lines` (`src/lib.rs:136-175`) are dead code.
- LineSplit.Lines: a lone `\r` at the very end of unterminated content is kept, as current Rust's `str::lines` does. Rust releases before 1.77 dropped it.
