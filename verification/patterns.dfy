/**
 A compiled regular expression as tablex sees it, and the step both variants
 share: turning one match into one row, a cell per output label.
 The regex engine itself is not modelled; a `Regex` is whatever it compiled.
 */
module Patterns {
  import opened Results

  /** The named groups that took part in a match, with the text each captured. */
  type Captures = map<string, string>

  /** One extracted row: a cell per output label. */
  type Row = seq<string>

  /** A compiled regular expression: its capture-group names in declaration order
      (`None` for an unnamed group), and its search of one line, which yields the
      participating named groups of the leftmost match, or `None` when it finds none. */
  datatype Regex = Regex(captureNames: seq<Option<string>>, captures: string -> Option<Captures>)

  /** What the engine guarantees of a compiled expression: group 0 is the unnamed whole
      match, and a match only reports groups that the expression names. */
  ghost predicate WellFormed(re: Regex) {
    && |re.captureNames| > 0
    && re.captureNames[0] == None
    && forall line :: re.captures(line).Some? ==>
         forall name :: name in re.captures(line).value ==> Some(name) in re.captureNames
  }

  /** The column labels of an expression: its group names with the unnamed groups dropped. */
  function GetLabels(names: seq<Option<string>>): (labels: seq<string>)
    ensures |labels| == |names| - multiset(names)[None]
    ensures forall x :: x in labels <==> Some(x) in names
  {
    if |names| == 0 then []
    else
      assert names == [names[0]] + names[1..];
      LabelOf(names[0]) + GetLabels(names[1..])
  }

  /** The label one capture group contributes: its name, or nothing if it is unnamed. */
  function LabelOf(name: Option<string>): seq<string> {
    match name
    case None => []
    case Some(n) => [n]
  }

  lemma {:induction false} GetLabelsAppend(a: seq<Option<string>>, b: seq<Option<string>>)
    ensures GetLabels(a + b) == GetLabels(a) + GetLabels(b)
  {
    if |a| > 0 {
      var ab := a + b;
      assert ab[0] == a[0] && ab[1..] == a[1..] + b;
      GetLabelsAppend(a[1..], b);
      calc {
        GetLabels(ab);
        LabelOf(a[0]) + GetLabels(a[1..] + b);
        LabelOf(a[0]) + (GetLabels(a[1..]) + GetLabels(b));
        (LabelOf(a[0]) + GetLabels(a[1..])) + GetLabels(b);
        GetLabels(a) + GetLabels(b);
      }
    } else {
      assert a + b == b;
    }
  }

  /** The column a named group at position `i` of `names` ends up in. */
  function LabelColumn(names: seq<Option<string>>, i: nat): nat
    requires i <= |names|
  {
    |GetLabels(names[..i])|
  }

  /** The named group at position `i` is the label at its column. */
  lemma GetLabelsAt(names: seq<Option<string>>, i: nat)
    requires i < |names| && names[i].Some?
    ensures LabelColumn(names, i) < |GetLabels(names)|
    ensures GetLabels(names)[LabelColumn(names, i)] == names[i].value
  {
    var pre, post := names[..i], names[i + 1..];
    assert names == pre + ([names[i]] + post);
    GetLabelsAppend(pre, [names[i]] + post);
    assert GetLabels([names[i]] + post) == [names[i].value] + GetLabels(post) by {
      assert ([names[i]] + post)[1..] == post;
    }
  }

  /** Labels keep declaration order: a later named group gets a later column. */
  lemma GetLabelsOrder(names: seq<Option<string>>, i: nat, j: nat)
    requires i < j <= |names| && names[i].Some?
    ensures LabelColumn(names, i) < LabelColumn(names, j)
  {
    var pre := names[..j];
    assert pre == names[..i] + ([names[i]] + names[i + 1..j]);
    GetLabelsAppend(names[..i], [names[i]] + names[i + 1..j]);
    assert GetLabels([names[i]] + names[i + 1..j]) == [names[i].value] + GetLabels(names[i + 1..j]) by {
      assert ([names[i]] + names[i + 1..j])[1..] == names[i + 1..j];
    }
  }

  /** The cell for label `name` in a match: the captured text if that group took part, otherwise "". */
  function NamedCapture(cap: Captures, name: string): (cell: string)
    ensures name in cap ==> cell == cap[name]
    ensures cell == "" <==> name !in cap || cap[name] == ""
  {
    if name in cap then cap[name] else ""
  }

  /** One row from one match: a cell per label, in label order, never an error. */
  function ParseCapture(labels: seq<string>, cap: Captures): (row: Row)
    ensures |row| == |labels|
    ensures forall k :: 0 <= k < |labels| ==>
              (labels[k] in cap ==> row[k] == cap[labels[k]]) && (labels[k] !in cap ==> row[k] == "")
  {
    if |labels| == 0 then []
    else ParseCapture(labels[..|labels| - 1], cap) + [NamedCapture(cap, labels[|labels| - 1])]
  }

  /** A label the expression does not name gives "" in every row it produces. */
  lemma UnnamedLabelIsEmpty(re: Regex, line: string, labels: seq<string>, k: nat)
    requires WellFormed(re) && re.captures(line).Some?
    requires k < |labels| && Some(labels[k]) !in re.captureNames
    ensures ParseCapture(labels, re.captures(line).value)[k] == ""
  {
  }

  /** The rows one expression contributes for one line: one if it matches, none otherwise. */
  function RegexRow(re: Regex, labels: seq<string>, line: string): (rows: seq<Row>)
    ensures |rows| == (if re.captures(line).Some? then 1 else 0)
    ensures forall k :: 0 <= k < |rows| ==> |rows[k]| == |labels|
  {
    match re.captures(line)
    case None => []
    case Some(cap) => [ParseCapture(labels, cap)]
  }
}
