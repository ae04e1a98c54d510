/**
 Rust's `str::lines`, which both extraction variants use to cut their input
 into lines. A line ends at a line feed; a carriage return directly before that
 line feed belongs to the terminator and is dropped; the final line needs no
 terminator, and a terminator at the very end does not start an empty line.
 */
module LineSplit {
  import opened Results

  const LF: char := '\n'
  const CR: char := '\r'

  /** Position of the first line feed in `s`, if there is one. */
  function FindLF(s: string): (r: Option<nat>)
    ensures r.Some? ==> r.value < |s| && s[r.value] == LF && LF !in s[..r.value]
    ensures r.None? <==> LF !in s
  {
    if |s| == 0 then None
    else if s[0] == LF then Some(0)
    else
      var rest := FindLF(s[1..]);
      if rest.None? then None
      else
        assert s[..rest.value + 1] == [s[0]] + s[1..][..rest.value];
        Some(rest.value + 1)
  }

  predicate EndsWithCR(s: string) {
    |s| > 0 && s[|s| - 1] == CR
  }

  /** The text of a line whose terminator was a line feed: one `\r` before it is dropped. */
  function StripCR(s: string): string {
    if EndsWithCR(s) then s[..|s| - 1] else s
  }

  /** The lines of `s`, as `str::lines` yields them. */
  function Lines(s: string): (r: seq<string>)
    ensures forall k :: 0 <= k < |r| ==> LF !in r[k]
    decreases |s|
  {
    if |s| == 0 then []
    else match FindLF(s)
      case None => [s]
      case Some(i) =>
        var line := s[..i];
        assert StripCR(line) == line || StripCR(line) == line[..|line| - 1];
        assert |line| > 0 ==> LF !in line[..|line| - 1] by {
          if |line| > 0 {
            assert forall c :: c in line[..|line| - 1] ==> c in line;
          }
        }
        [StripCR(line)] + Lines(s[i + 1..])
  }

  /** Each line followed by `terminator`, concatenated: the text a list of lines is written as. */
  function Terminated(lines: seq<string>, terminator: string): string {
    if |lines| == 0 then [] else lines[0] + terminator + Terminated(lines[1..], terminator)
  }

  /** A line feed after a line-feed-free prefix is the first one. */
  lemma FindLFAfter(a: string, b: string)
    requires LF !in a
    ensures FindLF(a + [LF] + b) == Some(|a|)
  {
    var s := a + [LF] + b;
    assert s[|a|] == LF;
    assert s[..|a|] == a;
    assert forall k :: 0 <= k < |a| ==> s[k] == a[k];
  }

  /** The first line of `a + "\n" + b` is `a` (less a final `\r`); the rest are the lines of `b`. */
  lemma LinesCons(a: string, b: string)
    requires LF !in a
    ensures Lines(a + [LF] + b) == [StripCR(a)] + Lines(b)
  {
    var s := a + [LF] + b;
    FindLFAfter(a, b);
    assert s[..|a|] == a;
    assert s[|a| + 1..] == b;
  }

  /** Content of `n` lines counts `n` line breaks, plus one for an unterminated final line:
      empty content has no lines, and a trailing line feed does not add an empty one. */
  lemma {:induction false} LinesCount(s: string)
    ensures |Lines(s)| == multiset(s)[LF] + (if |s| > 0 && s[|s| - 1] != LF then 1 else 0)
    decreases |s|
  {
    if |s| == 0 {
    } else {
      match FindLF(s)
      case None =>
        assert LF !in multiset(s);
      case Some(i) =>
        var rest := s[i + 1..];
        assert s == s[..i] + [LF] + rest;
        assert multiset(s) == multiset(s[..i]) + multiset([LF]) + multiset(rest);
        assert LF !in multiset(s[..i]);
        LinesCount(rest);
        if |rest| > 0 {
          assert s[|s| - 1] == rest[|rest| - 1];
        }
    }
  }

  /** Lines written with line-feed terminators are read back unchanged, provided no line
      itself holds a line feed or ends with a carriage return. */
  lemma {:induction false} LinesOfLFTerminated(lines: seq<string>)
    requires forall k :: 0 <= k < |lines| ==> LF !in lines[k] && !EndsWithCR(lines[k])
    ensures Lines(Terminated(lines, [LF])) == lines
  {
    if |lines| > 0 {
      LinesCons(lines[0], Terminated(lines[1..], [LF]));
      LinesOfLFTerminated(lines[1..]);
    }
  }

  /** Lines written with `\r\n` terminators are read back unchanged whatever they end with,
      as long as no line itself holds a line feed. */
  lemma {:induction false} LinesOfCRLFTerminated(lines: seq<string>)
    requires forall k :: 0 <= k < |lines| ==> LF !in lines[k]
    ensures Lines(Terminated(lines, [CR, LF])) == lines
  {
    if |lines| > 0 {
      var rest := Terminated(lines[1..], [CR, LF]);
      assert lines[0] + [CR, LF] + rest == (lines[0] + [CR]) + [LF] + rest;
      LinesCons(lines[0] + [CR], rest);
      assert StripCR(lines[0] + [CR]) == lines[0];
      LinesOfCRLFTerminated(lines[1..]);
    }
  }

  /** Cutting `s` (and `s` extended by `t`) around the line feed at `i`. */
  lemma SplitAt(s: string, t: string, i: nat)
    requires i < |s| - 1 && s[i] == LF
    ensures s == s[..i] + [LF] + s[i + 1..]
    ensures s + t == s[..i] + [LF] + (s[i + 1..] + t)
    ensures |s[i + 1..]| > 0 && s[i + 1..][|s[i + 1..]| - 1] == s[|s| - 1]
  {
  }

  /** Terminating a single unterminated line does not change it. A bare `\n` would strip a
      final `\r` of the line, so it needs a line that does not end with one. */
  lemma TerminateLastLine(s: string, terminator: string)
    requires terminator == [LF] || terminator == [CR, LF]
    requires LF !in s && |s| > 0 && (terminator == [LF] ==> !EndsWithCR(s))
    ensures Lines(s + terminator) == [s] == Lines(s)
  {
    if terminator == [LF] {
      assert s + terminator == s + [LF] + [];
      LinesCons(s, []);
    } else {
      assert s + terminator == (s + [CR]) + [LF] + [];
      LinesCons(s + [CR], []);
      assert StripCR(s + [CR]) == s;
    }
  }

  /** A bare `\n` after a final `\r` does change the last line: the `\r` becomes part of
      its terminator. */
  lemma BareLFStripsFinalCR(s: string)
    requires LF !in s && EndsWithCR(s)
    ensures Lines(s) == [s]
    ensures Lines(s + [LF]) == [s[..|s| - 1]]
  {
  }

  /** Ending the last line with `\r\n` does not change the lines, nor does ending it with `\n`
      when it does not end with `\r` (`"a\r"` is one line `a\r`, but `"a\r\n"` is one line `a`). */
  lemma {:induction false} TrailingTerminatorAddsNoLine(s: string, terminator: string)
    requires terminator == [LF] || terminator == [CR, LF]
    requires |s| > 0 && s[|s| - 1] != LF && (terminator == [LF] ==> s[|s| - 1] != CR)
    ensures Lines(s + terminator) == Lines(s)
    decreases |s|
  {
    if LF !in s {
      TerminateLastLine(s, terminator);
    } else {
      var i := FindLF(s).value;
      var a, rest := s[..i], s[i + 1..];
      SplitAt(s, terminator, i);
      TrailingTerminatorAddsNoLine(rest, terminator);
      calc {
        Lines(s + terminator);
        { LinesCons(a, rest + terminator); }
        [StripCR(a)] + Lines(rest + terminator);
        [StripCR(a)] + Lines(rest);
        { LinesCons(a, rest); }
        Lines(s);
      }
    }
  }
}
