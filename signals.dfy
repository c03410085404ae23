/** `read_last_signal_line` (lib.rs:88-105): the last line of a signal file
    that is not blank.  The file system is replaced by inputs: whether the
    file exists, whether it opens, and what `reader.lines()` yields, one
    entry per line, `None` for a line that fails to read. */
module Signals {
  import opened Text

  /** `line.trim().is_empty()`. */
  predicate IsBlank(line: string) {
    Trim(line) == []
  }

  /** The last line that is not blank, searched from the end. */
  function LastNonBlank(lines: seq<string>): (r: Option<string>)
    ensures r.None? <==> forall k :: 0 <= k < |lines| ==> IsBlank(lines[k])
    ensures r.Some? ==> !IsBlank(r.value) && r.value in lines
  {
    if lines == [] then None
    else if !IsBlank(lines[|lines| - 1]) then Some(lines[|lines| - 1])
    else
      var r := LastNonBlank(lines[..|lines| - 1]);
      assert forall k :: 0 <= k < |lines| - 1 ==> lines[..|lines| - 1][k] == lines[k];
      r
  }

  /** The lines that are not blank, in order. */
  function NonBlank(lines: seq<string>): seq<string> {
    if lines == [] then []
    else if IsBlank(lines[0]) then NonBlank(lines[1..])
    else [lines[0]] + NonBlank(lines[1..])
  }

  lemma {:induction false} NonBlankAppend(lines: seq<string>, line: string)
    ensures NonBlank(lines + [line]) == NonBlank(lines) + (if IsBlank(line) then [] else [line])
  {
    if lines != [] {
      assert (lines + [line])[1..] == lines[1..] + [line];
      NonBlankAppend(lines[1..], line);
    }
  }

  /** The search from the end agrees with keeping the lines that are not
      blank and taking the last of them. */
  lemma {:induction false} LastNonBlankIsLastOfNonBlank(lines: seq<string>)
    ensures LastNonBlank(lines) == if NonBlank(lines) == [] then None else Some(NonBlank(lines)[|NonBlank(lines)| - 1])
  {
    if lines != [] {
      var pre, last := lines[..|lines| - 1], lines[|lines| - 1];
      assert lines == pre + [last];
      NonBlankAppend(pre, last);
      LastNonBlankIsLastOfNonBlank(pre);
    }
  }

  /** Blank lines at the end of the file change nothing. */
  lemma {:induction false} TrailingBlankLinesIgnored(lines: seq<string>, blanks: seq<string>)
    requires forall k :: 0 <= k < |blanks| ==> IsBlank(blanks[k])
    ensures LastNonBlank(lines + blanks) == LastNonBlank(lines)
    decreases |blanks|
  {
    if blanks != [] {
      var n, all := |blanks|, lines + blanks;
      assert all[..|all| - 1] == lines + blanks[..n - 1];
      assert all[|all| - 1] == blanks[n - 1];
      assert IsBlank(all[|all| - 1]);
      assert LastNonBlank(all) == LastNonBlank(all[..|all| - 1]);
      var shorter := blanks[..n - 1];
      assert forall k :: 0 <= k < n - 1 ==> shorter[k] == blanks[k];
      TrailingBlankLinesIgnored(lines, shorter);
    } else {
      assert lines + blanks == lines;
    }
  }

  /** A blank line is one made of white space only. */
  lemma BlankIffWhitespace(line: string)
    ensures IsBlank(line) <==> AllWhitespace(line)
  {
    TrimEmptyIffBlank(line);
  }

  /** Every line was read. */
  predicate AllRead(results: seq<Option<string>>) {
    forall k :: 0 <= k < |results| ==> results[k].Some?
  }

  /** The lines read, when every line was read. */
  function Texts(results: seq<Option<string>>): (r: seq<string>)
    requires AllRead(results)
    ensures |r| == |results|
    ensures forall k :: 0 <= k < |results| ==> Some(r[k]) == results[k]
  {
    if results == [] then []
    else
      assert AllRead(results[..|results| - 1]);
      Texts(results[..|results| - 1]) + [results[|results| - 1].value]
  }

  /** Reading one more line extends the lines read by it. */
  lemma TextsStep(results: seq<Option<string>>, i: int)
    requires 0 <= i < |results| && AllRead(results[..i]) && results[i].Some?
    ensures AllRead(results[..i + 1])
    ensures Texts(results[..i + 1]) == Texts(results[..i]) + [results[i].value]
  {
    assert results[..i + 1][..i] == results[..i];
  }

  /** `read_last_signal_line`: nothing when the file is missing, cannot be
      opened or has a line that cannot be read; otherwise the last line that
      is not blank, untrimmed. */
  method ReadLastSignalLine(fileExists: bool, opens: bool, results: seq<Option<string>>)
    returns (last: Option<string>)
    ensures !fileExists || !opens ==> last == None
    ensures fileExists && opens && !AllRead(results) ==> last == None
    ensures fileExists && opens && AllRead(results) ==> last == LastNonBlank(Texts(results))
  {
    if !fileExists {
      return None;
    }
    if !opens {
      return None;
    }
    var lastLine: Option<string> := None;
    for i := 0 to |results|
      invariant AllRead(results[..i])
      invariant lastLine == LastNonBlank(Texts(results[..i]))
    {
      match results[i] {
        case None =>
          return None;
        case Some(line) =>
          TextsStep(results, i);
          if Trim(line) != [] {
            lastLine := Some(line);
          }
      }
    }
    assert results[..|results|] == results;
    return lastLine;
  }
}
