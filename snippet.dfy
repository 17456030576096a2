/** The snippet extractor of the review-comment handler: the decoded file is cut
    into lines, the comment's 1-based inclusive line range is clamped to a 0-based
    half-open range of those lines, and the selected lines are joined again. */
module Snippet {
  import opened Text

  /** `decodedContent.split("\n")`: the lines of the file. A trailing newline
      yields a trailing empty line. */
  function Lines(content: string): (lines: seq<string>)
    ensures |lines| >= 1
    ensures forall i :: 0 <= i < |lines| ==> '\n' !in lines[i]
    ensures Join(lines, '\n') == content
  {
    JoinSplit(content, '\n');
    Split(content, '\n')
  }

  /** The file has one line more than it has newline characters. */
  lemma LineCount(content: string)
    ensures |Lines(content)| == Count(content, '\n') + 1
  {
    SplitCount(content, '\n');
  }

  /** `Math.max(0, start_line - 1)`: the 0-based index of the first selected line. */
  function StartLine(startLineNumber: int): (lower: int)
    ensures lower >= 0
    ensures lower == 0 <==> startLineNumber <= 1
    ensures lower > 0 ==> lower == startLineNumber - 1
  {
    if 0 > startLineNumber - 1 then 0 else startLineNumber - 1
  }

  /** `Math.min(lines.length, end_line)`: the 0-based index just past the last
      selected line. */
  function EndLine(lineCount: nat, endLineNumber: int): (upper: int)
    ensures upper <= lineCount
    ensures upper == lineCount <==> endLineNumber >= lineCount
    ensures upper < lineCount ==> upper == endLineNumber
  {
    if lineCount < endLineNumber then lineCount else endLineNumber
  }

  /** What the extractor computes for one comment: the file's lines, the clamped
      bounds `startLine` and `endLine`, and the snippet. */
  datatype Extraction = Extraction(lines: seq<string>, startLine: int, endLine: int, snippet: string)

  /** `lines.slice(startLine, endLine).join("\n")` with the bounds above. */
  function Extract(content: string, startLineNumber: int, endLineNumber: int): (x: Extraction)
    ensures x.lines == Lines(content)
    ensures x.startLine == StartLine(startLineNumber) && x.endLine == EndLine(|x.lines|, endLineNumber)
    ensures 0 <= x.startLine && x.endLine <= |x.lines|
    ensures x.startLine < x.endLine ==> x.snippet == Join(x.lines[x.startLine..x.endLine], '\n')
    ensures 0 <= x.endLine <= x.startLine ==> x.snippet == ""
  {
    var lines := Lines(content);
    var lower := StartLine(startLineNumber);
    var upper := EndLine(|lines|, endLineNumber);
    Extraction(lines, lower, upper, Join(Slice(lines, lower, upper), '\n'))
  }

  /** An inverted comment range (`start_line > end_line >= 0`) selects nothing. */
  lemma InvertedRangeIsEmpty(content: string, startLineNumber: int, endLineNumber: int)
    requires startLineNumber > endLineNumber >= 0
    ensures Extract(content, startLineNumber, endLineNumber).snippet == ""
  {
  }

  /** A range that covers every line gives back the whole decoded file. */
  lemma WholeFile(content: string, startLineNumber: int, endLineNumber: int)
    requires startLineNumber <= 1 && endLineNumber >= |Lines(content)|
    ensures Extract(content, startLineNumber, endLineNumber).snippet == content
  {
    var lines := Lines(content);
    assert lines[0..|lines|] == lines;
  }

  /** Splitting a non-empty selection again yields exactly the selected lines. */
  lemma SnippetLines(content: string, startLineNumber: int, endLineNumber: int)
    requires var x := Extract(content, startLineNumber, endLineNumber); x.startLine < x.endLine
    ensures var x := Extract(content, startLineNumber, endLineNumber);
      Split(x.snippet, '\n') == x.lines[x.startLine..x.endLine]
  {
    var x := Extract(content, startLineNumber, endLineNumber);
    var selected := x.lines[x.startLine..x.endLine];
    assert forall i :: 0 <= i < |selected| ==> selected[i] == x.lines[x.startLine + i];
    SplitJoin(selected, '\n');
  }

  /** A negative `end_line` is read by `slice` as counting back from the last
      line, so the selection runs up to `lines.length + end_line`. */
  lemma NegativeEndCountsFromBack(content: string, startLineNumber: int, endLineNumber: int)
    requires endLineNumber < 0
    requires StartLine(startLineNumber) < |Lines(content)| + endLineNumber
    ensures var x := Extract(content, startLineNumber, endLineNumber);
      x.snippet == Join(x.lines[x.startLine..|x.lines| + endLineNumber], '\n')
  {
  }

  /** The joined lines `lines[a..b)` occur verbatim in the joined whole. */
  lemma {:induction false} JoinRangeIsInfix(lines: seq<string>, a: int, b: int)
    requires 0 <= a < b <= |lines|
    ensures exists i :: IsInfixAt(Join(lines[a..b], '\n'), Join(lines, '\n'), i)
  {
    var left, mid, right := lines[..a], lines[a..b], lines[b..];
    assert lines == left + mid + right;
    var m := Join(mid, '\n');
    var whole := Join(lines, '\n');
    // `Join(mid + right)`, the tail of the join that starts where `mid` does
    var tail := Join(mid + right, '\n');
    assert IsInfixAt(m, tail, 0) by {
      if |right| > 0 {
        JoinAppend(mid, right, '\n');
      } else {
        assert mid + right == mid;
      }
    }
    if |left| == 0 {
      assert lines == mid + right;
      assert IsInfixAt(m, whole, 0);
    } else {
      assert lines == left + (mid + right);
      JoinAppend(left, mid + right, '\n');
      var off := |Join(left, '\n')| + 1;
      assert whole == Join(left, '\n') + ['\n'] + tail;
      assert whole[off..off + |m|] == tail[0..|m|];
      assert IsInfixAt(m, whole, off);
    }
  }

  /** Whatever the range, the snippet is a piece of the decoded file, copied
      verbatim. */
  lemma SnippetInFile(content: string, startLineNumber: int, endLineNumber: int)
    ensures exists i :: IsInfixAt(Extract(content, startLineNumber, endLineNumber).snippet, content, i)
  {
    var lines := Lines(content);
    var lower := StartLine(startLineNumber);
    var upper := EndLine(|lines|, endLineNumber);
    var selected := Slice(lines, lower, upper);
    var k :| IsInfixAt(selected, lines, k);
    if |selected| == 0 {
      assert Extract(content, startLineNumber, endLineNumber).snippet == "";
      assert IsInfixAt("", content, 0);
    } else {
      assert selected == lines[k..k + |selected|];
      JoinRangeIsInfix(lines, k, k + |selected|);
      assert Extract(content, startLineNumber, endLineNumber).snippet == Join(selected, '\n');
    }
  }

  /** The worked example: a file of four newline-terminated lines splits into five
      lines, and the comment on lines 2 to 3 selects `"b\nc"`. */
  lemma WorkedExample()
    ensures var x := Extract("a\nb\nc\nd\n", 2, 3);
      |x.lines| == 5 && x.lines[4] == "" && x.startLine == 1 && x.endLine == 3 && x.snippet == "b\nc"
  {
    ExampleLines();
    var lines := ["a", "b", "c", "d", ""];
    assert lines[1..3] == ["b", "c"];
    JoinStep(["b", "c"], '\n');
  }

  /** The lines of the worked example's file. */
  lemma ExampleLines()
    ensures Split("a\nb\nc\nd\n", '\n') == ["a", "b", "c", "d", ""]
  {
    ExampleTailLines();
    SplitLine("b", "c\nd\n", '\n');
    assert "b" + "\n" + "c\nd\n" == "b\nc\nd\n";
    SplitLine("a", "b\nc\nd\n", '\n');
    assert "a" + "\n" + "b\nc\nd\n" == "a\nb\nc\nd\n";
  }

  /** The lines of the last two lines of the worked example's file. */
  lemma ExampleTailLines()
    ensures Split("c\nd\n", '\n') == ["c", "d", ""]
  {
    SplitStep("\n", '\n');
    assert Split("\n", '\n') == ["", ""];
    SplitLine("d", "", '\n');
    assert "d" + "\n" + "" == "d\n";
    SplitLine("c", "d\n", '\n');
    assert "c" + "\n" + "d\n" == "c\nd\n";
  }
}
