/** The body of the comment the handler posts back on the pull request: the
    generated snippet in a fenced code block, followed by a sentence naming the
    line range and the file it answers. */
module ReviewReply {
  import opened Text

  /** The sentence that introduces the suggestion, with the blank line after it. */
  const Intro: string := "Here's the suggested update for the code snippet based on the review comment:\n\n"

  /** The generated snippet in a fenced code block. */
  function Quote(updatedSnippet: string): string {
    "```\n" + updatedSnippet + "\n```"
  }

  /** `${startLine + 1}-${endLine}`: the 0-based half-open selection printed as a
      1-based inclusive range. */
  function LineRange(startLine: int, endLine: int): (r: string)
    ensures |r| >= 3
  {
    IntToDecimal(startLine + 1) + "-" + IntToDecimal(endLine)
  }

  /** The reference to the commented lines, given their printed range. */
  function RangeClause(range: string): string {
    "lines " + range
  }

  /** The reference to the commented file, as inline code. */
  function FileClause(path: string): string {
    "`" + path + "`"
  }

  /** The words that lead up to the line range. */
  const RangeLead: string := "This update addresses the comment on "

  /** The words that lead up to the file. */
  const FileLead: string := " of the file "

  /** The end of the closing sentence: the file and the final period. */
  function FileTail(path: string): string {
    FileLead + FileClause(path) + "."
  }

  /** The closing sentence naming the lines and the file. */
  function Reference(range: string, path: string): string {
    RangeLead + RangeClause(range) + FileTail(path)
  }

  /** Everything before the closing sentence: the introduction, the quoted
      snippet and a blank line. */
  function Head(updatedSnippet: string): string {
    Intro + Quote(updatedSnippet) + "\n\n"
  }

  /** The comment body for the generated snippet, the printed line range
      (`LineRange` of the clamped bounds) and the path. */
  function Body(updatedSnippet: string, range: string, path: string): string
  {
    Head(updatedSnippet) + Reference(range, path)
  }

  /** The body quotes the generated snippet between an opening and a closing
      fence, right after the introduction. */
  lemma BodyQuotesSnippet(updatedSnippet: string, range: string, path: string)
    ensures IsInfixAt(Quote(updatedSnippet), Body(updatedSnippet, range, path), |Intro|)
  {
    var quoted := Quote(updatedSnippet);
    InfixAfter(Intro, quoted);
    InfixExtend(quoted, Intro + quoted, |Intro|, "\n\n");
    InfixExtend(quoted, Head(updatedSnippet), |Intro|, Reference(range, path));
  }

  /** The closing sentence names the file just before its final period. */
  lemma ReferenceNamesFile(range: string, path: string)
    ensures var reference := Reference(range, path);
      IsInfixAt(FileClause(path), reference, |reference| - |FileClause(path)| - 1)
  {
    InfixBeforeLast(RangeLead + RangeClause(range), FileLead, FileClause(path), ".");
  }

  /** The body names the file, between backquotes, just before its final period. */
  lemma BodyNamesFile(updatedSnippet: string, range: string, path: string)
    ensures var body := Body(updatedSnippet, range, path);
      IsInfixAt(FileClause(path), body, |body| - |FileClause(path)| - 1)
  {
    ReferenceNamesFile(range, path);
    InfixShiftFromEnd(FileClause(path), Reference(range, path), 1, Head(updatedSnippet));
  }

  /** The body states the line range, after the quoted snippet. */
  lemma BodyStatesRange(updatedSnippet: string, range: string, path: string)
    ensures IsInfixAt(RangeClause(range), Body(updatedSnippet, range, path),
                      |Head(updatedSnippet)| + |RangeLead|)
  {
    var clause := RangeClause(range);
    InfixAfter(RangeLead, clause);
    InfixExtend(clause, RangeLead + clause, |RangeLead|, FileTail(path));
    InfixShift(clause, Reference(range, path), |RangeLead|, Head(updatedSnippet));
  }

  /** Any body of the template quotes its snippet, names its file and states
      its range, each at a fixed place. */
  lemma BodyLayout(body: string, updatedSnippet: string, range: string, path: string)
    requires body == Body(updatedSnippet, range, path)
    ensures IsInfixAt(Quote(updatedSnippet), body, |Intro|)
    ensures IsInfixAt(FileClause(path), body, |body| - |FileClause(path)| - 1)
    ensures IsInfixAt(RangeClause(range), body, |Head(updatedSnippet)| + |RangeLead|)
  {
    BodyQuotesSnippet(updatedSnippet, range, path);
    BodyNamesFile(updatedSnippet, range, path);
    BodyStatesRange(updatedSnippet, range, path);
  }

  /** Two bodies for the same range and file are equal only when the generated
      snippets are: the posted comment determines the snippet it carries. */
  lemma BodyDeterminesSnippet(u1: string, u2: string, range: string, path: string)
    requires Body(u1, range, path) == Body(u2, range, path)
    ensures u1 == u2
  {
    CancelRight(Head(u1), Head(u2), Reference(range, path));
    CancelRight(Intro + Quote(u1), Intro + Quote(u2), "\n\n");
    CancelLeft(Intro, Quote(u1), Quote(u2));
    CancelRight("```\n" + u1, "```\n" + u2, "\n```");
    CancelLeft("```\n", u1, u2);
  }

  /** For a non-negative `startLine` the printed range reads back unambiguously:
      the first `-` separates the numeral of `startLine + 1` from that of
      `endLine`. */
  lemma LineRangeReadsBack(startLine: int, endLine: int)
    requires startLine >= 0
    ensures var r := LineRange(startLine, endLine);
      var k := |IntToDecimal(startLine + 1)|;
      && 0 < k < |r| && r[k] == '-'
      && '-' !in r[..k]
      && ParseInt(r[..k]) == startLine + 1
      && ParseInt(r[k + 1..]) == endLine
  {
    var r := LineRange(startLine, endLine);
    var first := IntToDecimal(startLine + 1);
    var k := |first|;
    assert r[..k] == first;
    assert r[k + 1..] == IntToDecimal(endLine);
    IntDecimalRoundTrip(startLine + 1);
    IntDecimalRoundTrip(endLine);
  }
}
