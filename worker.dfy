/** The Worker's request pipeline: the `fetch` entry point checks the HTTP method,
    hands the delivery to the webhook library for signature verification and
    dispatch, and answers 200 or 500 depending on whether anything threw; the
    review-comment handler fetches the commented file, asks the completion API
    for an updated snippet, and posts it back as a comment.

    Every network call is an oracle (`Call`) fixed in advance, and the calls the
    pipeline makes are recorded, in order, as an effect trace. */
module Worker {
  import opened Text
  import Snippet
  import ReviewReply

  /** An awaited call into a library or over the network: it returns a value or
      it throws. */
  datatype Call<T> = Returns(value: T) | Throws

  /** The fields of the review comment the handler reads. */
  datatype Comment = Comment(body: string, path: string, startLine: int, endLine: int)

  /** The fields of the pull request the handler reads: its number, the head
      commit, and the owner and name of the base repository. */
  datatype PullRequest = PullRequest(number: int, headSha: string, owner: string, repo: string)

  /** The parts of a `pull_request_review_comment` payload the handler uses. */
  datatype Payload = Payload(comment: Comment, pullRequest: PullRequest, installationId: int)

  /** What the webhook library makes of a delivery: it rejects it (the signature
      does not match or is absent), or it accepts it as a
      `pull_request_review_comment.created` event, the one event with a handler,
      or as any other event, which has none. */
  datatype Delivery = Rejected | ReviewCommentCreated(payload: Payload) | OtherEvent

  /** An inbound request: its HTTP method and what verification makes of it. */
  datatype Request = Request(httpMethod: string, delivery: Delivery)

  /** The `data` of a content response: a file with a `content` field (already
      decoded from base64 to text), or anything without one (a directory, a
      submodule, a file too large to inline). */
  datatype FileData = WithContent(decoded: string) | WithoutContent

  /** A content block of a completion response. */
  datatype Block = TextBlock(text: string) | OtherBlock

  /** What each outside call does for this request: the installation token
      exchange, the content fetch, the completion request and the comment post. */
  datatype Collaborators = Collaborators(
    installation: Call<()>,
    getContent: Call<FileData>,
    createMessage: Call<seq<Block>>,
    createComment: Call<()>)

  /** A call the handler makes on an outside service, with its arguments. */
  datatype Effect =
    | GetContent(owner: string, repo: string, path: string, ref: string)
    | CreateMessage(model: string, maxTokens: nat, fileContent: string, snippet: string, reviewComment: string)
    | CreateComment(owner: string, repo: string, issueNumber: int, body: string)

  /** The HTTP response: a status and its text. */
  datatype Response = Response(status: int, text: string)

  /** The completion model the handler asks. */
  const Model: string := "claude-3-opus-20240229"

  /** The token budget of a completion request. */
  const MaxTokens: nat := 1000

  /** The position of an effect in the pipeline. */
  function Stage(e: Effect): nat {
    match e
    case GetContent(_, _, _, _) => 0
    case CreateMessage(_, _, _, _, _) => 1
    case CreateComment(_, _, _, _) => 2
  }

  /** The trace is a prefix of fetch, then complete, then post. */
  predicate InOrder(trace: seq<Effect>) {
    |trace| <= 3 && forall i :: 0 <= i < |trace| ==> Stage(trace[i]) == i
  }

  /** True when the trace posts a comment. */
  predicate Posts(trace: seq<Effect>) {
    exists i :: 0 <= i < |trace| && trace[i].CreateComment?
  }

  /** The first block of a completion response is text. */
  predicate StartsWithText(blocks: seq<Block>) {
    |blocks| > 0 && blocks[0].TextBlock?
  }

  /** What the review-comment handler does on a payload, with the collaborators
      `c`: how far it gets and with which arguments it calls each service. */
  predicate Handles(p: Payload, c: Collaborators, trace: seq<Effect>) {
    var comment, pr := p.comment, p.pullRequest;
    && InOrder(trace)
    && (|trace| >= 1 <==> c.installation.Returns?)
    && (|trace| >= 2 <==> c.installation.Returns? && c.getContent.Returns? && c.getContent.value.WithContent?)
    && (|trace| == 3 <==> |trace| >= 2 && c.createMessage.Returns? && StartsWithText(c.createMessage.value))
    && (|trace| >= 1 ==> trace[0] == GetContent(pr.owner, pr.repo, comment.path, pr.headSha))
    && (|trace| >= 2 ==>
          var decoded := c.getContent.value.decoded;
          trace[1] == CreateMessage(Model, MaxTokens, decoded,
                                    Snippet.Extract(decoded, comment.startLine, comment.endLine).snippet, comment.body))
    && (|trace| == 3 ==>
          var x := Snippet.Extract(c.getContent.value.decoded, comment.startLine, comment.endLine);
          trace[2] == CreateComment(pr.owner, pr.repo, pr.number,
                                    ReviewReply.Body(Trim(c.createMessage.value[0].text), ReviewReply.LineRange(x.startLine, x.endLine), comment.path)))
  }

  /** The handler throws: a call it made threw, or the completion response had
      no first block to read. */
  predicate Fails(c: Collaborators, trace: seq<Effect>) {
    || c.installation.Throws?
    || (|trace| == 1 && c.getContent.Throws?)
    || (|trace| == 2 && (c.createMessage.Throws? || |c.createMessage.value| == 0))
    || (|trace| == 3 && c.createComment.Throws?)
  }

  /** `handlePullRequestReviewComment`: returns whether it threw, and the calls it
      made. */
  method HandleReviewComment(p: Payload, c: Collaborators) returns (threw: bool, trace: seq<Effect>)
    ensures Handles(p, c, trace)
    ensures threw <==> Fails(c, trace)
  {
    trace := [];
    if c.installation.Throws? {
      return true, trace;
    }
    var comment, pullRequest := p.comment, p.pullRequest;
    var fetch := GetContent(pullRequest.owner, pullRequest.repo, comment.path, pullRequest.headSha);
    trace := [fetch];
    if c.getContent.Throws? {
      return true, trace;
    }
    if c.getContent.value.WithoutContent? {
      // "Unable to fetch file content": give up without an error
      return false, trace;
    }
    var decodedContent := c.getContent.value.decoded;
    var x := Snippet.Extract(decodedContent, comment.startLine, comment.endLine);
    var complete := CreateMessage(Model, MaxTokens, decodedContent, x.snippet, comment.body);
    trace := [fetch, complete];
    if c.createMessage.Throws? {
      return true, trace;
    }
    var content := c.createMessage.value;
    if |content| == 0 {
      // reading the type of a missing first block throws
      return true, trace;
    }
    var updatedSnippet := "";
    if content[0].TextBlock? {
      updatedSnippet := Trim(content[0].text);
    } else {
      // "Unexpected response type": give up without an error
      return false, trace;
    }
    var body := ReviewReply.Body(updatedSnippet, ReviewReply.LineRange(x.startLine, x.endLine), comment.path);
    trace := [fetch, complete, CreateComment(pullRequest.owner, pullRequest.repo, pullRequest.number, body)];
    threw := c.createComment.Throws?;
  }

  /** The Worker's `fetch`: the response to a request, whether the delivery was
      handed to signature verification, and the calls made while answering it. */
  method Fetch(request: Request, c: Collaborators) returns (response: Response, verified: bool, trace: seq<Effect>)
    ensures request.httpMethod != "POST" ==> response == Response(405, "Method Not Allowed") && trace == []
    ensures verified <==> request.httpMethod == "POST"
    ensures request.httpMethod == "POST" ==> response.status == 200 || response.status == 500
    ensures response.status == 200 ==> response.text == "Webhook processed successfully"
    ensures response.status == 500 ==> response.text == "Error processing webhook"
    ensures InOrder(trace)
    ensures !request.delivery.ReviewCommentCreated? ==> trace == []
    ensures request.httpMethod == "POST" && request.delivery.Rejected? ==> response.status == 500
    ensures request.httpMethod == "POST" && request.delivery.OtherEvent? ==> response.status == 200
    ensures request.httpMethod == "POST" && request.delivery.ReviewCommentCreated? ==>
      && Handles(request.delivery.payload, c, trace)
      && (response.status == 500 <==> Fails(c, trace))
    ensures Posts(trace) ==>
      && c.getContent.Returns? && c.getContent.value.WithContent?
      && c.createMessage.Returns? && StartsWithText(c.createMessage.value)
  {
    if request.httpMethod != "POST" {
      return Response(405, "Method Not Allowed"), false, [];
    }
    verified := true;
    var threw := false;
    trace := [];
    match request.delivery {
      case Rejected =>
        threw := true;
      case OtherEvent =>
      case ReviewCommentCreated(payload) =>
        threw, trace := HandleReviewComment(payload, c);
    }
    if threw {
      response := Response(500, "Error processing webhook");
    } else {
      response := Response(200, "Webhook processed successfully");
    }
  }

  /** A comment is posted at most once, and only as the last call, after the
      content fetch and the completion request. */
  lemma PostIsLast(trace: seq<Effect>)
    requires InOrder(trace)
    ensures forall i :: 0 <= i < |trace| && trace[i].CreateComment? ==>
      i == |trace| - 1 && trace[0].GetContent? && trace[1].CreateMessage?
  {
  }

  /** When the file has no `content`, nothing is asked of the completion API,
      nothing is posted and the request succeeds. */
  lemma MissingContentIsSilent(p: Payload, c: Collaborators, trace: seq<Effect>)
    requires Handles(p, c, trace)
    requires c.installation.Returns? && c.getContent == Returns(WithoutContent)
    ensures trace == [GetContent(p.pullRequest.owner, p.pullRequest.repo, p.comment.path, p.pullRequest.headSha)]
    ensures !Fails(c, trace)
  {
  }

  /** When the first block of the completion is not text, nothing is posted and
      the request succeeds. */
  lemma NonTextCompletionIsSilent(p: Payload, c: Collaborators, trace: seq<Effect>)
    requires Handles(p, c, trace)
    requires c.installation.Returns? && c.getContent.Returns? && c.getContent.value.WithContent?
    requires c.createMessage.Returns? && |c.createMessage.value| > 0 && c.createMessage.value[0].OtherBlock?
    ensures |trace| == 2 && !Posts(trace)
    ensures !Fails(c, trace)
  {
  }

  /** The posted comment quotes the trimmed completion text between fences,
      names the commented file, and states the clamped line range. */
  lemma PostedComment(p: Payload, c: Collaborators, trace: seq<Effect>)
    requires Handles(p, c, trace) && |trace| == 3
    ensures var x := Snippet.Extract(c.getContent.value.decoded, p.comment.startLine, p.comment.endLine);
      var updated := Trim(c.createMessage.value[0].text);
      var body := trace[2].body;
      && IsInfixAt(ReviewReply.Quote(updated), body, |ReviewReply.Intro|)
      && IsInfixAt(ReviewReply.FileClause(p.comment.path), body, |body| - |ReviewReply.FileClause(p.comment.path)| - 1)
      && IsInfixAt(ReviewReply.RangeClause(ReviewReply.LineRange(x.startLine, x.endLine)), body,
                   |ReviewReply.Head(updated)| + |ReviewReply.RangeLead|)
  {
    var x := Snippet.Extract(c.getContent.value.decoded, p.comment.startLine, p.comment.endLine);
    var updated := Trim(c.createMessage.value[0].text);
    ReviewReply.BodyLayout(trace[2].body, updated, ReviewReply.LineRange(x.startLine, x.endLine), p.comment.path);
  }

  /** The clamped bounds of any comment on any file print as a range whose two
      numerals read back as the first selected line (1-based) and the bound
      past the last. */
  lemma ClampedRangeReadsBack(content: string, startLineNumber: int, endLineNumber: int)
    ensures var x := Snippet.Extract(content, startLineNumber, endLineNumber);
      var range := ReviewReply.LineRange(x.startLine, x.endLine);
      var k := |IntToDecimal(x.startLine + 1)|;
      && x.startLine + 1 >= 1 && x.endLine <= |x.lines|
      && 0 < k < |range| && range[k] == '-'
      && ParseInt(range[..k]) == x.startLine + 1 && ParseInt(range[k + 1..]) == x.endLine
  {
    var x := Snippet.Extract(content, startLineNumber, endLineNumber);
    ReviewReply.LineRangeReadsBack(x.startLine, x.endLine);
  }

  /** End to end: a verified review-comment delivery whose file has content and
      whose completion starts with text, with every call returning, succeeds and
      posts exactly one comment on the pull request, quoting the trimmed
      completion and naming the commented file. */
  method EndToEnd(p: Payload, file: string, text: string) returns (response: Response, trace: seq<Effect>)
    ensures response == Response(200, "Webhook processed successfully")
    ensures |trace| == 3 && Posts(trace)
    ensures forall i :: 0 <= i < |trace| && trace[i].CreateComment? ==> i == 2
    ensures trace[2].issueNumber == p.pullRequest.number
    ensures IsInfixAt(ReviewReply.Quote(Trim(text)), trace[2].body, |ReviewReply.Intro|)
    ensures IsInfixAt(ReviewReply.FileClause(p.comment.path), trace[2].body,
                      |trace[2].body| - |ReviewReply.FileClause(p.comment.path)| - 1)
  {
    var c := Collaborators(Returns(()), Returns(WithContent(file)), Returns([TextBlock(text)]), Returns(()));
    var verified;
    response, verified, trace := Fetch(Request("POST", ReviewCommentCreated(p)), c);
    PostedComment(p, c, trace);
  }

  /** The integration test's comment covers lines 10 to 15. On a file of one
      newline-terminated line, `"function f(){}\n"` (two lines, the second
      empty), the snippet is empty and the reply reports lines 10 to 2. */
  lemma IntegrationTestRange()
    ensures var x := Snippet.Extract("function f(){}\n", 10, 15);
      x == Snippet.Extraction(["function f(){}", ""], 9, 2, "")
      && ReviewReply.LineRange(x.startLine, x.endLine) == "10-2"
  {
    IntegrationTestLines();
    TenToTwo();
  }

  /** The lines of the one-line file `"function f(){}\n"`. */
  lemma IntegrationTestLines()
    ensures Snippet.Lines("function f(){}\n") == ["function f(){}", ""]
  {
    SplitLine("function f(){}", "", '\n');
    assert "function f(){}" + ['\n'] + "" == "function f(){}\n";
  }

  /** The range printed for the integration test. */
  lemma TenToTwo()
    ensures ReviewReply.LineRange(9, 2) == "10-2"
  {
    assert DigitChar(1) == '1' && DigitChar(0) == '0' && DigitChar(2) == '2';
    assert NatToDecimal(10) == "10";
  }
}
