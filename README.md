# pr-bot webhook worker, modelled in Dafny

pr-bot is a Cloudflare Worker that acts as a GitHub App. GitHub sends a
`pull_request_review_comment.created` webhook. The Worker verifies the
delivery, fetches the file the comment is on, and cuts out the commented
lines. It then asks the Anthropic messages API for an updated snippet and
posts that snippet back on the pull request as a new comment.

This project models the parts of `src/index.ts` that have behaviour of their
own:

- `Text`: the JavaScript string and array operations the Worker relies on:
  - `split("\n")` and `join("\n")`;
  - `Array.prototype.slice`, negative indices included;
  - `String.prototype.trim`, over the ECMAScript whitespace and line-terminator
    characters;
  - the decimal rendering of an integer in a template string.
- `Snippet`: extracting the snippet. The decoded file is split into lines. The
  comment's 1-based inclusive range is clamped to a 0-based half-open range
  `[max(0, start_line - 1), min(lines.length, end_line))`. The selected lines
  are joined again.
- `ReviewReply`: the template of the comment the Worker posts. It is an
  introduction, the trimmed snippet in a fenced block, and a sentence naming
  the printed line range and the file.
- `Worker`: the control flow of `handlePullRequestReviewComment` and of
  `fetch`, written as imperative methods:
  - every awaited call of the review-comment handler (the installation
    exchange, the content fetch, the completion request, the comment post) is
    an oracle (`Call<T>`) that either returns a value or throws;
  - reading the request body and `verifyAndReceive` are folded into one
    `Delivery` value: rejected, a review-comment event, or another event;
  - the calls the handler makes, with their arguments, are recorded in order
    as an effect trace (fetch the content, request the completion, post the
    comment);
  - `fetch` returns the HTTP response.

Where the code's behaviour is surprising, the model follows it as written:

- A range that runs past the end of the file is reported with inverted
  bounds. For example, a comment on lines 10-15 (the range the integration
  test sends) on the two-line file `"function f(){}\n"` gives an empty
  snippet, and the reply says "lines 10-2" (`Worker.IntegrationTestRange`).
- A completion whose first block is not text ends the handler without an
  error. The request is then answered 200 and nothing is posted.
- A completion with no blocks at all makes the read of `content[0].type`
  throw. The request is then answered 500.

## Model

| member | source | states |
|---|---|---|
| Text.Split | src/index.ts:50 | `split` always gives at least one part, and no part contains the separator |
| Text.SplitCount | src/index.ts:50 | the number of parts is one more than the number of separators |
| Text.JoinSplit | src/index.ts:50-53 | joining the parts of a split with the same separator gives back the string |
| Text.Join | src/index.ts:53 | a single part is its own join; that `join` puts one separator between neighbouring parts is stated by `Text.JoinSplit`, `Text.SplitJoin` and `Text.JoinAppend` |
| Text.SplitJoin | src/index.ts:50-53 | splitting the join of a non-empty list of separator-free parts gives back the parts |
| Text.JoinAppend | src/index.ts:53 | the join of two non-empty lists, concatenated, is their two joins with one separator between them |
| Text.RelativeIndex | src/index.ts:53 | a `slice` bound is clamped to `[0, len]`, and a negative bound counts back from the end |
| Text.Slice | src/index.ts:53 | for non-negative bounds `slice(start, end)` is `xs[min(start, len)..min(end, len))`, and empty when `0 <= end <= start`; whatever the bounds, it is a contiguous piece of `xs` |
| Text.Trim | src/index.ts:85 | `trim` keeps an infix outside which everything is whitespace, and the result neither starts nor ends with whitespace |
| Text.TrimIdempotent | src/index.ts:85 | trimming twice removes nothing more |
| Text.TrimUnchanged | src/index.ts:85 | a string without whitespace at either end is left unchanged |
| Text.NatToDecimal | src/index.ts:102-104 | a natural number renders as digits only, with no leading zero: a numeral starting with `0` is `0` itself |
| Text.NatDecimalRoundTrip | src/index.ts:102-104 | reading back the numeral of a natural number gives the number |
| Text.IntToDecimal | src/index.ts:102-104 | an integer renders as digits, with a leading minus sign when it is negative |
| Text.IntToDecimalCanonical | src/index.ts:102-104 | the rendering is the shortest: only 0 renders with a leading `0`, as `"0"`, and no `0` follows the minus sign of a negative integer |
| Text.IntDecimalRoundTrip | src/index.ts:102-104 | reading back the rendering of any integer gives the integer, so distinct bounds print differently |
| Snippet.Lines | src/index.ts:50 | the lines of the file are separator-free and join back to the file |
| Snippet.LineCount | src/index.ts:50 | the file has one more line than it has newlines, so a trailing newline gives a trailing empty line |
| Snippet.StartLine | src/index.ts:51 | the lower bound is never negative; it is 0 exactly when `start_line <= 1`, and `start_line - 1` otherwise |
| Snippet.EndLine | src/index.ts:52 | the upper bound never exceeds the line count; it equals the line count exactly when `end_line >= lines.length`, and `end_line` otherwise |
| Snippet.Extract | src/index.ts:50-53 | the lower bound is never negative and the upper bound never exceeds `lines.length` (the lower bound may pass the line count, and the upper bound may be negative); the snippet is the join of `lines[startLine..endLine)` when `startLine < endLine`, and empty when `0 <= endLine <= startLine` |
| Snippet.InvertedRangeIsEmpty | src/index.ts:51-53 | a comment with `start_line > end_line >= 0` selects nothing |
| Snippet.WholeFile | src/index.ts:50-53 | a range with `start_line <= 1` and `end_line >= lines.length` selects the whole decoded file |
| Snippet.SnippetLines | src/index.ts:50-53 | splitting a non-empty snippet again gives exactly the selected lines |
| Snippet.NegativeEndCountsFromBack | src/index.ts:52-53 | a negative `end_line` is read by `slice` as counting back from the last line |
| Snippet.JoinRangeIsInfix | src/index.ts:53 | the join of a run of lines occurs verbatim in the join of all lines |
| Snippet.SnippetInFile | src/index.ts:50-53 | whatever the range, the snippet is a contiguous piece of the decoded file |
| Snippet.WorkedExample | src/index.ts:50-53 | `"a\nb\nc\nd\n"` has five lines, the last one empty, and lines 2 to 3 select `"b\nc"` |
| ReviewReply.LineRange | src/index.ts:102-104 | the printed range `${startLine + 1}-${endLine}` is at least three characters long; what it means is stated by `ReviewReply.LineRangeReadsBack` |
| ReviewReply.LineRangeReadsBack | src/index.ts:102-104 | for a non-negative lower bound, the first `-` splits the range into the numerals of `startLine + 1` and of `endLine` |
| ReviewReply.Body | src/index.ts:96-104 | the template body; its layout and injectivity are stated by `ReviewReply.BodyLayout` and `ReviewReply.BodyDeterminesSnippet` |
| ReviewReply.BodyQuotesSnippet | src/index.ts:96-100 | the body holds the snippet between an opening and a closing fence, right after the introduction |
| ReviewReply.ReferenceNamesFile | src/index.ts:102-104 | the closing sentence names the file in backquotes, just before its final period |
| ReviewReply.BodyNamesFile | src/index.ts:96-104 | the body names the file in backquotes, just before its final period |
| ReviewReply.BodyStatesRange | src/index.ts:96-104 | the body says `lines <range>` right after the words that lead up to it |
| ReviewReply.BodyLayout | src/index.ts:96-104 | any body of the template quotes its snippet, names its file and states its range, each at a fixed place |
| ReviewReply.BodyDeterminesSnippet | src/index.ts:96-104 | two bodies for the same range and file are equal only when their snippets are |
| Worker.HandleReviewComment | src/index.ts:13-106 | the calls the handler makes, in order and with their exact arguments; that the handler stops after the fetch when the data has no `content` and after the completion when its first block is not text; and that it throws exactly when a call throws or the completion has no blocks |
| Worker.Fetch | src/index.ts:108-145 | a request that is not a POST gets 405 "Method Not Allowed" with no verification and no calls; a POST gets 500 "Error processing webhook" when verification or the handler throws and 200 "Webhook processed successfully" otherwise; a comment is posted only after the file had content and the completion started with text |
| Worker.PostIsLast | src/index.ts:31-105 | a comment is posted at most once, as the last call, after the fetch and the completion request |
| Worker.MissingContentIsSilent | src/index.ts:39-42 | when the data has no `content`, the only call is the fetch, and the request does not fail |
| Worker.NonTextCompletionIsSilent | src/index.ts:83-89 | when the first completion block is not text, nothing is posted and the request does not fail |
| Worker.PostedComment | src/index.ts:83-105 | the posted body quotes the trimmed completion text, names `comment.path`, and states the clamped range, not the comment's own line numbers |
| Worker.ClampedRangeReadsBack | src/index.ts:50-53 | the printed range of any comment reads back as the clamped `startLine + 1`, which is at least 1, and the clamped `endLine`, which is at most the line count |
| Worker.EndToEnd | src/index.ts:108-145 | a verified review-comment delivery whose calls all return, with file content and a text completion, is answered 200 and posts exactly one comment on the pull request, quoting the trimmed text and naming the file |
| Worker.IntegrationTestRange | test/github.test.ts:26-27 | the integration test's range, lines 10 to 15, on the chosen one-line file `"function f(){}\n"` selects nothing, and the reply reports lines 10-2 |
| Worker.IntegrationTestLines | src/index.ts:50 | the chosen file `"function f(){}\n"` has two lines, the second one empty |
| Worker.TenToTwo | src/index.ts:102-104 | the clamped bounds 9 and 2 print as `10-2` |

## Left out

- HMAC-SHA256 signature checking and event routing happen inside `Webhooks.verifyAndReceive`. They are a `Delivery` oracle here: rejected, a review-comment event, or another event.
- A failure of `request.text()`, or a missing header, ends in the same `catch`. It is folded into `Delivery.Rejected`.
- Base64 and UTF-8 decoding through `Buffer` are a foreign library call. The model takes the decoded text as its input, in `FileData.WithContent`.
- The GitHub App installation exchange, `repos.getContent`, `messages.create` and `issues.createComment` are network clients. They are oracles that return or throw. The arguments of the last three are recorded in the trace. The installation id passed to the exchange (`event.installation.id`) is not recorded: the exchange has no effect in the trace, and `Payload.installationId` is carried but not read.
- The four environment values (`APP_ID`, `PRIVATE_KEY`, `WEBHOOK_SECRET`, `ANTHROPIC_API_KEY`) are assumed present and valid. `new Webhooks(...)` and `webhooks.on(...)` run before the `try`, so a throw there (a missing secret, say) would escape `fetch` instead of giving 500. `Worker.Fetch` does not model that path: it promises one of the two fixed responses for every POST.
- The prompt and system-instruction wording of the completion request is fixed text. `CreateMessage` records the model, the token budget, the file, the snippet and the review comment that the prompt embeds.
- JavaScript coercions are not modelled. For example, a `null` `start_line` on a single-line comment becomes 0. Line numbers are integers here.
- Strings are sequences of Unicode scalar values, not UTF-16 code units. `trim` and `split` are modelled over those values.
- Integers are unbounded. JavaScript's rendering of numbers at or above 10^21, of non-integers and of `-0` is not modelled.
- Logging (`console.log`, `console.error`) is not modelled. It has no effect on the result.
- The Workers runtime runs each request on its own. There is no shared state, so concurrency is not modelled.
- The wrangler test harness and the esbuild configuration are not part of this model.
- Worker.HandleReviewComment: the comment post appears in the trace as soon as the post is attempted, whether it then returns or throws.
- Snippet.Extract: the empty snippet is stated for `0 <= endLine <= startLine` only. A negative `end_line` counts back from the last line (`Snippet.NegativeEndCountsFromBack`), so `startLine >= endLine` alone does not give an empty snippet.
