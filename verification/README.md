# Verification of the Kii Thing SDK Embedded

A Dafny model of four parts of the SDK, with proofs of what they are for:

* **The jsmn tokenizer** (`Jsmn*.dfy`). It reads JSON in place and keeps no stack: brackets are matched by looking
  back over the tokens. `JsmnModel` says what one turn of its loop does to the parser's state, in the default build
  (`Scan`) and in the build with `JSMN_PARENT_LINKS` (`Links`); the class in `JsmnParser` does it on the token array,
  loop by loop, and is proved to be that. On top of it stand the invariants of every reachable state, interrupted
  parses, counting, the brackets as a stack machine, the commas that find no super token, agreement of the two builds in
  spans and in sizes, the texts each build accepts, why a call stops and with which code, and the round trip from a
  printed JSON document to its tokens. `JsmnExamples` holds short texts on which the code does not do what one would
  expect.
* **The HTTP exchange** (`Http*.dfy`). One buffer is built into a request, sent in chunks, and filled with the
  response. `HttpRequest` and `HttpModel` are the specification, the class in `HttpClient` works on the array.
  Callbacks are an adversary: a script of answers, each Ok, Again or Fail, with any data that fits. Theorems are about
  whole runs: what the server is sent and reads, how many calls a request takes, how the response is put together, how a
  run ends, and that the content length the client writes is the one its parser reads.
* **MQTT and the push task** (`Mqtt*.dfy`, `Push*.dfy`). The variable-length integers, CONNECT and SUBSCRIBE assembled
  at an offset and copied down over themselves, the reader of PUBLISH packets from a stream that comes in pieces, and
  the two tasks of the push service in every interleaving. The layouts are those of MQTT 3.1.1, sections 2.2.3, 3.1,
  3.3 and 3.8, with the protocol name and level of MQTT 3.1.
* **The simple regular expressions of Google Test** (`SimpleRegex.dfy`): validation is the image of a printer of
  patterns, and matching is a denotational semantics.

Where a property one would expect is false of the code, the exact condition under which it holds is proved, and an
input shows that it fails:

* a parse goes on where it stopped: `JsmnResume.ResumeExactly`; `JsmnExamples.OneThenTwelve` cuts `12` after its `1`;
* a comma finds a super token: `JsmnCommas.DefinedExactly`; `JsmnExamples.OneCommaTwo` is `1,2`;
* a text ends at its first NUL: `JsmnStops.NulIsTheEnd` says when it does not, behind a backslash in a string;
* both builds of jsmn find the same types and spans: `JsmnVariants.SpansAgreeExactly`; `JsmnExamples.OneClosed` is
  `1]`;
* and the same sizes: `JsmnSizes.VariantsAgreeExactly`; `JsmnExamples.SizesDiffer` is `"":[]""`;
* a full match is a match of the whole string: `SimpleRegex.FullMatchExact`; `SimpleRegex.EscapedDollar` is `\$`;
* an accepted request line fits: `HttpRequest.LineFitsExactly`; `HttpRequest.LongerNormalizerOverruns` is an
  application for which it does not;
* a length of zero is read as zero: `HttpHeaders.ZeroIsReadExactly`; `HttpHeaders.ZeroIsMisread` is a head for which
  it is not;
* a response arrives whole however it is cut: `HttpFraming.ReassemblyExactly`; `HttpFraming.PrefixedName` is one with
  a header whose name starts like `Content-Length`;
* a call takes one packet: `PushReader.StaysExactly`; `PushReader.NineBytes` takes a byte of the next one;
* the counter of the reader may be unsigned: `PushReader.VariantsDifferExactly`; `PushReader.LastByteMissing` delivers
  a byte that never came;
* a ping that was tested before it is sent is in order: `PushProtocol.LatePingIsAllowedExactly`;
  `PushProtocol.LatePing` is a run in which it is not.

`dafny verify dfyconfig.toml` checks everything.

## Conventions

A C string is the sequence of its characters without the NUL; `At` reads the NUL past the end. Text is `string`, MQTT
bytes are integers from 0 to 255. A null pointer or a missing index is -1, `None`, or a nullable array. Ghost
parameters such as `r: Request` say what the buffer holds when a method is called; they are not part of the program.

## Model

| member | source | states |
|---|---|---|
| JsmnParser.Parser.constructor | lib/jsmn/jsmn.c:306-310 | a new parser is at position 0, without tokens and without a super token |
| JsmnParser.Parser.AllocToken | lib/jsmn/jsmn.c:8-21 | takes the next token if there is room and clears it; otherwise changes nothing |
| JsmnParser.Parser.FillToken | lib/jsmn/jsmn.c:26-32 | sets type and span, clears the size, and leaves every other token alone |
| JsmnParser.Parser.ParsePrimitive | lib/jsmn/jsmn.c:37-81 | its loop finds the end the specification gives, or rewinds `pos` |
| JsmnParser.Parser.ParseString | lib/jsmn/jsmn.c:86-148 | its loop with the escapes finds the closing quote, or rewinds `pos` with the right error |
| JsmnParser.Parser.Escape | lib/jsmn/jsmn.c:116-144 | the characters that may follow a backslash, up to four hexadecimal digits after `u` |
| JsmnParser.Parser.OpenBracket | lib/jsmn/jsmn.c:166-183 | allocates an open token, counts it in its super token and becomes the super token |
| JsmnParser.Parser.CloseByScan | lib/jsmn/jsmn.c:208-228 | the two backward loops close the last open token and find the one before it |
| JsmnParser.Parser.CloseByLinks | lib/jsmn/jsmn.c:189-206 | the loop over parent links closes the first open ancestor of the last token, if any |
| JsmnParser.Parser.Comma | lib/jsmn/jsmn.c:242-259 | after a value that is no container, the super token goes back to the innermost open one; in the default build, without a super token, nothing changes whatever type stands in front of the array |
| JsmnParser.Parser.FillTurn | lib/jsmn/jsmn.c:160-290 | one turn of the loop with a token array moves the parser along its run, counts the tokens it allocates and keeps the nesting |
| JsmnParser.Parser.CountTurn | lib/jsmn/jsmn.c:160-290 | one turn without an array moves along the counting run and touches nothing else |
| JsmnParser.Parser.Parse | lib/jsmn/jsmn.c:153-300 | jsmn_parse is `Run` with its return code when filling and `CountRun` when counting, and leaves unused tokens as they were; with parent links only where that run has a defined end |
| JsmnParser.Parser.HasOpen | lib/jsmn/jsmn.c:292-297 | true exactly when a bracket was opened and not closed |
| JsmnInvariants.ApplyKeepsNested | lib/jsmn/jsmn.c:166-259 | every step keeps the super token inside the innermost open bracket and the chain of parents in order |
| JsmnResume.InEveryState | lib/jsmn/jsmn.c:184-258 | after any calls, in both builds: at depth one or more the comma case reads an allocated token; without a super token nothing is open; and the parent links lead to the token the backward scan finds |
| JsmnInvariants.ApplyKeepsInv | lib/jsmn/jsmn.c:160-290 | every step keeps starts increasing, spans nested or apart, and each size equal to the number of children |
| JsmnInvariants.RunKeepsInv | lib/jsmn/jsmn.c:153-300 | so does every call, in both builds, on every text and with any room |
| JsmnResume.CallsKeepInv | lib/jsmn/jsmn.c:153-300 | so do any calls one after the other, whatever their texts and rooms |
| JsmnResume.SizesCountTheRest | lib/jsmn/jsmn.c:166-183 | after any calls the sizes add up to the number of tokens allocated under a super token |
| JsmnResume.RunThenRun | lib/jsmn/jsmn.c:37-300 | from any reachable state, stopping and going on with a longer text and more room is running on it at once, unless the cut splits a primitive |
| JsmnResume.ResumeExactly | lib/jsmn/jsmn.c:37-300 | for a fresh parser: the same tokens, position and super token if and only if the cut splits no primitive |
| JsmnExamples.OneThenTwelve | lib/jsmn/jsmn.c:37-81 | `1` and then `12` gives two tokens, `12` at once gives one |
| JsmnResume.ResumeManyTimes | lib/jsmn/jsmn.c:37-300 | any number of interruptions, by the end of the text or for lack of tokens |
| JsmnResume.ResumedCount | lib/jsmn/jsmn.c:153-300 | the resumed call returns only the tokens of its own call |
| JsmnCount.CountFollowsRun | lib/jsmn/jsmn.c:37-300 | counting reads the lexemes filling reads; where filling runs out of room, counting has more |
| JsmnCount.FillingSuccessIsCounted | lib/jsmn/jsmn.c:153-300 | if filling succeeds, counting returns the same number, and it is the number of tokens |
| JsmnCount.CountIsTheRoomNeeded | lib/jsmn/jsmn.c:153-300 | with a count of n, n tokens never run out and fewer never succeed |
| JsmnVariants.RunsMatch | lib/jsmn/jsmn.c:186-259 | from matching states the two builds go step by step with the same positions, types and spans, until one of them stops at a bracket that closes nothing or at a comma without a super token |
| JsmnVariants.SupersAfterClose | lib/jsmn/jsmn.c:189-228 | after a closing bracket their super tokens are the same if and only if the bracket has no parent or an open one |
| JsmnExamples.SupersDiffer | lib/jsmn/jsmn.c:189-228 | after `"":[]` the default build has no super token and the other one has the key |
| JsmnVariants.ClosesNothingExactly | lib/jsmn/jsmn.c:226-227 | the default build reports a bracket that closes nothing, with tokens allocated, if and only if the text before a bracket has balanced brackets and at least one token, and they fit |
| JsmnVariants.SpansAgreeExactly | lib/jsmn/jsmn.c:153-300 | same code, position, and types and spans of the tokens if and only if the text has no bracket that closes nothing after a token and no comma without a super token, both told from the text alone |
| JsmnSizes.VariantsAgreeExactly | lib/jsmn/jsmn.c:153-300 | same code, position, and types, spans and sizes of the tokens if and only if, besides, no token comes while the super tokens differ, again told from the text alone |
| JsmnSizes.SizesAgreeBy | lib/jsmn/jsmn.c:153-300 | from any states that are alike: a token that is counted in different super tokens leaves sizes that never meet again, and without one they stay the same |
| JsmnSizes.PieceMoves | lib/jsmn/jsmn.c:166-259 | every step that both builds take moves a ledger of the commas that lead the super token of one build to the enclosing bracket, and of the place of the other |
| JsmnSizes.SupersAgreeExactly | lib/jsmn/jsmn.c:186-259 | after any pieces that both builds take, their super tokens are the same if and only if that ledger of the text says so |
| JsmnSizes.MiscountExactly | lib/jsmn/jsmn.c:166-259 | a token comes while they differ if and only if the text before it says so |
| JsmnExamples.SizesDiffer | lib/jsmn/jsmn.c:186-240 | in `"":[]""` the second string is counted in the key by one build only; types and spans are the same |
| JsmnExamples.OneClosed | lib/jsmn/jsmn.c:189-227 | for `1]` the default build returns an error and the other one a token |
| JsmnCommas.PieceKeeps | lib/jsmn/jsmn.c:166-259 | every step keeps a ledger of depth, tokens and commas left before the super token runs out |
| JsmnCommas.BareCommaExactly | lib/jsmn/jsmn.c:242-259 | a run meets a comma without a super token if and only if the brackets, colons and commas of the text before it say so, in either build |
| JsmnCommas.StrayIsBareComma | lib/jsmn/jsmn.c:242-247 | with parent links that is exactly where the code reads a super token from in front of the array |
| JsmnCommas.DefinedExactly | lib/jsmn/jsmn.c:242-247 | so with parent links a call has a defined end if and only if no text before a comma says so |
| JsmnExamples.OneCommaTwo | lib/jsmn/jsmn.c:242-259 | `1,2` comes to such a comma: the default build reads two tokens, the other one strays |
| JsmnPieces.PieceIsRead | lib/jsmn/jsmn.c:37-148 | a piece of the grammar (blank, sign, bracket, string, word) is read as exactly that lexeme |
| JsmnPieces.RunReads | lib/jsmn/jsmn.c:160-290 | however a call ends, what it has read is spelled by pieces, and feeding them leads to where it is |
| JsmnPieces.RunAfterFeed | lib/jsmn/jsmn.c:160-290 | running on a text that starts with pieces is going on from where they lead |
| JsmnPieces.RunIsFeed | lib/jsmn/jsmn.c:160-290 | running on a text is feeding its pieces |
| JsmnBrackets.BalancedIffMachineAccepts | lib/jsmn/jsmn.c:184-229 | the words the stack machine accepts are the well-typed balanced ones |
| JsmnBrackets.FeedIsFollowed | lib/jsmn/jsmn.c:184-229 | feeding ends well only where the stack machine does not fail and there is room, and then the open tokens are its stack, with their kinds, positions and indices |
| JsmnBrackets.FollowIsMachine | lib/jsmn/jsmn.c:184-229 | the machine with positions is the stack machine of the bracket kinds; with parent links it passes over closing brackets at depth zero |
| JsmnBrackets.OpenTokensAreTheStack | lib/jsmn/jsmn.c:184-229 | however a call ends, from any reachable state and in either build: following what it has read leads from the open tokens before to the open tokens after, kinds, positions and indices |
| JsmnAccepts.AcceptsExactly | lib/jsmn/jsmn.c:153-300 | for each build: the result is not negative if and only if the text has well-formed lexemes, no more tokens than fit and balanced brackets, with parent links those that close nothing after a token left out and every comma answered; it is the number of tokens |
| JsmnStops.StopsExactly | lib/jsmn/jsmn.c:153-300 | for each build: why a call stops, if and only if what has been read and what stands next say so: a token without room; a bad escape, an unprintable character or a bracket that does not match; a string that more text can complete; or the end |
| JsmnStops.CodeExactly | lib/jsmn/jsmn.c:153-300 | the codes by number: -1, -2 and -3 are returned exactly for these reasons, -3 also for a bracket left open |
| JsmnStops.CountCodeExactly | lib/jsmn/jsmn.c:153-300 | and without a token array: -2, -3, or the number of tokens, whatever the brackets |
| JsmnStops.TextIsRead | lib/jsmn/jsmn.c:86-148 | a string is cut off if and only if it can be continued to what may stand between quotes, and whole if and only if it ends |
| JsmnStops.NulIsTheEnd | lib/jsmn/jsmn.c:37-300 | a text ends at its first NUL, unless a string is cut there behind a backslash, which is taken for a bad escape |
| JsmnJson.NumbersAreWords | lib/jsmn/jsmn.c:37-81 | every JSON number is read as a primitive |
| JsmnJson.LiteralsAreWords | lib/jsmn/jsmn.c:37-81 | so are true, false and null |
| JsmnJson.StringsAreBodies | lib/jsmn/jsmn.c:86-148 | every string of RFC 8259, section 7, is one the string reader takes |
| JsmnJson.CharactersAreTold | lib/jsmn/jsmn.c:44-135 | blanks, escapes, hexadecimal digits and the ends of primitives, one by one |
| JsmnJson.TokensDelimitNodes | lib/jsmn/jsmn.c:26-32 | the tokens of a document have the spans of its nodes in the printed text |
| JsmnRoundTrip.FeedValue | lib/jsmn/jsmn.c:153-300 | inside any context, a value adds its tokens in preorder and one child to its super token |
| JsmnRoundTrip.RoundTrip | lib/jsmn/jsmn.c:153-300 | every JSON document, with any blanks, gives exactly its tokens: types, spans, sizes and parents, in either build |
| JsmnRoundTrip.VariantsAgreeOnDocuments | lib/jsmn/jsmn.c:153-300 | both builds end in the same state on every document |
| HttpText.Check | kii-core/kii_cl_parser.c:17-31 | true exactly when the line starts with the header's name in any mixture of cases |
| HttpHeaders.NameIgnoresCase | kii-core/kii_cl_parser.c:17-31 | a line names the header if and only if its first 14 characters are `content-length` in lower case |
| HttpText.Value | kii-core/kii_cl_parser.c:37-63 | at most ten digits from the first digit that is not zero among the next eleven characters; the sum is never larger on the way than at the end |
| HttpText.Skip | kii-core/kii_cl_parser.c:70-86 | the start of the next line, or nothing at the end of the head |
| HttpHeaders.NextLineExactly | kii-core/kii_cl_parser.c:70-86 | in any text the next line begins behind the first CRLF, unless another one follows it |
| HttpText.ParseContentLength | kii-core/kii_cl_parser.c:93-109 | the value of the first line with the name, 0 without one |
| HttpHeaders.HeadDeclares | kii-core/kii_cl_parser.c:33-109 | for every head whose first Content-Length line has, after at most ten other characters, a number above zero, with anything behind it: that number, whatever follows the head |
| HttpHeaders.HeadDeclaresNothing | kii-core/kii_cl_parser.c:93-109 | 0 for every head without such a line |
| HttpHeaders.ZeroIsReadExactly | kii-core/kii_cl_parser.c:45-52 | a value of 0 is read if and only if no digit from 1 to 9 is among the next eleven characters |
| HttpHeaders.ZeroIsMisread | kii-core/kii_cl_parser.c:45-52 | a length of 0 read as a digit of the next line |
| HttpHeaders.HeadEnds | kii-core/kii_core.c:255-255 | the first empty line of a message is the end of its head |
| HttpHeaders.DecimalRoundTrip | kii-core/kii_core.c:559-566 | a number printed in decimal is read back |
| HttpHeaders.DecimalLength | kii-core/kii_core.c:1765-1767 | k characters are enough exactly below ten to the k |
| HttpRequest.AllFitExactly | kii-core/kii_core.c:393-463 | all of a list of appends are accepted if and only if their total stays below the buffer's size |
| HttpRequest.AcceptedInOrder | kii-core/kii_core.c:393-463 | headers come out in the order of their calls, body data in the order of theirs |
| HttpRequest.KindsCommute | kii-core/kii_core.c:393-463 | interleaving header and body calls differently changes neither acceptance nor the request |
| HttpRequest.RefusedLeaveNoTrace | kii-core/kii_core.c:393-463 | refused calls change nothing, and what is built always fits |
| HttpRequest.LineFitsExactly | kii-core/kii_core.c:368-383 | the size check of the request line is enough if and only if the printed host is not longer than the measured one |
| HttpRequest.LongerNormalizerOverruns | kii-core/kii_core.c:368-383 | with a normalizer host of one character more, an accepted line has no room for its NUL |
| HttpRequest.StartAddsTheEmptyLine | kii-core/kii_core.c:1714-1757 | a started call is its line, the headers in order, and the empty line as the start of the body |
| HttpRequest.LengthWrittenIsRead | kii-core/kii_core.c:1775-1790 | kii_parse_content_length reads from a finished request the length that was written |
| HttpRequest.CallLengthIsRead | kii-core/kii_core.c:1714-1826 | so it does after start, any appends and end |
| HttpReader.CallIsRead | kii-core/kii_core.c:356-391 | a reader of RFC 7230 finds on the wire of a finished call its verb, host, path and version, each header of the application by its name, then its own headers and the length in order, and the data |
| HttpReader.RequestIsRead | kii-core/kii_core.c:380-383 | any request line, headers and data are read back as they are |
| HttpReader.StartedHeaders | kii-core/kii_core.c:577-606 | the headers of a started call by name: host, id, key, SDK, content type and bearer token |
| HttpReader.AuthorizedExactly | kii-core/kii_core.c:1696-1712 | tokens of 1 to 120 characters are sent; without one no authorized call starts |
| HttpClient.KiiCore.SetRequestLine | kii-core/kii_core.c:356-391 | the buffer holds the line and zeros, or only zeros when the line is refused |
| HttpClient.KiiCore.SetHeader | kii-core/kii_core.c:393-439 | the header is inserted before the body, which moves; refused, nothing changes |
| HttpClient.KiiCore.InsertHeader | kii-core/kii_core.c:415-435 | the overlapping move and the four copies as one insertion |
| HttpClient.KiiCore.AppendBody | kii-core/kii_core.c:441-463 | body data goes to the end; refused or null, nothing changes |
| HttpClient.KiiCore.SetAuthorizationHeader | kii-core/kii_core.c:1696-1712 | fails without a token or with one that does not fit 128 bytes |
| HttpClient.KiiCore.ApiCallStart | kii-core/kii_core.c:1714-1757 | succeeds exactly when line, headers, token and empty line are accepted, and leaves what was accepted |
| HttpClient.KiiCore.ApiCallAppendBody | kii-core/kii_core.c:1800-1813 | appends and keeps the length of the body on record |
| HttpClient.KiiCore.ApiCallAppendHeader | kii-core/kii_core.c:1815-1826 | appends a header |
| HttpClient.KiiCore.ApiCallEnd | kii-core/kii_core.c:1775-1798 | adds the length if there is a body; READY exactly when that fits and the client was IDLE |
| HttpClient.KiiCore.Send | kii-core/kii_core.c:192-225 | offers the next chunk of at most 256 bytes and moves on only on Ok |
| HttpClient.KiiCore.Receive | kii-core/kii_core.c:226-296 | stores a piece, clearing the buffer before the first |
| HttpClient.KiiCore.Settle | kii-core/kii_core.c:253-283 | finds the end of the head once, then the end of the response |
| HttpClient.KiiCore.ParseResponse | kii-core/kii_core.c:300-336 | status, body and length of the body, or an invalid response |
| HttpClient.KiiCore.Execute | kii-core/kii_core.c:150-354 | is the step of the specification in every socket state |
| HttpClient.KiiCore.CoreRun | kii-core/kii_core.c:525-557 | kii_core_run is the step of the specification |
| HttpClient.KiiCore.ApiCallRun | kii/kii_call.c:31-42 | ends the call and runs it until IDLE, with the result of the last step |
| HttpRuns.StepMakesProgress | kii-core/kii_core.c:150-354 | every step that is not put off lowers the measure, and one that is does not raise it |
| HttpRuns.CallsUntilIdle | kii/kii_call.c:37-39 | at most 4 + max(1, ceil(total/256)) + max(1, buffer size) calls and one for each Again |
| HttpRuns.RunIsOrderly | kii-core/kii_core.c:157-239 | in every run each offer is the chunk of at most 256 bytes that comes next, no more is asked for at once, and nothing is received or overwritten before all is taken |
| HttpRuns.SendSafety | kii-core/kii_core.c:192-225 | what is taken is always a beginning of the request, and all of it, once, if the run ends well |
| HttpRuns.FailureTellsWhy | kii-core/kii_core.c:150-354 | a run that ends badly says whether a callback failed, the buffer was full or the response was none, and each leaves its own socket state |
| HttpOutcome.BufferHoldsWhatCame | kii-core/kii_core.c:226-296 | while a response comes, the buffer holds everything recv_cb has delivered, in order |
| HttpOutcome.EndsExactly | kii-core/kii_core.c:150-354 | a run that is over has failed in a callback, or more came than the buffer holds with a NUL, or what came has no status, each with its error; or the status, the body and its length are those of what came |
| HttpOutcome.OkUntilTheEnd | kii-core/kii_core.c:525-557 | every call before the last succeeds, and a call to an IDLE client fails and does nothing |
| HttpResponse.NoEndYet | kii-core/kii_core.c:253-259 | the end of the head is not found before it has come |
| HttpResponse.PieceIsKept | kii-core/kii_core.c:244-284 | any next piece of a response that declares no less than its body keeps the buffer a prefix of it, and the last one closes |
| HttpResponse.ClosingStep | kii-core/kii_core.c:300-336 | from a complete response the status and the body are delivered |
| HttpResponse.Reassembly | kii-core/kii_core.c:226-336 | for every split of such a response, with any lines in its head and of any length, and any Agains the run ends with it delivered, unless a callback fails or it does not fit the buffer, which is then the error |
| HttpFraming.ReassemblyExactly | kii-core/kii_core.c:226-336 | a response is put together from every split if and only if no length that may be read, when the end of its head comes with some of its body, is above zero and below that of the body |
| HttpFraming.DeclaredIsNeverShort | kii-core/kii_core.c:253-283 | with a Content-Length line that is if and only if its number is at least the length of the body |
| HttpFraming.UndeclaredIsNeverShort | kii-core/kii_core.c:253-283 | without one it always is |
| HttpFraming.EmptyIsNeverShort | kii-core/kii_core.c:253-283 | and with an empty body it always is, so a length of zero that is misread does no harm to a run |
| HttpFraming.PrefixedName | kii-core/kii_cl_parser.c:17-31 | `content-length-x: 1` before `content-length: 2` is not: 1 is read |
| HttpCall.WholeCall | kii/kii_call.c:31-42 | the server is sent exactly the request and the caller finds exactly the response, if that declares no less than its body; or a callback has failed, or the response does not fit, and the error says so |
| HttpCall.PlaceCall | kii/kii_call.c:11-42 | on the client itself: start, any headers and body data, and run return 0 exactly when the server has been sent the request and the response is there; otherwise a callback has failed, the response does not fit, or the request was refused |
| HttpCall.RequestTellsItsLength | kii-core/kii_core.c:1783-1790 | the length in the head of a request is that of what follows the head |
| MqttCodec.Encode | kii/kii_mqtt.c:8-23 | the do/while loop writes the encoding and returns its length |
| MqttCodec.DecodeAt | kii/kii_mqtt.c:25-43 | the do/while loop decodes the field, or fails |
| MqttCodec.RoundTrip | kii/kii_mqtt.c:8-43 | every number below 128^4 is read back with its number of bytes, whatever follows |
| MqttCodec.FailsExactly | kii/kii_mqtt.c:31-40 | decoding fails if and only if the first four bytes all have the top bit |
| MqttCodec.Shortest | kii/kii_mqtt.c:8-23 | no field of the same value is shorter, and none of the same length is different |
| MqttCodec.EncodedLength | kii/kii_mqtt.c:13-21 | k bytes are enough exactly below 128^k |
| MqttPackets.Mqtt.AssembleConnect | kii/kii_mqtt.c:77-130 | the buffer starts with exactly the CONNECT packet, no write leaves it, and the last one, the NUL of the password, lands right behind the body |
| MqttPackets.Mqtt.AssembleSubscribe | kii/kii_mqtt.c:196-225 | the buffer starts with exactly the SUBSCRIBE packet |
| MqttPackets.Mqtt.CopyDown | kii/kii_mqtt.c:126-130 | copying the body down over itself loses nothing |
| MqttPackets.Mqtt.Connect | kii/kii_mqtt.c:45-182 | what is sent, and 0 exactly when everything succeeds and a reader of the standard finds in the four bytes of the reply a CONNACK that accepts |
| MqttPackets.Mqtt.Subscribe | kii/kii_mqtt.c:184-275 | what is sent, and 0 exactly when a reader of the standard finds in the five bytes of the reply a SUBACK for packet 1, whatever its return code |
| MqttPackets.ConnectRoundTrip | kii/kii_mqtt.c:83-118 | a reader of the standard finds protocol name and level, clean session, keep-alive, topic as client identifier, user name and password in the packet |
| MqttPackets.SubscribeRoundTrip | kii/kii_mqtt.c:203-213 | and packet identifier, topic and QoS |
| MqttPackets.ConnackIsRead | kii/kii_mqtt.c:169-173 | the four bytes that are accepted are the CONNACK with return code 0 |
| MqttPackets.SubackIsRead | kii/kii_mqtt.c:261-269 | the four bytes that are compared are those of a SUBACK for packet 1 |
| MqttPackets.ConnectRoomIsExact | kii/kii_mqtt.c:77-81 | the check is true exactly for the buffers that hold the place of that last write |
| MqttPackets.SubscribeRoomIsOneMore | kii/kii_mqtt.c:196-199 | the check asks for one byte more than is written |
| PushReader.Reader.RecvTail | kii/kii_push.c:366-388 | the loop reads until all is there or nothing comes, with the counter of either type |
| PushReader.Reader.ReceivePushNotification | kii/kii_push.c:316-428 | one call is the specification of it, for both types of counter |
| PushReader.MessageIsReceived | kii/kii_push.c:333-427 | a message is delivered, and its packet is taken from the stream, but never less than ten bytes |
| PushReader.StaysExactly | kii/kii_push.c:340-366 | a call delivers the payload and takes its packet and no more if and only if the packet has at least ten bytes, whatever follows |
| PushReader.SucceedsExactly | kii/kii_push.c:316-428 | a call returns 0 if and only if two bytes come that start no PUBLISH, or such a packet fits the buffer, has a payload and comes to its end or the counter is unsigned; else -1, without a message |
| PushReader.TooLargeFails | kii/kii_push.c:360-364 | a PUBLISH larger than the buffer gives -1 and no message, after its first ten bytes |
| PushReader.NineBytes | kii/kii_push.c:340-366 | a packet of nine bytes takes a byte of the next one |
| PushReader.StaysSynchronised | kii/kii_push.c:316-428 | over a stream of messages each call takes one packet and delivers its payload, however the tails are cut |
| PushReader.SignedDeliversWhatCame | MTK/LinkIt_ONE/libraries/kii/kii_push.c:613-716 | with the signed counter every message consists of bytes that came |
| PushReader.VariantsDifferExactly | kii/kii_push.c:316-428 | the unsigned counter calls back after a tail that did not come, and that is the only difference; it happens if and only if the bytes of the stream, or those recv_cb delivers before it fails, are fewer than the packet needs |
| PushReader.TailFailsExactly | kii/kii_push.c:366-388 | reading the tail fails if and only if fewer bytes are left than needed, or recv_cb fails before it has delivered them |
| PushReader.LastByteMissing | kii/kii_push.c:366-428 | a message whose last byte never came is delivered with a zero, by the unsigned counter only |
| PushProtocol.NextKeepsInv | kii/kii_push.c:439-519 | every step of either task keeps the invariant that ties flag, state, endpoint and connection |
| PushProtocol.ConnectedExactlyWhenReady | kii/kii_push.c:488-517 | at the head of the loop the flag is set exactly in the state READY |
| PushProtocol.EveryEventIsAllowed | kii/kii_push.c:430-538 | each connection is to the endpoint retrieved last, each message follows a SUBACK that was taken for an accepting one and each ping an accepted CONNACK on the connection |
| PushProtocol.DeliveryIsPreceded | kii/kii_push.c:488-517 | before a message, on its connection, come an accepting CONNACK and then such a SUBACK |
| PushProtocol.PingIsSent | kii/kii_push.c:526-534 | after any run: in READY a ping is sent, and it is sent exactly when the flag is set, which it is not without an accepted CONNACK |
| PushProtocol.MessageIsDelivered | kii/kii_push.c:508-516 | in READY each notification is delivered and nothing else changes |
| PushProtocol.ReconnectsAfterLoss | kii/kii_push.c:508-516 | a notification that fails clears the flag; then the same endpoint is connected and subscribed, with exactly those events |
| PushProtocol.StartsOverAfterFailure | kii/kii_push.c:488-506 | without a socket, after a refused CONNECT and after a refused SUBSCRIBE the flag is clear and a new endpoint is retrieved, connected and subscribed |
| PushProtocol.RetrievalIsRepeated | kii/kii_push.c:463-480 | a retry retrieves again, an error installs again |
| PushProtocol.InstallationIsRepeated | kii/kii_push.c:452-461 | nothing is retrieved before the installation succeeds |
| PushProtocol.EveryRunCanGetReady | kii/kii_push.c:439-519 | from wherever a run has got to, at most eight steps that succeed lead to READY |
| PushProtocol.LatePingIsAllowedExactly | kii/kii_push.c:531-534 | in every run with the test of the flag and the sending apart, the ping is in order if and only if the last kiiMQTT_connect in between that opened a socket was accepted, or there was none |
| PushProtocol.LatePing | kii/kii_push.c:488-534 | a run in which one was |
| SimpleRegex.ValidateRegex | kii-core/gtest-1.7.0/src/gtest-port.cc:257-311 | accepts exactly the strings that spell a pattern |
| SimpleRegex.AtomsAreSpelled | kii-core/gtest-1.7.0/src/gtest-port.cc:203-299 | the characters that stand for themselves, those that must be escaped and those that may be, one by one |
| SimpleRegex.AtomMatchesItsClass | kii-core/gtest-1.7.0/src/gtest-port.cc:228-247 | an atom matches exactly the characters of the class it stands for |
| SimpleRegex.MatchRepetitionAndRegexAtHead | kii-core/gtest-1.7.0/src/gtest-port.cc:320-342 | true exactly when some number of repetitions leaves a head that matches |
| SimpleRegex.MatchRegexAtHead | kii-core/gtest-1.7.0/src/gtest-port.cc:347-373 | true exactly when a prefix of the string is a word of the pattern |
| SimpleRegex.MatchRegexAnywhere | kii-core/gtest-1.7.0/src/gtest-port.cc:383-396 | true exactly when the pattern denotes the string |
| SimpleRegex.PrintInjective | kii-core/gtest-1.7.0/src/gtest-port.cc:257-311 | a valid string spells one pattern only |
| SimpleRegex.PartialMatch | kii-core/gtest-1.7.0/src/gtest-port.cc:412-414 | valid, and denotes the string |
| SimpleRegex.FullMatch | kii-core/gtest-1.7.0/src/gtest-port.cc:406-448 | what the appended anchor makes of a pattern |
| SimpleRegex.FullMatchExact | kii-core/gtest-1.7.0/src/gtest-port.cc:444-445 | a full match is a match of the whole string if and only if the pattern does not end in an escaped `$` |
| SimpleRegex.EscapedDollar | kii-core/gtest-1.7.0/src/gtest-port.cc:444-445 | the pattern `\$` is taken to match the whole of `$a` |

## Left out

- The strict build of jsmn, and positions, starts and sizes beyond 2^31.
- In the default build of jsmn tokens have no `parent`; the model records one there that nothing reads.
- JsmnParser.Parser.Parse: with parent links, a comma without a super token makes the code load a super token from the memory in front of the array. What it does next depends on that memory, so the model's run ends there as `Stray`, and the method asks that its run does not. `JsmnCommas.DefinedExactly` says for which texts that is, and every result about that build speaks of the run up to there.
- JsmnParser.Parser.Comma: asks for a super token when built with parent links, for the same reason.
- JsmnParser.Parser.FillTurn: asks the same of its turn as `Parse` of the call.
- Sockets, TLS, DNS, delays, loggers and task creation; what their callbacks answer is a parameter.
- HttpClient.KiiCore.SetRequestLine: asks that a line which passes the check fits the buffer, because the code writes past the end of one that does not; `HttpRequest.LineFitsExactly` says when that is.
- HttpClient.KiiCore.ApiCallStart: asks for the same.
- HttpClient.KiiCore.ApiCallEnd: asks for a body below ten million bytes, because the digits go into eight bytes.
- HttpClient.KiiCore.ApiCallRun: the endless loop is run against a script of answers that is long enough; `HttpRuns.CallsUntilIdle` bounds it.
- HttpText.Value: the sum is an unbounded integer; a `long` of 32 bits overflows exactly for the numbers of ten digits that it cannot hold, since the sum never exceeds the result.
- PushReader.Reader.ReceivePushNotification: asks for a buffer of at least ten bytes, into which the code reads without a check.
- Builder calls before a call was started, or after its response has taken the buffer.
- The request functions other than those of `kii_core_api_call_*`, the path builders, custom HTTP clients, and the REST wrappers above them.
- Strings of 65536 bytes or more in MQTT packets, whose two length bytes would be cut; an endpoint's fields hold at most 128 bytes.
- MqttPackets.Mqtt.Subscribe: the code never looks at the return code of a SUBACK, so the failure code 0x80 of MQTT 3.1.1, section 3.9.3, counts as accepted, here and in PushProtocol.
- A null `mqtt_buffer`; an empty one is modelled.
- PushReader.ReceiveOne: bytes of the buffer are unsigned, which matters for `char` that is signed only when a topic has 128 bytes or more.
- PUBLISH packets of QoS 1 or 2, whose packet identifier would be taken as part of the payload.
- Installing and retrieving the endpoint, whose results are arbitrary, and the JSON library behind them.
- PushProtocol.Next: a ping tests the flag and sends in one step; `PushProtocol.LatePingIsAllowedExactly` says what happens otherwise.
- Null regular expressions and strings, the text of validation errors, and the bound of `size_t` on repetitions.
- Everything else of Google Test, the samples, and the ports to single boards but for the reader of the LinkIt ONE.
