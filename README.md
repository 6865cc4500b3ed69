# Linux helper chat client — a Dafny model

`index.js` is a small terminal chat client. It sends a question, with a
fixed system prompt and the recent conversation, either to a cloud
provider (Groq, OpenAI-style event stream) or to a local Ollama server
(newline-delimited JSON). It then streams the reply to the terminal. The history is cut to the newest ten
messages after each answered question; failed questions are not cut. This project models:

- **`Text`**: the JavaScript string operations the client relies on.
  These are `split('\n')`, `startsWith`, `slice(6)`, `includes('```')`,
  `trim`, `toLowerCase`, and `+=` accumulation.
- **`Decoder`**: the two stream readers. Each chunk is split on line
  feeds on its own. The lines are filtered (`data: ` prefix, or non-empty).
  The payload is cut (`slice(6)`), the `[DONE]` sentinel is skipped, and the
  content field is extracted. Non-empty contents are appended to
  `fullResponse`, and each one is written highlighted when it holds a
  code fence. The read loops are imperative methods. They are proved
  against specification functions (`Reply`, `StreamFragments`,
  `Display`), and the lemmas about those functions state what the
  readers promise.
- **`Conversation`**: the module-level `chatHistory` as a `Session`
  class. `askGroq`/`askOllama` push the question, build the request from
  the system prompt and the history, and classify a failed response.
  The stream readers push the reply and cut the history to the newest
  ten. `ask` is one whole question. There are also lemmas about the
  history across any run of questions.
- **`Cli`**: the prompt callback's directive dispatch (blank line,
  `exit`/`quit`, `clear`, question) and `checkProvider`.

Two things are parameters of the model:

- **`JSON.parse` with the field lookup** is an `Extractor`, a function
  `string -> Option<string>`. `None` stands for a payload that does not
  parse or lacks the field.
- **The HTTP exchange** is an `HttpResponse`. `Unreachable` means fetch
  threw. `Response(status, body)` has the body already decoded into its
  chunks of text.

Three consequences of the code are proved about the model:

- Each chunk is split on its own (index.js:118-119, 162-163), so a line
  cut across two reads is lost and the reply depends on where the body
  was cut (`Decoder.LineCutAcrossChunksIsLost`).
- The question is pushed before the request is sent (index.js:51, 84),
  so a failed request, a 401 included, leaves it in the history
  (`Conversation.FailuresOnlyGrow`).
- An ok response with status 204 or 205 has a null body under the Fetch
  standard, so `body.getReader()` throws (index.js:108, 152) before a
  reply is pushed. The question stays in the history and nothing is
  written (`Conversation.Session.Exchange`, outcome `NullBody`).

## Model

| member | source | states |
|---|---|---|
| Text.SplitJoin | index.js:119 | the pieces of `split('\n')` hold no line feed, and joining them with line feeds gives back the chunk |
| Text.SplitUnique | index.js:119 | `split` is the only way to cut a string into separator-free pieces that join back to it |
| Text.SplitAfterPiece | index.js:163 | splitting `a + '\n' + t` yields `a` followed by the pieces of `t` |
| Text.Slice | index.js:122 | `line.slice(6)` is what follows the first six characters, and is empty for shorter lines |
| Text.ContainsIffOccurs | index.js:130 | `includes` holds exactly when the marker occurs at some position of the text |
| Text.ConcatAppend | index.js:129 | accumulating fragments with `+=` is associative across any split of the fragment list |
| Text.TrimStart | index.js:260 | the result is a suffix, everything dropped is white space, and the result does not start with white space |
| Text.TrimEnd | index.js:260 | the result is a prefix, everything dropped is white space, and the result does not end with white space |
| Text.TrimEdges | index.js:260 | a non-empty trimmed line starts and ends with a non-white-space character |
| Text.TrimEmptyIffBlank | index.js:260-262 | `!trimmed` holds exactly when every character of the input is white space |
| Text.ToLower | index.js:267 | lower-casing keeps the length and maps every character by the ASCII case mapping |
| Text.LowerMatchesWord | index.js:267 | `trimmed.toLowerCase() === w` holds exactly when the line spells `w` letter by letter in either case |
| Decoder.KeepLinesMembers | index.js:119 | a line survives the filter exactly when it is one of the split lines and passes the format's test |
| Decoder.DecodeEventStream | index.js:114-140 | the read loop yields exactly `Reply` of the chunks and writes exactly `Display` of their fragments |
| Decoder.DecodeNdJson | index.js:158-179 | the read loop yields exactly `Reply` of the chunks and writes exactly `Display` of their fragments |
| Decoder.EventStreamContributions | index.js:118-135 | a text comes out of a chunk exactly when some split line starts with `data: `, its payload after six characters is not `[DONE]`, and the payload's content is that non-empty text |
| Decoder.NdJsonContributions | index.js:162-176 | a text comes out of a chunk exactly when some non-empty split line has that non-empty `message.content` |
| Decoder.LinesFragmentsMembers | index.js:121-139 | every fragment comes from a line that yields it, and every line that yields a text contributes it |
| Decoder.LinesFragmentsAppend | index.js:121-139 | lines are decoded independently and in order |
| Decoder.SkippedLineDoesNotStop | index.js:123-138 | the sentinel, a parse error or an empty content skips one line, and the lines after it still count |
| Decoder.StreamFragmentsAppend | index.js:114-119 | no state crosses a chunk boundary: the fragments of two runs of chunks are those of each run in turn |
| Decoder.ReplyAppend | index.js:129 | the reply of a body is the reply of its first chunks followed by the reply of the rest |
| Decoder.DoneLineYieldsNothing | index.js:123 | the line `data: [DONE]` contributes nothing whatever the extractor returns |
| Decoder.AppendFragment | index.js:129-134 | appending one fragment extends the reply by its text and the display by one write in its style |
| Decoder.DisplayAppend | index.js:130-134 | styling is decided per fragment, so no open fence is carried from one fragment to the next |
| Decoder.DisplayAt | index.js:130-134 | the k-th write is the k-th fragment, highlighted exactly when three backticks occur in it |
| Decoder.DisplayLength | index.js:130-134 | there is one write per fragment |
| Decoder.HelloWorldExample | index.js:118-129 | two event-stream chunks carrying "Hello" and " world", then `[DONE]`, give the reply "Hello world" |
| Decoder.FooBarExample | index.js:162-170 | two NDJSON lines carrying "foo" and "bar" give the reply "foobar" |
| Decoder.LineCutAcrossChunksIsLost | index.js:118-119 | the same line yields "t" when read whole and nothing when cut across two reads |
| Conversation.Truncate | index.js:145-147 | the cut history has `min(length, 10)` messages and is a suffix of the uncut one |
| Conversation.Session.constructor | index.js:45 | the history starts empty |
| Conversation.Session.RequestMessages | index.js:61-64 | the request lists the system prompt first and then the whole history |
| Conversation.Session.Ask | index.js:50-75 | the question is pushed whatever the response; the request ends with it; the failure is `RequestFailure` of the response |
| Conversation.Session.RecordReply | index.js:143-147 | the reply is pushed and the history cut to the newest ten, ending with the reply |
| Conversation.Session.StreamGroqResponse | index.js:107-148 | the event-stream reply and writes are recorded, and the history is cut after the push |
| Conversation.Session.StreamOllamaResponse | index.js:151-187 | the NDJSON reply and writes are recorded, and the history is cut after the push |
| Conversation.Session.Exchange | index.js:77-198 | the outcome is the request's failure, `NullBody` for an ok 204/205 response whose reader throws, or the decoded reply; only an answer records a reply and cuts; a failure writes nothing and keeps only the question |
| Conversation.Session.Clear | index.js:273-274 | the history becomes empty |
| Conversation.TruncateSuffix | index.js:145-147 | cutting a long-enough tail of a list gives the same newest ten as cutting the list |
| Conversation.ExchangeRetains | index.js:143-147 | one question keeps the history a long-enough tail of everything appended, and equal to its newest ten after an answer |
| Conversation.RunRetains | index.js:143-147 | over any run of questions, the history stays a suffix of everything appended with at least the newest ten |
| Conversation.NewestTenAfterAnswer | index.js:182-186 | from an empty history, after a run whose last question was answered, the history is exactly the newest ten messages ever appended |
| Conversation.FailuresOnlyGrow | index.js:84-101 | failed questions are never cut: each leaves its question, so the history can exceed ten messages |
| Conversation.AfterTurnsSnoc | index.js:190-198 | a run of questions followed by one more is that question asked after the run |
| Conversation.TranscriptSnoc | index.js:190-198 | the messages of a run followed by one more question are those of the run and then that question's |
| Cli.ParseBlank | index.js:260-265 | a line re-prompts without a request exactly when it is all white space |
| Cli.ParseQuit | index.js:267-271 | a line ends the program exactly when, trimmed, it spells `exit` or `quit` in any case |
| Cli.ParseClear | index.js:273-278 | a line empties the history exactly when, trimmed, it spells `clear` in any case |
| Cli.ParseQuestion | index.js:280-290 | any other line is sent trimmed, is not empty, has no white space at either end, and is none of the three words |
| Cli.HandleInput | index.js:259-296 | `exit`/`quit` exits with 0 and changes nothing; `clear` empties the history; a blank line changes nothing; a question runs one exchange and writes the decoded display only when answered; only a question writes streamed fragments, and the prompt always returns otherwise |
| Cli.GroqStartsIffKeySet | index.js:202-210 | the cloud provider starts exactly when the key variable holds some text other than the placeholder, whatever a probe would return |
| Cli.OllamaStartsIffServerUp | index.js:211-220 | the local provider starts exactly when the tag-list probe answers with a 2xx status, whatever the key |

## Left out

- Network I/O: `fetch`, the request headers and JSON body encoding, the model names and URLs in `CONFIG`, and the text of `SYSTEM_PROMPT` are left out. A response is an input to the model.
- Byte decoding: `TextDecoder` is left out. Chunks are already text, and a multi-byte character cut across reads is not modelled. A character here is a Unicode scalar, not a UTF-16 code unit.
- `JSON.parse` and the optional-chaining field lookup are an abstract extractor. A content that is present but not a string (a number, an object) is not modelled, because the extractor returns only strings.
- A stream that fails in the middle of the body is not modelled: the body is a finite list of chunks that is read to the end.
- Terminal output: `chalk` colours are kept only as the two styles, highlighted and plain. The cyan lead-in, the trailing blank lines, the `ora` spinner, the error messages and the confirmations "Bye!" (index.js:268) and "✓ History cleared" (index.js:275) are left out, so `shown` holds only streamed fragments.
- `readline`, the recursion of `prompt`, `process.exit`, `process.argv`, `main`, `oneShot` and `interactiveMode`'s banner are process plumbing. They are left out, and `Cli.HandleInput` stands for one turn of the prompt.
- `Text.ToLower` maps ASCII letters only. Only the words `exit`, `quit` and `clear` are ever compared with a lower-cased line. A non-ASCII character lower-cases to a non-ASCII character, to a longer sequence (U+0130 becomes `i` followed by U+0307), or, for U+212A KELVIN SIGN only, to `k`. None of these spells a letter of the three words at the same length, so the three comparisons come out as in the model.
- Cli.CheckProvider: the local provider's probe is an input, not a request.
