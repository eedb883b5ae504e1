# Telegram front end to the Claude CLI: a Dafny model of its core

The bot in `telegram_claude_bot.py` forwards each chat message to the Claude command-line agent. It resumes
the chat's stored session when one exists. It reads the agent's streamed JSON events and reports tool use
as throttled status messages. It picks a reply and a session id from how the process ended. If a resumed
session fails, it retries once without the session. It sends the reply back cut into message-sized pieces,
each rendered from Markdown to Telegram HTML.

This project models that logic as pure functions over immutable data, one module per component:

| module | file | what it models |
|---|---|---|
| `Framer` | framer.dfy | the growable byte buffer of `call_claude` that cuts standard output into lines |
| `Classifier` | classifier.dfy | `_process_line` folded over the lines: result text, candidate session id, throttled status messages |
| `Invocation` | invocation.dfy | the argument vector of the agent process, and the choice of the returned `(text, session id)` pair |
| `Sessions` | sessions.dfy | the per-chat session map (`load/get/set/clear_session`) and `call_claude_with_retry` |
| `Tools` | tools.dfy | `_TOOL_LABELS` with its `Using <name>` fallback, `_tool_detail` and its truncation, the status text |
| `Chunker` | chunker.dfy | `_split_text`, as a method with a loop and invariants, against a functional reference |
| `Delivery` | delivery.dfy | `_retry_on_network_error` and the per-chunk HTML-then-plain-text fallback of `send_long_message` |
| `Commands` | commands.dfy | how a Claude command name becomes a Telegram command, and how a typed command is rewritten back |
| `Html` | html.dfy | Python's `html.escape`, with an unescaping partner for its round trip |
| `Tokens`, `Fences`, `Tables`, `InlineCode`, `Markdown`, `MarkdownCases` | tokens.dfy, fences.dfy, tables.dfy, inline.dfy, markdown.dfy, markdown_cases.dfy | `markdown_to_telegram_html`: protect, escape, style, restore |
| `Seqs`, `PyText`, `Wrappers` | seqs.dfy, pytext.dfy, wrappers.dfy | split/join of sequences, Python `str` behaviour (`isspace`, `strip`, `str(int)`), `Option` |

## How the environment is modelled

- **Agent process.** `call_claude` receives the chunks read from standard output and an `Exit` value.
  `Exit` is `Timeout` or `Exited(code, stderr)`. Both timeout paths of the read loop give the same reply, so one
  value covers them.
- **Clock and sends.** The monotonic clock is a function from the index of a clock reading to a natural number.
  Whether a status message is delivered is a function of the same index.
- **Event decoding.** `raw.decode()` and `json.loads` are an opaque `Decoder`. It gives an `Event` datatype or
  "unparseable".
- **Retry controller.** `call_claude` is an oracle `claude(sid, k)`: the reply of the `k`-th call, made with
  session id `sid`.
- **Network retry.** The outcome of each send attempt is an oracle indexed by attempt number.
- **Markdown holes.** A protected region becomes one atomic token, a *hole*. A hole stands for the
  `\x00CB{i}\x00`, `\x00TBL{i}\x00` or `\x00IC{i}\x00` placeholder that the source writes.
  - Escaping and styling see the hole as its placeholder text. `Markdown.PlaceholderEscaped` shows that
    `html.escape` leaves that text unchanged, and `Markdown.EscapeMatchesSource` shows that escaping the token
    stream is escaping the placeholder-bearing string.
  - The styling steps 5 to 9 are a parameter. It is any function on token streams that makes up no hole and
    writes no NUL. The `**bold**` step (line 103) is modelled concretely and shown to be such a function.
- **Step 10 restore.** It is modelled twice.
  - `RenderAsWritten` is the source's order: code blocks, then tables, then inline code. Each is written from its
    saved text.
  - `Render` writes each table and inline span with any code block inside it put back as its fenced text.
  - The two agree whenever nothing is nested (`Markdown.AsWrittenAgreesWithoutNesting`). See "## Findings" for
    where they differ.

Two points where the source's behaviour is followed rather than a looser description of it:

- A line of agent output that is not valid UTF-8 makes `raw.decode()` raise inside `call_claude`, at line 380.
  That error aborts the call; the line is not skipped. The model therefore does not treat an undecodable line as
  an ignored line. It leaves UTF-8 errors out, as listed below.
- At end of stream the leftover partial line is processed only when it is not all whitespace (`buf.strip()` is
  non-empty); a leftover of spaces alone is dropped. `Framer.Lines` follows that rule. It makes no difference to the classifier, which ignores
  blank lines anyway (`Classifier.IgnoredLinesIrrelevant`).

## Model

| member | source | states |
|---|---|---|
| Framer.Drain | telegram_claude_bot.py:443-444 | the inner loop cuts off every complete line in order and keeps a newline-free remainder: lines plus remainder are the newline split of the buffer |
| Framer.ReadAll | telegram_claude_bot.py:416-445 | after any number of chunks, the emitted lines plus the buffer are the newline split of everything read so far |
| Framer.ReadAllLossless | telegram_claude_bot.py:441-445 | nothing is lost or duplicated: rejoining the emitted lines and the leftover buffer with newlines gives the whole stream |
| Framer.Lines | telegram_claude_bot.py:414-449 | the lines handed to `_process_line` at end of stream equal a naive newline split of the concatenated stream, with the unterminated tail once if it is not blank; no line holds a newline |
| Framer.CompleteLines | telegram_claude_bot.py:417-436 | when the deadline expires, only the newline-terminated lines read so far were processed; the partial tail is dropped |
| Framer.ChunkingIrrelevant | telegram_claude_bot.py:426-449 | two chunkings of the same byte stream hand over the same lines, at end of stream and on timeout |
| Classifier.Decode | telegram_claude_bot.py:380-386 | a line that strips to nothing yields no event; any other line is parsed after stripping, and a parse failure yields no event |
| Classifier.BlockStep | telegram_claude_bot.py:395-409 | a content block sends at most one status message, and only when verbose, with a chat, for a `tool_use` block; a sent message is at least 8 s after the last one, and `last_status_time` moves only on a delivered send; result and session id are untouched |
| Classifier.Notify | telegram_claude_bot.py:393-409 | the loop over `message.content` only appends status messages, keeps spacing, and sends none unless verbose with a chat |
| Classifier.ProcessLine | telegram_claude_bot.py:378-412 | an undecodable or blank line leaves the state unchanged; a `session_id` key overwrites the candidate id; a `result` event overwrites the result text; the throttle invariant is kept |
| Classifier.Classify | telegram_claude_bot.py:443-449 | folding every line only extends the status-message log, keeps its spacing, and sends nothing unless verbose with a chat |
| Classifier.LastOneWins | telegram_claude_bot.py:388-412 | after the whole stream the candidate session id is that of the last event carrying `session_id` (the caller's if none did), and the result is that of the last `result` event |
| Classifier.IgnoredLinesIrrelevant | telegram_claude_bot.py:380-386 | deleting a blank or undecodable line from anywhere in the stream changes nothing in the final state |
| Classifier.StatusThrottle | telegram_claude_bot.py:396-409 | over a whole invocation any two delivered status messages are at least `STATUS_THROTTLE_SECS` apart, the first at least that long after time 0 |
| Tools.Label | telegram_claude_bot.py:143-153 | a tool in the label table gets its label; any other tool gets a label starting `Using `, and no table label starts that way |
| Tools.Truncate | telegram_claude_bot.py:172-173 | a detail of at most 120 characters is kept; a longer one becomes its first 120 characters followed by `…` |
| Tools.ToolDetail | telegram_claude_bot.py:159-174 | the detail is at most 121 characters, empty for every tool without a rule, and ends in `…` exactly at position 120 when truncated |
| Tools.WebDetailPrefersUrl | telegram_claude_bot.py:170-171 | for WebFetch and WebSearch a non-empty `url` wins over `query`; an empty or missing `url` falls back to `query` |
| Tools.TruncateIdempotent | telegram_claude_bot.py:172-173 | truncating an already truncated detail changes nothing |
| Tools.StatusText | telegram_claude_bot.py:402-404 | the status message starts with `⏳ <label>...` and is exactly that when the detail is empty |
| Invocation.Args | telegram_claude_bot.py:348-358 | the argument vector has the binary, `--print`, the prompt as one argument and the fixed flags in order; `--resume <id>` is appended exactly when the session id is truthy |
| Invocation.ErrorText | telegram_claude_bot.py:461-467 | an error reply starts with `Claude error` and ends with the first 500 characters of the stripped standard error |
| Invocation.Outcome | telegram_claude_bot.py:417-477 | a timeout or non-zero exit returns the caller's session id, with the timeout text or an error text; a zero exit returns the last observed session id with the result or, when it is empty, the empty-response text; the text is never empty |
| Invocation.SuccessReportsLastObserved | telegram_claude_bot.py:469-477 | after a zero exit, the reply is determined by the stream alone: the last `session_id` seen and the last result, whatever the chunking |
| Invocation.FailureKeepsCallerSession | telegram_claude_bot.py:417-467 | after a timeout or a non-zero exit, the returned session id is the one the caller passed in |
| Invocation.CallThrottled | telegram_claude_bot.py:396-409 | one invocation's status messages are spaced at least 8 s apart however the process ends, and there are none unless verbose with a chat |
| Invocation.ErrorPrefixIff | telegram_claude_bot.py:461-477 | a reply starts with `Claude error` exactly when the process exited non-zero, or exited zero with a result that itself starts so; timeouts and empty responses never do |
| Sessions.Load | telegram_claude_bot.py:315-321 | a missing or unreadable sessions file reads as the empty map |
| Sessions.SetSession | telegram_claude_bot.py:332-335 | afterwards the chat's entry is the new id and every other chat's entry is as before |
| Sessions.ClearSession | telegram_claude_bot.py:337-340 | afterwards the chat has no entry and every other chat's entry is as before |
| Sessions.UnreadableStartsFresh | telegram_claude_bot.py:315-340 | writing over an unreadable file keeps only the entry just written, or nothing after a clear |
| Sessions.CallWithRetry | telegram_claude_bot.py:479-495 | the first call uses the stored id; a second call without a session, after clearing the entry, happens exactly when the stored id is truthy and the first reply starts with `Claude error`; the final truthy session id is stored, otherwise the entry is unchanged (no retry) or absent (after a retry); other chats are untouched |
| Sessions.AtMostTwoCalls | telegram_claude_bot.py:483-490 | `call_claude` is called once or twice, and a second call never resumes a session |
| Sessions.TimeoutNotRetried | telegram_claude_bot.py:487-490 | a first call that timed out, or that exited normally with a result not starting `Claude error`, is the only call |
| Sessions.FirstMessageStoresSession | telegram_claude_bot.py:483-495 | with no stored session the process runs without `--resume`, and the session id the stream reports last is stored for the chat |
| Chunker.RFind | telegram_claude_bot.py:196 | `rfind(sep, 0, end)` returns the last occurrence lying wholly before `end`, or -1 when there is none |
| Chunker.RFindCut | telegram_claude_bot.py:196-199 | the test `idx > 0` succeeds exactly when the separator occurs within the limit other than at the start, and then the cut falls just after its last such occurrence |
| Chunker.SplitPoint | telegram_claude_bot.py:194-199 | a cut of an over-long text is between 1 and 4096 |
| Chunker.SplitPointPrefers | telegram_claude_bot.py:194-199 | the cut falls after the last paragraph break within the limit, failing that after the last newline, failing that after the last space, failing all three at 4096 |
| Chunker.FindSplit | telegram_claude_bot.py:194-199 | the loop over the three separators computes the preferred cut |
| Chunker.Pieces | telegram_claude_bot.py:187-202 | the pieces before filtering concatenate exactly to the text, and each is non-empty and at most 4096 long |
| Chunker.PiecesStep | telegram_claude_bot.py:200-202 | each turn of the loop emits the text up to the cut and goes on with the rest |
| Chunker.NonBlank | telegram_claude_bot.py:204 | the filter keeps only pieces that are not all whitespace, each one a piece of the input, and keeps every piece that is not all whitespace |
| Chunker.NonBlankAppend | telegram_claude_bot.py:204 | filtering a list gives the filtered first part followed by the filtered second part |
| Chunker.NonBlankOne | telegram_claude_bot.py:204 | a single piece is kept exactly when it is not all whitespace |
| Chunker.NonBlankFront | telegram_claude_bot.py:204 | read front to back, each piece is kept, in order, exactly when it is not all whitespace |
| Chunker.ConcatNonBlank | telegram_claude_bot.py:204 | the kept pieces concatenate to the pieces with every all-whitespace one emptied |
| Chunker.SplitDropsOnlyBlank | telegram_claude_bot.py:187-204 | for any text, the pieces concatenate to the text, and the returned pieces concatenate to it with only all-whitespace pieces cut out |
| Chunker.DropBlank | telegram_claude_bot.py:204 | the filtering loop computes the filter |
| Chunker.SplitText | telegram_claude_bot.py:182-204 | a text of at most 4096 characters comes back as itself; a longer one comes back as the non-blank pieces, each at most 4096 long |
| Chunker.NonBlankPiecesFit | telegram_claude_bot.py:187-204 | every returned piece of a long text fits one message and is not blank |
| Chunker.NonBlankKeepsAll | telegram_claude_bot.py:204 | the filter drops nothing when no piece is blank |
| Chunker.SplitLossless | telegram_claude_bot.py:187-204 | when no piece is blank, the returned pieces concatenate back to the text |
| Delivery.Retry | telegram_claude_bot.py:210-233 | at most one attempt more than there are delays; every attempt but the last failed in a retriable way; the result is sent exactly when the last attempt delivered; it raises that attempt's error otherwise; it stops early only on success or a non-retriable error; the time waited is the sum of the delays used |
| Delivery.RetryFromSpec | telegram_claude_bot.py:220-233 | the same facts for the attempts from any index on |
| Delivery.TimeoutNotRetried | telegram_claude_bot.py:225-227 | by default a timed-out send is raised after one attempt and no waiting |
| Delivery.DefaultBudget | telegram_claude_bot.py:207 | with the default delays a send makes at most four attempts and waits at most 17 seconds |
| Delivery.SendChunk | telegram_claude_bot.py:238-256 | a chunk goes as HTML exactly when the HTML send succeeds; it is undeliverable only after a network error; any error that escapes is not a network error caught by the fallback |
| Commands.NormalizeChar | telegram_claude_bot.py:532 | a normalised character is never an upper-case ASCII letter, a space or a dash |
| Commands.CommandName | telegram_claude_bot.py:532 | the Telegram name is the first 32 characters normalised one by one, with no upper-case ASCII letter, space or dash |
| Commands.CommandNameIdempotent | telegram_claude_bot.py:532 | normalising a Telegram name again changes nothing |
| Commands.Register | telegram_claude_bot.py:522-534 | every discovered name gets an entry under its Telegram name; every entry maps back to a name that normalises to its key; the list and the map hold the same commands |
| Commands.SplitFirstWord | telegram_claude_bot.py:659 | `split(None, 1)` yields nothing for blank text, otherwise a non-empty space-free first word, and a rest that starts with a non-space if present |
| Commands.StripSlashes | telegram_claude_bot.py:660 | `lstrip("/")` removes exactly the leading slashes |
| Commands.TelegramCommand | telegram_claude_bot.py:660 | the command word loses everything from the first `@` |
| Commands.Rewrite | telegram_claude_bot.py:659-664 | blank text has no command word; otherwise the rewritten text starts with `/` |
| Commands.RewriteRegistered | telegram_claude_bot.py:659-664 | `/cmd@bot args` for a registered command comes back as `/<original name> args`, and the original normalises to `cmd` |
| Commands.RewriteKnown | telegram_claude_bot.py:659-664 | a command present in the table is replaced by its original, dropping `@bot` and keeping the arguments |
| Commands.RewriteUnknown | telegram_claude_bot.py:661-662 | an unknown command word passes through unchanged |
| Commands.SplitWordArgs | telegram_claude_bot.py:659 | a word, one space and arguments split into exactly that word and those arguments |
| PyText.Strip | telegram_claude_bot.py:380 | `strip()` is empty exactly for blank text, and otherwise starts and ends with a non-space character |
| PyText.IntToStringInjective | telegram_claude_bot.py:330 | distinct chat ids give distinct `str(chat_id)` keys |
| PyText.DigitsValueOfNatToString | telegram_claude_bot.py:79 | reading back the decimal index of a placeholder gives the index |
| Tokens.Placeholder | telegram_claude_bot.py:76-79 | a placeholder starts and ends with NUL |
| Html.Escape | telegram_claude_bot.py:97 | escaped text holds no `<`, `>`, `"` or `'` and is at least as long as the input |
| Html.EscapeAppend | telegram_claude_bot.py:97 | escaping a concatenation is concatenating the escapes |
| Html.UnescapeEscape | telegram_claude_bot.py:97 | unescaping the escaped text gives back the input, so escaping is applied once and loses nothing |
| Html.EscapeUnchangedIff | telegram_claude_bot.py:97 | escaping leaves a text unchanged exactly when it holds none of the five special characters |
| Fences.MatchAt | telegram_claude_bot.py:81 | a match from an opening fence spans fence, head, content and closing fence, all within the text |
| Fences.MatchWellFormed | telegram_claude_bot.py:81 | a match has a head of word characters with at most one final newline and a content with no triple backtick before its end |
| Fences.NoLaterMatch | telegram_claude_bot.py:81 | an opening fence with no closing fence after it means no later opening fence has one either |
| Fences.NextBlockLeftmost | telegram_claude_bot.py:81 | the block replaced next opens at the first opening fence that has a match, and there is none when no later fence matches |
| Fences.ScanLaid | telegram_claude_bot.py:81 | the blocks found lie in order along the text, without overlap, each spanning its own fenced text |
| Fences.ScanWellFormed | telegram_claude_bot.py:81 | every block found is one the pattern allows |
| Fences.ExtractFences | telegram_claude_bot.py:74-81 | every saved block is well formed and every hole left numbers a saved block |
| Fences.ExtractFencesLossless | telegram_claude_bot.py:74-81 | writing each hole back out as its block's fenced text gives back the input |
| Fences.ExtractFencesNulFree | telegram_claude_bot.py:74-81 | a NUL-free input gives a NUL-free stream and NUL-free blocks |
| Tables.RunLength | telegram_claude_bot.py:48-51 | the inner loop collects exactly the leading lines that contain a pipe |
| Tables.GroupLossless | telegram_claude_bot.py:45-66 | writing every table hole back out as its table gives back the input lines joined |
| Tables.ExtractTablesLossless | telegram_claude_bot.py:38-68 | `_extract_tables` loses nothing: the tables written back give the input text |
| Tables.GroupWithoutSeparator | telegram_claude_bot.py:53-63 | without a separator row among the pipe lines, every line is kept and no table is saved |
| Tables.NoSeparatorUnchanged | telegram_claude_bot.py:38-68 | a text whose pipe lines hold no separator row comes back unchanged, with no table saved |
| Tables.RunWithoutSeparatorKept | telegram_claude_bot.py:53-63 | a maximal run of pipe lines without a separator row comes out line for line, and the lines around it are grouped on their own |
| Tables.GroupSplitsAtPlainLine | telegram_claude_bot.py:45-66 | grouping is local: lines up to one without a pipe are grouped independently of what follows |
| Tables.GroupTables | telegram_claude_bot.py:53-61 | every saved table has at least two lines, each containing a pipe, one of them a separator row |
| Tables.ExtractTablesHoles | telegram_claude_bot.py:38-68 | after step 2 every hole numbers a saved block or a saved table, and every saved table is a real table |
| Tables.ExtractTablesNulFree | telegram_claude_bot.py:38-68 | a NUL-free stream gives a NUL-free stream and NUL-free tables |
| InlineCode.SpanEnd | telegram_claude_bot.py:94 | a span opens at the start exactly when some backtick closes a non-empty run of characters that are neither backticks nor newlines, and then the closing backtick found is such a one |
| InlineCode.Extract | telegram_claude_bot.py:87-94 | every saved span is non-empty and holds no backtick and no newline |
| InlineCode.ExtractLossless | telegram_claude_bot.py:87-94 | writing each hole back out between backticks gives back the text |
| InlineCode.ExtractHoles | telegram_claude_bot.py:87-94 | after step 3 every hole numbers a saved block, table or span |
| InlineCode.NoTickUnchanged | telegram_claude_bot.py:94 | a text without backticks is left as it is, with no span saved |
| InlineCode.ExtractNulFree | telegram_claude_bot.py:87-94 | a NUL-free stream gives a NUL-free stream and NUL-free spans |
| Markdown.Protect | telegram_claude_bot.py:73-94 | after steps 1 to 3 every hole numbers one of the saved contents |
| Markdown.ProtectLossless | telegram_claude_bot.py:73-94 | steps 1 to 3 lose nothing: writing every hole back out gives the input |
| Markdown.ProtectNulFree | telegram_claude_bot.py:73-94 | a NUL-free input gives a NUL-free stream and NUL-free saved contents |
| Markdown.EscapeToks | telegram_claude_bot.py:97 | escaping the token stream makes up no hole and writes no NUL |
| Markdown.EscapeMatchesSource | telegram_claude_bot.py:96-97 | escaping the token stream is `html.escape` of the placeholder-bearing text |
| Markdown.PlaceholderEscaped | telegram_claude_bot.py:97 | `html.escape` leaves every placeholder unchanged |
| Markdown.EscapeNoNul | telegram_claude_bot.py:97 | `html.escape` writes no NUL of its own |
| Markdown.BoldClose | telegram_claude_bot.py:103 | the lazy match closes at the first `**` after at least one character with no newline in between |
| Markdown.BoldHoles | telegram_claude_bot.py:103 | the bold step makes up no hole |
| Markdown.BoldNulFree | telegram_claude_bot.py:103 | the bold step writes no NUL |
| Markdown.BoldWithoutStars | telegram_claude_bot.py:103 | without `*` the bold step changes nothing |
| Markdown.BoldIsStyle | telegram_claude_bot.py:103 | the bold step is a styling step of the kind the protection assumes |
| Markdown.FillThrice | telegram_claude_bot.py:116-124 | the three restore loops in turn are one pass in which each hole takes the first image it has; a hole with none stays as its placeholder |
| Markdown.RenderRestoresOriginals | telegram_claude_bot.py:71-126 | the output is the styled text with every hole replaced by the input text it protected, escaped once and wrapped in `<pre>` or `<code>`, whatever the styling did |
| Markdown.RenderAsWrittenRestoresSaved | telegram_claude_bot.py:116-124 | the source's restore writes tables and spans from their saved text, in which a nested code block is still a placeholder |
| Markdown.AsWrittenAgreesWithoutNesting | telegram_claude_bot.py:116-124 | when no saved table or span holds a hole, the source's restore and the corrected one give the same output |
| Markdown.AllHolesRestored | telegram_claude_bot.py:116-124 | with a styling step that makes up no hole, every hole reaching step 10 has a saved content to restore |
| Markdown.RenderNoNul | telegram_claude_bot.py:71-126 | with the corrected restore, a NUL-free input renders to NUL-free HTML: no placeholder survives |
| MarkdownCases.PlainTextUnchanged | telegram_claude_bot.py:71-126 | text with nothing to protect, escape or style comes out exactly as it went in |
| MarkdownCases.FencedBlockVerbatim | telegram_claude_bot.py:81-118 | a lone fenced block renders as `<pre>` around its escaped content, the language word dropped and nothing styled |
| MarkdownCases.SampleFences | telegram_claude_bot.py:81 | in `` `a```x```b` `` the fence pattern matches the inner `` ```x``` `` as a block with empty content |
| MarkdownCases.SampleInline | telegram_claude_bot.py:94 | the sample then becomes one inline span whose content holds the block's hole |
| MarkdownCases.SourceLeaksPlaceholder | telegram_claude_bot.py:116-124 | the source's restore renders the NUL-free sample as `<code>a\x00CB0\x00b</code>`, which holds NUL characters |
| MarkdownCases.CorrectedRestoresSample | telegram_claude_bot.py:116-124 | the corrected restore renders the sample as `<code>` around its inner text `` a```x```b `` |

## Left out

- Telegram transport: `reply_text`, `send_message`, `send_action`, `get_file`, `download_to_drive` and
  `set_my_commands`. These are foreign calls. Their outcomes enter only as oracle values.
- Handler registration, the error handler, and the prompts built by `handle_document` and `handle_photo`.
  These are plumbing around the core.
- Process and async machinery: `create_subprocess_exec`, `kill`, `communicate`, `wait` and `wait_for`.
  The deadline is the abstract `Timeout` exit, and the 1 MiB read size plays no part (`Framer.ChunkingIrrelevant`).
- `send_typing_loop` and its cancellation, and the per-chat `asyncio.Lock`. These are concurrency, outside a
  sequential model.
- Sessions file I/O. Only the map and the "unreadable becomes empty" rule are kept.
  - The atomic temp-file rename is I/O.
  - A file holding valid JSON that is not an object of strings is read as `Unreadable`. The source would fail
    later on such a file.
- `discover_claude_commands`, which scans directories. Only its naming and registration loop is modelled
  (`Commands.Register`). The descriptions and the 256-character cut are display text.
- YAML configuration, signal handling, `run_all` and `main`: process setup.
- UTF-8 decoding. `Classifier.Decode` treats `raw.decode()` as a total function. A decode error in the source
  aborts `call_claude`, and that path is not modelled.
- Classifier.Decode: the JSON decoder returns an event or nothing. A line that is valid JSON but not an
  object (`123`, `"x"`, `[]`) makes `data.get` raise at telegram_claude_bot.py:388, and an assistant event
  whose `message` is not an object raises at line 394. Nothing catches these errors, so `call_claude` aborts.
  The model has no abort outcome for them: such a line is either an event or ignored.
- JSON parsing is opaque. Events whose `session_id` or `result` is neither a string nor missing are not
  modelled. A `session_id` of JSON `null` is modelled.
- Classifier.BlockStep: clock readings are natural numbers, whereas `time.monotonic()` returns a float.
  Sub-second differences are not modelled.
- The styling passes other than `**bold**`: headers, `__bold__`, italic, strikethrough and links.
  - They are the `style` parameter of `Markdown.Render`, constrained only to make up no hole and write no NUL.
  - Their regular-expression semantics (look-around, multiline anchors) are not modelled.
- Markdown.Protect: the model keeps holes atomic. The source's `str.replace` in step 10 would also match a
  placeholder that appears literally in the text. That happens when the input itself holds NUL characters, or
  when the closing NUL of one placeholder, literal text such as `CB1` and the opening NUL of the next
  placeholder line up. `Markdown.RenderNoNul` assumes a NUL-free input, and the contrived adjacent-placeholder
  case is not modelled.
- Fences.MatchAt: a word character after an opening fence is ASCII only (`Fences.IsWordChar`). The pattern
  at telegram_claude_bot.py:81 runs on a `str`, so Python's `\w` also takes letters and digits of other
  scripts. On ```` ```über\ncode``` ```` the source saves `code` and the model saves `über\ncode`; on
  ```` ```日本語``` ```` the source saves an empty block and the model saves `日本語`. The span of each match is
  the same; only the split between language word and content differs. The Unicode table is not modelled.
- Fences.MatchWellFormed: its head of word characters is ASCII only, for the reason given under `Fences.MatchAt`.
- Fences.ExtractFences: the saved content of a block whose language word has letters outside ASCII keeps
  that word, for the reason given under `Fences.MatchAt`.
- MarkdownCases.FencedBlockVerbatim: its requires, that the language word is made of word characters, uses
  the ASCII class, for the reason given under `Fences.MatchAt`. A language word in another script is not covered.
- Chunker.SplitLossless: states exact reassembly only when no piece is blank. The general promise, that the
  pieces dropped are whitespace only, is `Chunker.SplitDropsOnlyBlank`.
- Commands.NormalizeChar: lower-cases ASCII letters only. Python's `str.lower` also maps letters of other
  scripts, and that Unicode table is not modelled.
- Delivery.SendChunk: models one iteration of the loop in `send_long_message`. That the loop stops at the first
  chunk whose error escapes follows from Python's exception semantics and is not stated.
- Renderer styling: the promise that protected content is never styled is stated against an arbitrary styling
  function (`Markdown.RenderRestoresOriginals`). The concrete bold pass is not composed with the other passes.

## Findings

| source | as written | input that shows it | evidently intended | confidence | as-written member | corrected member |
|---|---|---|---|---|---|---|
| telegram_claude_bot.py:116-124 | Step 10 restores code blocks first, then tables, then inline code, each with a single `str.replace`. A fenced block that steps 1 to 3 saved inside a table row or an inline span is in that saved text only as its placeholder. The code-block loop has already run when the table or span is written back, so the placeholder reaches the output. | `` `a```x```b` `` (no NUL) renders as `<code>a\x00CB0\x00b</code>` | Every protected region comes back as the input text it replaced, so a NUL-free input gives NUL-free HTML. Here the output should be `<code>` around `` a```x```b ``. | not executed | MarkdownCases.SourceLeaksPlaceholder | Markdown.RenderNoNul |
