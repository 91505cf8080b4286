# Landing-page generator: relay, stream reader and history, in Dafny

The application turns a prompt into a single HTML page. Three pieces of it
are modelled here, and together they form one text pipeline:

- **The relay endpoint** (`POST /api/generate`). It reads the upstream
  completion stream one read at a time and splits each read on `\n`. It
  drops blank lines and strips a leading `data: `. It skips the `[DONE]`
  message and parses each remaining line. For every line with non-empty
  content it writes one record `{"chunk": content}` and a newline. A normal
  upstream end closes the response stream and an error aborts it. A failure
  before streaming gives status 500 with `{ error: 'Failed to generate code' }`.
- **The page's generate action** (`generateLandingPage`). It returns at once
  on an empty prompt. Otherwise it resets the code on display and reads the
  relay's stream, keeping a text buffer: each read is appended, the buffer is
  split on `\n`, and the last piece stays in the buffer. Every complete,
  non-blank line that decodes to a non-empty `chunk` adds that chunk to the
  code and to the display. On a normal end it marks the generation finished
  and saves one history entry. A read error or abort leaves the loop without
  saving.
- **The history store** (`historyManager`). It keeps a newest-first list of at
  most 10 versions under the storage key `generation-history`.

Files:

- `wrappers.dfy`: `Option`.
- `streams.dfy`: what a reader observes, `Trace(chunks, end)`. It lists the
  text of each successful read and ends either `Done` or `Broken`; an abort
  is `Broken`.
- `lines.dfy`: `split('\n')`, `join('\n')` and the `trim()` blank test. It
  also holds the "append, emit complete lines, keep the remainder" framing,
  with its lemmas.
- `envelope.dfy`: the record `JSON.stringify({ chunk })` with JSON string
  escaping, and a decoder proved to read it back.
- `relay.dfy`: the endpoint, with the response writer as a class.
- `consumer.dfy`: the page, as a class whose methods update its fields.
- `history.dfy`: the history store, as a class over a key-value map.
- `pipeline.dfy`: the relay and the page together.

Abstractions:

- `JSON.parse` plus the content lookup is a function parameter on each side.
  On the relay, `parse: string -> Option<string>` gives `None` when the parse
  throws and `Some("")` when there is no content. On the page, `decode`
  gives `None` when the parse throws and `Some("")` when there is no `chunk`.
  The end-to-end results instantiate `decode` with the concrete
  `Envelope.Decode`.
- `localStorage` is a `map<string, StoredValue>`. The history slot holds the
  list itself rather than its JSON text.
- `Date.now()` is a parameter.

The model follows the code in three places a reader might not expect:

- `[DONE]` is skipped with `continue`; it does not stop reading.
- A line that fails to parse on the relay is logged and skipped; it does not
  abort the response stream.
- After a read error or an abort, the page keeps the code it has shown so far
  rather than discarding it.

## Model

| member | source | states |
|---|---|---|
| Lines.IsBlank | src/app/api/generate/route.ts:46 | `line.trim() === ''`: a line is blank exactly when every character is one `trim` removes (ECMAScript white space and line terminators) |
| Lines.Split | src/app/page.tsx:190 | `split('\n')`: the string gives exactly one more piece than it holds newlines, so never an empty list |
| Lines.SplitPiecesHaveNoNewline | src/app/page.tsx:190 | no piece of `split('\n')` holds a newline |
| Lines.JoinSplit | src/app/page.tsx:190 | joining the pieces of a split with `\n` gives back the string: splitting loses and duplicates nothing |
| Lines.SplitJoin | src/app/page.tsx:190 | a non-empty list of newline-free pieces is what the split of its join returns |
| Lines.SplitAtNewline | src/app/api/generate/route.ts:46 | a newline separates the pieces before it from those after it |
| Lines.SplitAppend | src/app/page.tsx:188-191 | text appended after `x` leaves the complete lines of `x` alone and only extends its unterminated tail |
| Lines.FrameStep | src/app/page.tsx:188-191 | one read of the framing loop adds exactly the complete lines of (old buffer + text), and the new buffer is the remainder of that |
| Lines.FrameLosesNothing | src/app/page.tsx:188-191 | the complete lines, each followed by `\n`, and then the new buffer, equal the old buffer plus the new text |
| Lines.RemainderHasNoNewline | src/app/page.tsx:191 | the retained buffer never holds a newline |
| Lines.LinesHaveNoNewline | src/app/page.tsx:190-193 | no complete line holds a newline |
| Lines.TerminatedFraming | src/app/page.tsx:190-191 | newline-terminated lines followed by an unterminated fragment frame into exactly those lines, with the fragment left in the buffer |
| Lines.TrailingFragmentStaysBuffered | src/app/page.tsx:191 | a fragment after the last newline is not a complete line; it stays in the buffer |
| Lines.BlankAppend | src/app/api/generate/route.ts:46 | two pieces together are blank under `trim()` exactly when both are |
| Lines.FlattenAppend | src/app/page.tsx:188 | the text of reads `a + b` is the text of `a` followed by that of `b` |
| Envelope.Encode | src/app/api/generate/route.ts:56 | `JSON.stringify({ chunk })`: defined as `{"chunk":"`, the content with JSON string escaping, then `"}`; its properties are the three lemmas below |
| Envelope.EncodeIsOneLine | src/app/api/generate/route.ts:56 | a record has no raw newline and is never blank |
| Envelope.UnquoteQuote | src/app/api/generate/route.ts:56 | JSON string escaping is undone by JSON string unescaping |
| Envelope.DecodeEncode | src/app/api/generate/route.ts:56 | every record decodes to the content it was made from |
| Envelope.EncodeInjective | src/app/api/generate/route.ts:56 | distinct contents give distinct records |
| Relay.StripData | src/app/api/generate/route.ts:49 | `data: ` is removed exactly when the line starts with it, once; otherwise the line is unchanged |
| Relay.LineFragment | src/app/api/generate/route.ts:49-60 | a line contributes content exactly when it is not `[DONE]` after stripping and it parses to non-empty content, and then it contributes that content |
| Relay.NonBlank | src/app/api/generate/route.ts:46 | the `trim() !== ''` filter: at most as many lines, every kept line is one of the input and is not blank, and every non-blank input line is kept |
| Relay.ReadFragments | src/app/api/generate/route.ts:45-61 | the contents one read gives: every one non-empty, and no more of them than the read has pieces after `split('\n')` |
| Relay.Fragments | src/app/api/generate/route.ts:41-62 | the contents a run of reads gives, read after read; every one is non-empty, as the `if (content)` test demands |
| Relay.Record | src/app/api/generate/route.ts:56 | `JSON.stringify({ chunk }) + '\n'`: ends in its only newline, and the line before it decodes to the content |
| Relay.RelayLines | src/app/api/generate/route.ts:48-61 | relaying lines appends the records of their fragments, in order, and leaves the stream open |
| Relay.Post | src/app/api/generate/route.ts:3-84 | setup failure gives status 500 with the fixed message; otherwise status 200, a body that is the records of all upstream fragments in order, closed iff the upstream ended normally and aborted iff it failed |
| Relay.Writer.Write | src/app/api/generate/route.ts:56 | a write appends its text and leaves the stream open |
| Relay.Writer.Close | src/app/api/generate/route.ts:63 | closing keeps what was written |
| Relay.Writer.Abort | src/app/api/generate/route.ts:66 | aborting keeps what was written |
| Relay.LinesFragmentsAppend | src/app/api/generate/route.ts:48-61 | the fragments of two runs of lines are those of each, in order |
| Relay.SilentLineIsSkipped | src/app/api/generate/route.ts:50-60 | a line that contributes nothing does not end the loop: later lines contribute as if it were absent |
| Relay.DoneIsSilent | src/app/api/generate/route.ts:50 | `[DONE]`, with or without `data: `, contributes nothing |
| Relay.OneLineOneFragment | src/app/api/generate/route.ts:53-57 | a line with content gives exactly one fragment |
| Relay.ReadsAreIndependent | src/app/api/generate/route.ts:41-46 | each read is handled on its own: reads `r1 + r2` give the fragments of `r1` followed by those of `r2` |
| Relay.RecordsAppend | src/app/api/generate/route.ts:56 | records of two runs of fragments are written one after the other |
| Relay.RecordsAreTerminatedLines | src/app/api/generate/route.ts:56 | the body is the records as newline-terminated lines with nothing after the last newline |
| Relay.NonBlankAppend | src/app/api/generate/route.ts:46 | the blank-line filter distributes over concatenation |
| Relay.SplitLineIsLost | src/app/api/generate/route.ts:45-46 | a line whose halves carry nothing alone is lost when cut across two reads; in one read, or with a carry-over buffer, its content arrives |
| Relay.SampleLineIsLost | src/app/api/generate/route.ts:45-46 | a completion event cut after `"choices"` gives no record; the same text in one read gives `"x"` |
| Relay.PostBuffered | src/app/api/generate/route.ts:41-63 | the endpoint with a carry-over buffer: the body is the records of the fragments of every complete upstream line |
| Relay.BufferedStep | src/app/api/generate/route.ts:41-63 | one read of the buffered relay adds the records of the lines it completes |
| Relay.BufferedMatchesSingleRead | src/app/api/generate/route.ts:45-46 | when the upstream text ends with a newline, however it is cut into reads, the buffered relay gives what one read of the whole text gives |
| Consumer.LineChunk | src/app/page.tsx:194-205 | a blank line, a line that does not parse, and an empty chunk add nothing; otherwise the decoded chunk is added |
| Consumer.Code | src/app/page.tsx:193-206 | the code the complete lines add, defined line by line: the code of all but the last line, then the last line's chunk |
| Consumer.CodeIsChunks | src/app/page.tsx:193-206 | the code of a list of lines is the chunk of each line, concatenated in order |
| Consumer.StreamCode | src/app/page.tsx:188-206 | the code shown after reading some text is that of its newline-terminated lines; text with no newline yet shows nothing |
| Consumer.Decimal | src/app/page.tsx:178 | `Date.now().toString()`: at least one decimal digit, all digits, and no leading zero |
| Consumer.DecimalValue | src/app/page.tsx:178 | the id text reads back as the clock value it was made from, so distinct clock values give distinct ids |
| Consumer.CodeAppend | src/app/page.tsx:193-206 | the code of two runs of lines is the code of each, in order |
| Consumer.SilentLineIsSkipped | src/app/page.tsx:194-205 | a line that adds nothing does not stop the loop: later lines add as if it were absent |
| Consumer.TrailingFragmentIsDropped | src/app/page.tsx:174-191 | text after the last newline when the stream ends is never added to the code |
| Consumer.StreamStep | src/app/page.tsx:188-206 | a read adds the code of the lines completed by (buffer + text) |
| Consumer.Page.AppendLines | src/app/page.tsx:193-206 | processing lines appends their code to both the accumulated code and the display |
| Consumer.Page.ReadStream | src/app/page.tsx:167-211 | after the reads, the accumulated code and the display both equal the code of every complete line of the text read, however it was cut into reads (that the buffer never holds a newline is a loop invariant, from `Lines.RemainderHasNoNewline`, not part of the contract) |
| Consumer.Page.GenerateLandingPage | src/app/page.tsx:143-218 | an empty prompt changes nothing; otherwise loading ends false, a failed request leaves the display empty, the display is the code of the complete lines read, the page is finished iff the stream ended normally, and only then is one version with the prompt and that code saved at the front of the history; the storage is otherwise unchanged |
| History.Prepend | src/lib/history.ts:16 | the new version is first, followed by the old entries in order, and the length is min(old length + 1, 10) |
| History.EvictsOldest | src/lib/history.ts:4-16 | saving into a full history drops exactly its oldest entry |
| History.SaveAllIsNewestFirst | src/lib/history.ts:14-19 | after a run of saves the history is the saved versions newest first, then the earlier history, cut to 10 |
| History.SaveAllBounded | src/lib/history.ts:4-17 | the history never grows past 10 entries if it started at 10 or fewer |
| History.Store.GetHistory | src/lib/history.ts:7-12 | no window or no stored key gives the empty list; otherwise the stored list |
| History.Store.SaveVersion | src/lib/history.ts:14-19 | stores and returns the prepended, truncated list; a following `GetHistory` returns it; only the history key changes; without a window it fails and nothing changes |
| History.Store.ClearHistory | src/lib/history.ts:21-23 | removes only the history key, after which `GetHistory` is empty; without a window it fails and nothing changes |
| Pipeline.EnvelopeReadsRecordsBack | src/app/page.tsx:196-197 | the page's decoder reads every relay record back as its content |
| Pipeline.CodeOfRecords | src/app/page.tsx:193-206 | the page's code for the relay's record lines is the concatenation of their contents |
| Pipeline.RecordsAreReadBack | src/app/page.tsx:188-206 | however the relay's records are cut into reads, the page's code is the concatenation of their contents |
| Pipeline.RelayThenPage | src/app/api/generate/route.ts:53-57 | end to end, the page shows the relay's upstream fragments concatenated in order |
| Pipeline.BufferedRelayThenPage | src/app/api/generate/route.ts:41-63 | end to end with the buffered relay, the page shows the content of every complete upstream line |
| Pipeline.Exchange | src/app/page.tsx:153-163 | with a non-empty prompt sent through the relay, the page shows the upstream fragments, is finished iff the upstream ended normally, and then saves that code as the newest history entry |

## Left out

- `JSON.parse` and the property lookups after it are function parameters (`parse`, `decode`), not a JSON parser. A non-string `content` or `chunk` value is not modelled.
- `TextDecoder`/`TextEncoder` are left out. A fresh decoder per read can split a multi-byte character across reads; the model works on text.
- The upstream `fetch`, its request body and system prompt, and the response headers are I/O and are not part of this model. A failed fetch or a missing body is a `Broken` trace with no reads.
- Asynchronous scheduling and `AbortController` are not modelled. An abort is a `Broken` trace.
- Toasts, console logging, `setActiveTab` and the rest of the page are presentation only.
- Relay.Post: the real handler returns the response at once and writes it later; the model follows the stream to its end before returning.
- Consumer.Page.GenerateLandingPage: the two `Date.now()` reads for the id and the timestamp are taken as one clock value `now`.
- History.Store.GetHistory: a history slot that holds text that is not a JSON list, where `JSON.parse` would throw, is excluded by `Valid()`.
- Envelope.Decode: it reads only the exact shape the relay writes. It has no whitespace or other keys, and it rejects `\u` escapes of surrogates, so it is a witness decoder rather than a full JSON parser.
- Relay.Writer.Write: writes never fail in the model. In the source a rejected write, for example after the page aborts, is caught by the same `catch` as a parse error, logged, and the loop goes on reading the upstream; that record is lost.
- Pipeline.Exchange: the transport from the relay to the page is taken as lossless up to an abort: the page reads every byte the relay wrote before it sees the stream break.
- Relay.PostBuffered: like the page, it never relays an unterminated line left when the upstream ends.

## Findings

| source | as written | input that shows it | evidently intended | confidence | as-written member | corrected member |
|---|---|---|---|---|---|---|
| src/app/api/generate/route.ts:45-46 | each upstream read is split into lines on its own, with no carry-over of an unfinished line | the event `data: {"choices":[{"delta":{"content":"x"}}]}` and its newline arriving as two reads, cut after `"choices"`: neither half parses, so no record is written | keep the unterminated end of each read and complete it with the next, as the page does with its own buffer | medium; not executed | Relay.SplitLineIsLost | Relay.PostBuffered |
