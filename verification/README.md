# A verified model of the chunking and translation core of a text translator

The system translates long texts with one of three providers: OpenAI (`gpt4`),
Anthropic (`claude`) or Google Cloud Translation (`google`). The browser cuts
the text into paragraph-aligned chunks and posts them one at a time to a
small server. The server checks the stored credentials, cuts each posted text
again with `splitTextIntoChunks`, and calls the provider once per chunk, in
order. It then joins the translated chunks with a blank line. A settings
endpoint and a configuration service keep the provider keys. A non-blank
Google service-account key is validated before it is stored.

This project models that core in Dafny and proves its properties. The modules
follow the program's files:

| module | file | content |
|---|---|---|
| `Base` | (shared) | `Option`, `Result`, thrown faults (`Error(message)` or a non-`Error` value), sequence helpers |
| `Text` | (shared) | the ECMAScript whitespace class, `trim`, `Array.prototype.join` |
| `Splitting` | (shared) | `String.prototype.split` with `/\n\n+/` and `/\n\s*\n/`, and `match(/[^.!?]+[.!?]+/g)` |
| `Catalog` | src/types.ts | languages, models and chunk sizes; `getChunkSize` |
| `Chunker` | src/services/translation.ts | `splitTextIntoChunks` and its shape |
| `Translation` | src/services/translation.ts | `translate`: credential switch, chunk loop, join |
| `ClientApi` | src/lib/api.ts | the browser's pre-chunker and request loop |
| `Credentials` | (shared) | the service-account fields the code reads |
| `Server` | server/index.ts | `POST /api/translate` and `POST /api/settings` |
| `Config` | server/services/config.ts | `saveSettings`, `getSettings` |
| `Pipeline` | (both sides) | what the server chunker does to a chunk the browser sends |

Several things that cannot be written in Dafny are passed in as parameters:

- The provider SDK calls are functions from a chunk to a reply: a thrown fault, or a response whose text may be missing.
- `JSON.parse` of a key is a function from the key text to a parsed value, `null`, or a syntax error with its message.
- The HTTP exchange of the browser is a function from a chunk to the server's answer.
- The write to settings.json is a boolean in `Server`. In `Config` it is the fault the write throws, if any.

A JavaScript string is a `seq<char>` holding one `char` per UTF-16 code
unit, so `length` is `|s|`. Dafny's `char` is a Unicode scalar value and
has no surrogates, so each code unit of a surrogate pair stands for a
`char` of its own, a different one for each code-unit value. That `char` is neither whitespace nor `.`, `!` or `?`; a
private-use character of plane 15 will do. Nothing in the model looks at
such a character in any other way (see "## Left out").

Both regular-expression splits are modelled by searching for the leftmost match and recursing on the suffix after it. This is
equivalent to ECMAScript's `split` because neither pattern looks behind.

## Behaviour worth knowing

Each point below is a property of the code, proved by the member named.

- **Any chunk limit is accepted.** `splitTextIntoChunks` has no guard on its limit, so `Chunker` takes any integer, zero and negative ones included.
- **Whitespace-only text yields empty chunks.**
  - Whitespace-only text yields only empty chunks (`WhitespaceTextEmptyChunks`).
  - Such text without a blank line yields exactly `[""]` (`WhitespaceParagraphOneEmptyChunk`).
  - Text made only of two or more line feeds yields no chunk at all (`NoChunksIffNoParagraphText`).
- **The sentence fallback loses text.** When an oversized paragraph has at least one sentence match, the text after its last match is dropped, and so are the terminators before its first (`SentenceMatchesCover`, `SentencePathDropsTail`). A paragraph without any sentence match, such as `"...."` or `"!!! abc"`, is kept whole (`SentenceUnits`).
- **Two kinds of chunk may exceed the limit.** One is a single sentence match longer than the limit. The other is an oversized paragraph without any sentence match, which is kept whole (`ChunksWithinLimit`).
- **Blank text is translated.** The server handler refuses only the empty string (`HandleTranslate`). A blank text is chunked and sent to the provider (`BlankTextIsSent`).
- **`getChunkSize`'s error cannot be reached from `translate`.** The credential switch rejects an unknown model id first, with `settings.errors.unsupportedModel`. Every id it accepts has a catalog chunk size (`KnownProviderHasChunkSize`).
- **Missing OpenAI content is not an error.** It becomes the empty text, while missing Claude or Google content is an error (`ReadReply`).
- **`null` is the only parsed key the Google checks tell apart.** Reading a field of `null` throws, and the model records that case as `Json.Null`. Any other parsed value reads a missing field as `undefined`, so it fails only the missing-fields check (`GoogleArguments`, `GoogleKeyUpdate`, `Config.Validate`). The raw-key path inside `translate` reads no field, so a key text of `null` passes it (`GoogleClientFault`).

## Model

| member | source | states |
|---|---|---|
| Text.Trim | src/services/translation.ts:41 | the trimmed chunk neither starts nor ends with whitespace, and is empty exactly when the input is all whitespace |
| Text.TrimContent | src/services/translation.ts:41 | trimming removes only a whitespace prefix and a whitespace suffix; what is left is an exact substring of the input |
| Splitting.MatchEnd | src/services/translation.ts:34 | a match of either separator starts and ends with a line feed and covers only line feeds (`/\n\n+/`) or only whitespace (`/\n\s*\n/`) |
| Splitting.MatchEndLongest | src/services/translation.ts:34 | a match at a position exists exactly when some delimiter-shaped stretch starts there, and it ends at the last such stretch (greedy); `/\n\n+/` matches exactly where two line feeds start |
| Splitting.Split | src/services/translation.ts:34 | splitting always yields at least one piece |
| Splitting.Delimiters | src/lib/api.ts:12 | there is one removed match fewer than pieces, and each has the separator's shape |
| Splitting.SplitReassembles | src/services/translation.ts:34 | splitting loses nothing but the matches: putting the pieces and the matches back together alternately gives the input |
| Splitting.SplitWellSeparated | src/lib/api.ts:12 | no piece of a split contains a stretch a match of the separator could cover (so no two adjacent line feeds); pieces do not begin or end with a line feed at an inner boundary; only the first and last piece can be empty |
| Splitting.SplitPiecesHoldNoMatch | src/lib/api.ts:12 | the separator's regular expression matches at no position of any piece |
| Splitting.SplitJoinParagraphs | src/services/translation.ts:34 | splitting on `/\n\n+/` undoes joining with a blank line, for any such list of pieces |
| Splitting.ParagraphsAllEmpty | src/services/translation.ts:34 | every paragraph is empty exactly when the text is empty or consists of two or more line feeds only |
| Splitting.SentenceMatchesShape | src/services/translation.ts:53 | every sentence match is a run of non-terminators followed by a run of terminators |
| Splitting.SentenceMatchesCover | src/services/translation.ts:53 | the matches, concatenated, are the text minus leading terminators and minus a terminator-free tail |
| Splitting.SentenceUnits | src/services/translation.ts:53 | the units of the sentence loop are the matches or, when there are none, the whole paragraph; at least one, none empty for a non-empty paragraph |
| Splitting.NoTerminalNoSentence | src/services/translation.ts:53 | text without `.`, `!` or `?` has no sentence match |
| Chunker.SplitTextIntoChunksLoop | src/services/translation.ts:33-74 | the paragraph loop with its push-and-reset flushes computes the chunk list of the functional definition |
| Chunker.PackSentencesLoop | src/services/translation.ts:54-63 | the sentence loop and its final flush compute the sentence chunks of the functional definition |
| Chunker.ChunksFollowSegments | src/services/translation.ts:34-71 | the paragraphs fall into consecutive segments in order. A run of fitting paragraphs yields its blank-line join, trimmed and within the limit, or nothing if all are empty. An oversized paragraph stands alone and yields its sentence chunks. A run ends only when the next paragraph would not fit after its non-empty text |
| Chunker.MaximalSegmentsGiveChunks | src/services/translation.ts:34-71 | that segmentation determines the output: any segments with those properties produce exactly the chunks of `splitTextIntoChunks` |
| Chunker.EmptyTextNoChunks | src/services/translation.ts:34-73 | the empty text yields no chunk, whatever the limit |
| Chunker.PendingWithinLimit | src/services/translation.ts:40-65 | the pending chunk is empty or within the limit after every paragraph |
| Chunker.SecondFlushIdle | src/services/translation.ts:47-51 | the flush inside the oversized branch never fires: the first flush has already emptied the pending chunk |
| Chunker.ChunksWithinLimit | src/services/translation.ts:40-65 | every chunk is within the limit except a trimmed single sentence unit longer than the limit: one sentence match, or a whole paragraph without any sentence match |
| Chunker.SentenceChunksWithinLimit | src/services/translation.ts:53-63 | each sentence chunk is within the limit or one oversized unit, trimmed |
| Chunker.SentenceChunksGroup | src/services/translation.ts:53-63 | the sentence chunks of a non-empty paragraph are its sentence units in consecutive non-empty groups, in order, each concatenated and trimmed; a group over the limit is a single unit, and a new group starts only when the next unit would not fit after the previous group |
| Chunker.SentenceGroupingUnique | src/services/translation.ts:53-63 | that grouping determines the output: any grouping of the sentence units with those properties gives exactly the sentence chunks |
| Chunker.NoOversizedParagraphsGroupChunks | src/services/translation.ts:38-71 | when no paragraph exceeds the limit, the chunks are the trimmed blank-line joins of consecutive runs of paragraphs, in order |
| Chunker.FittingParagraphsOneChunk | src/services/translation.ts:38-71 | paragraphs whose blank-line join fits the limit become that join trimmed, or nothing when all are empty |
| Chunker.SingleParagraphChunks | src/services/translation.ts:38-71 | a lone paragraph becomes its sentence chunks when oversized, nothing when empty, otherwise itself trimmed |
| Chunker.SentenceChunksEmpty | src/services/translation.ts:53-63 | an oversized paragraph yields no sentence chunk exactly when it is empty |
| Chunker.NoChunksIffNoParagraphText | src/services/translation.ts:34-73 | no chunk at all exactly when the text is empty or two or more line feeds only; any other text yields a chunk |
| Chunker.WhitespaceTextEmptyChunks | src/services/translation.ts:63-71 | whitespace-only text yields only empty chunks |
| Chunker.WhitespaceParagraphOneEmptyChunk | src/services/translation.ts:63-71 | a non-empty whitespace text without a blank line yields exactly one empty chunk |
| Chunker.NoLineFeedOneParagraph | src/services/translation.ts:34 | a text without line feeds is a single paragraph |
| Chunker.SentencePathDropsTail | src/services/translation.ts:53-63 | with limit 2, `"A. b"` yields only `"A."`: the tail after the last terminator is lost |
| Catalog.FindModel | src/services/translation.ts:25 | the lookup returns the first entry with the id, and nothing exactly when no entry has it |
| Catalog.FindModelOfEntry | src/services/translation.ts:25 | with distinct ids the lookup of an entry's id returns that entry |
| Catalog.GetChunkSize | src/services/translation.ts:24-30 | succeeds exactly for catalog ids, with that entry's chunk size; otherwise fails with `Unknown model: ` and the id |
| Catalog.ChunkSizeOfEntry | src/services/translation.ts:24-30 | every catalog entry's id yields that entry's own chunk size |
| Catalog.ModelCatalog | src/types.ts:30-34 | three models with distinct ids and positive chunk sizes: `gpt4` 1000, `claude` 1000, `google` 20000 |
| Catalog.LanguageCatalog | src/types.ts:19-28 | six languages with distinct codes; the interface languages are the same list |
| Translation.SelectProvider | src/services/translation.ts:102-125 | each id selects its provider exactly when its credentials are present; otherwise `openaiKeyNotSet`, `anthropicKeyNotSet` or `googleConfigNotSet` for the missing credential, and `unsupportedModel` for any other id |
| Translation.GoogleClientFault | src/services/translation.ts:160-176 | a Google key still given as text fails with `invalidGoogleKey` exactly when it does not parse, whatever value it parses to; a key object is never parsed |
| Translation.ReadReply | src/services/translation.ts:140-188 | a thrown fault passes through. Missing OpenAI content reads as the empty text. Missing Claude content, or missing or empty Google text, is an error. A Google text is never empty |
| Translation.TranslateChunks | src/services/translation.ts:130-194 | on success every chunk is sent once, in order, and each text is that chunk's reply. On failure the fault is the first failing chunk's; only chunks up to it were sent, that one included when the provider was reached |
| Translation.Translate | src/services/translation.ts:85-197 | a credential failure returns before any chunking or call. Otherwise the chunk size is the catalog's for the id and the calls are a prefix of the chunks, all of them on success; a failure after selection is the fault and the calls of the chunk loop, that is of the first failing chunk |
| Translation.KnownProviderHasChunkSize | src/services/translation.ts:102-127 | every id the switch accepts has a positive catalog chunk size, so `Unknown model` cannot occur |
| Translation.TranslateJoinsChunkTexts | src/services/translation.ts:130-196 | the result is the per-chunk texts, in chunk order, joined with a blank line |
| Translation.OnlyModelIdMatters | src/services/translation.ts:127 | the caller's model name and chunk size do not affect the outcome |
| Translation.NoChunksNoCalls | src/services/translation.ts:127-196 | a text without paragraph content translates to the empty text with no call |
| Translation.BlankTextIsSent | src/services/translation.ts:127-130 | a non-empty whitespace text without a blank line is sent to the provider as one empty chunk |
| ClientApi.ClientParagraphs | src/lib/api.ts:12 | the paragraph split yields at least one paragraph |
| ClientApi.PackParagraphs | src/lib/api.ts:12-22 | the reduce yields at least one chunk for a non-empty list and never more chunks than paragraphs |
| ClientApi.PreChunk | src/lib/api.ts:12-22 | there is always at least one chunk, even for the empty text |
| ClientApi.PreChunkLoop | src/lib/api.ts:12-22 | the reduce with in-place rewriting of the last chunk computes the fold |
| ClientApi.PackIsGreedy | src/lib/api.ts:15-20 | the chunks are blank-line joins of consecutive non-empty groups covering the paragraphs in order. A chunk over the size is a single paragraph. A new group starts only when the next paragraph would not fit after the previous chunk |
| ClientApi.GreedyIsPack | src/lib/api.ts:12-22 | that greedy grouping is unique: any chunk list satisfying it is the reduce's result |
| ClientApi.PreChunkKeepsParagraphs | src/lib/api.ts:12-17 | paragraphs are never cut or trimmed: the chunks joined with a blank line equal the paragraphs so joined |
| ClientApi.PreChunkWithinSize | src/lib/api.ts:16-19 | each chunk is within the size or is one paragraph of the text, untouched |
| ClientApi.FailureMessage | src/lib/api.ts:39-42 | the thrown message is the server's error when it has one, otherwise `Translation failed`; never empty |
| ClientApi.StreamTranslations | src/lib/api.ts:25-46 | requests go out in chunk order, a prefix of the chunks, at most one yield per request, and at least one request when there are chunks |
| ClientApi.StreamStopsAtFirstFailure | src/lib/api.ts:25-46 | every yield is its chunk's answer in order. The stream fails exactly when some chunk's answer is not ok, and it throws that first failure's message. No later chunk is requested |
| ClientApi.ClientTranslate | src/lib/api.ts:5-46 | at least one request is always sent, and the requests are a prefix of the pre-chunked text |
| Pipeline.ChunkIsRun | src/lib/api.ts:12-22 | each browser chunk is a run of consecutive browser paragraphs joined with a blank line |
| Pipeline.ClientChunkStaysWhole | src/lib/api.ts:12-22 | a browser chunk within the size is, for the server chunker with the same limit, a run of the browser's paragraphs, and becomes one chunk (itself trimmed) or none |
| Pipeline.ClientChunkOneCall | src/services/translation.ts:127-130 | for a catalog model, the server sends such a chunk with at most one provider call, on the chunk trimmed |
| Server.ErrorText | server/index.ts:108-110 | the reported message is the error's own message, or the fixed key when the thrown value is not an `Error` |
| Server.GoogleArguments | server/index.ts:77-96 | for Google: `googleServiceAccountNotSet` when no key is stored; `invalidGoogleKey` for a parse failure, a key that parses to `null`, or a missing field; otherwise the project id and the key object. Empty values for other models |
| Server.HandleTranslate | server/index.ts:69-112 | an empty text is refused first; Google key errors come before any call; otherwise the outcome of `translate` with the stored keys, a thrown fault becoming status 500 |
| Server.ServerGoogleKeyPassesTranslateChecks | server/index.ts:98-103 | a key the handler accepts passes the Google checks inside `translate` and is never parsed again |
| Server.GoogleKeyIgnoredForOtherModels | server/index.ts:80-81 | for any other model the stored Google key does not affect the response |
| Server.StoredKeyReachesTranslate | server/index.ts:81-96 | with a valid stored key, the Google model passes the handler's key checks exactly when a key is stored |
| Server.GoogleKeyUpdate | server/index.ts:135-153 | a blank key clears the account without parsing; otherwise `invalidGoogleKey` for a parse failure or `null`, `missingGoogleFields` for a missing field, or the key as given |
| Server.Merged | server/index.ts:132-154 | present fields replace the stored ones, absent ones are kept, and a Google key error aborts the merge |
| Server.UpdateSettings | server/index.ts:124-168 | success exactly when the merge succeeds and the write works; then the new settings are stored and returned. On any error the settings are unchanged and the status is 500 with the error key |
| Server.SettingsGoogleKeyErrors | server/index.ts:140-153 | an unparsable or `null` key and a key missing fields are reported with different error keys, leaving the settings unchanged |
| Server.UpdateIdempotent | server/index.ts:132-159 | repeating a successful update changes nothing |
| Server.BlankGoogleKeyNotParsed | server/index.ts:135-138 | an absent or blank Google key is never parsed |
| Server.UpdateKeepsKeyValid | server/index.ts:135-159 | the settings handler never stores a Google key that does not parse with all required fields |
| Config.Validate | server/services/config.ts:33-44 | a blank key passes untouched. A given key must parse with all three fields, and its project id then replaces the record's. Failures carry the invalid-key prefix and then the parse message, the field-read error for `null`, or the missing-fields message |
| Config.SaveSettings | server/services/config.ts:32-49 | a record that fails validation leaves the store as it was. A valid one replaces the store even if the write then fails, and the write's fault is reported. On success the caller's record, updated in place with the project id, equals the stored one |
| Config.SavePreservesConsistency | server/services/config.ts:32-46 | saving keeps the stored key parsable with all fields and the project id equal to the key's |
| Config.SaveThenGet | server/services/config.ts:40-53 | after a save, `getSettings` returns the saved keys, with the project id taken from the key when one was given |
| Config.SaveIdempotent | server/services/config.ts:32-46 | saving the stored record again changes nothing |
| Config.BlankKeySkipsValidation | server/services/config.ts:34 | a blank key is stored unvalidated and the parser is never consulted |

## Left out

- The OpenAI, Anthropic and Google SDK clients, the prompt text, the model names, `max_tokens` and the temperature are left out. Each provider is an abstract function from a chunk to a reply, with the target language bound in. The Google client's own constructor failures are not modelled.
- `JSON.parse` is an abstract parameter. Its result is one of three cases: a syntax error with its message, `null`, or any other value. For any other value the model records only which fields read as truthy strings. A non-object, or an object with a missing field, has those fields empty. A truthy field that is not a string is treated as a non-empty string. The message of the error thrown on reading a field of `null` is V8's wording, which other engines word differently.
- Config.SaveSettings: the model returns the caller's record as it reads after the call, and the stored record. It cannot say that the two stay one shared object, so a later change made through either reference is not modelled.
- Reading settings.json at start-up and `loadSettings` are left out, because they are file I/O. The initial store is a parameter. `writeSettings` and `fs.writeFile` become a success flag or a thrown fault.
- `GET /api/settings` and the browser's `getSettings`/`updateSettings` are left out. They only pass records through.
- Fastify registration, CORS, `listen`, `fetch`, the abort signal and async suspension are not modelled. Only the order of requests is.
- Request bodies are assumed well-typed, which the handlers also assume. A body whose `googleKey` is not a string, or has no `model`, would make the handler throw a `TypeError`. This is not modelled.
- The React UI, i18n set-up and localized strings hold no core logic and are left out.
- Text outside the Basic Multilingual Plane is not written directly. A Dafny string literal holding such a character, an emoji for example, counts it once, where `String.prototype.length` counts two code units. The limits would then be compared against the wrong lengths. The model's lengths are those of JavaScript only when each surrogate code unit is encoded as its own stand-in `char`, as described above.
- Chunk sizes are unbounded integers. JavaScript numbers are not needed here because lengths stay far below 2^53.
