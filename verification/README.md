# Transcript correction pipeline — a Dafny model

This project models the correction pipeline of the aurelia backend. A
spoken-language transcript is split into word-bounded chunks. Each chunk is
sent to a language model together with a JSON template of the expected
answer. The model's reply is cleaned, cut down to its JSON array and
filtered of error entries the product does not show. The resulting feedback
is then folded into the user's correction records: it is merged into the
user's latest record when that record is less than five minutes older,
and stored as a new record otherwise.

The model is split into these modules:

- `Wrappers` — `Option` and `Result`, and two facts about a step applied along a list.
- `Sequences` — subsequence, flattening and a few concatenation facts.
- `PyStr` — the parts of Python's `str` that the code relies on: `strip`,
  `split`, `lower`, `startswith`/`endswith`, `in`, `find`/`rfind`, slicing and
  `" ".join`.
- `Json` — parsed JSON values.
- `OllamaClient` — `ai_models/ollama_client.py`: reply cleanup, array
  extraction, the `RuntimeError` wrapping, and `filter_superfluous_errors`.
- `GrammarService` — `app/services/grammar_service.py`: `chunk_sentences`,
  the templates and error wrapping of `ollama_analysis`, and `analyze_text`.
- `DatabaseService` — `app/services/database_service.py`: `upsert_correction`
  with its recency lookup, create and merge; `get_corrections_by_user_id`;
  and the non-`None` filter of `update_user_details_in_db`.

Everything is pure. A collection is a sequence of documents in stored
order. A call returns the collection as it is afterwards, together with the
call's outcome.

These are parameters of the model:

- the sentence tokenizer;
- the `uuid4` values;
- the clock;
- the completion request, given as its reply or the text of the exception
  it raised;
- the configured API key;
- `json.loads`.

Some consequences of the code that the model keeps:

- The code has no retry. Each chunk gets exactly one model call.
- A transcript whose chunks all fail is not an error. `analyze_text` returns
  an empty feedback list (`GrammarService.AnalyzeText`).
- The recency window is five minutes, and the test is strict (`<`). Two
  submissions exactly five minutes apart are kept apart
  (`DatabaseService.SameUserAfterWindowCreates`). A candidate older than
  the latest record also merges.
- `chunk_sentences` closes the current chunk without checking that it holds
  anything. When the first sentence alone is over 200 words, an empty chunk
  comes first (`GrammarService.PackEmptyChunk`). `analyze_text` later drops
  it as blank (`GrammarService.LeadingEmptyChunkDropped`).
- The ownership check in `upsert_correction`
  (`app/services/database_service.py:126-128`) can never raise its 403. The
  lookup it guards only returns records found under the caller's own id
  (`app/services/database_service.py:202`), so the owner always matches
  (`DatabaseService.Upsert`). A second user's submission is stored as a new
  record (`DatabaseService.OtherUserCreatesNew`).
- A BSON datetime keeps milliseconds, so the stored `createdAt` is the
  submitted time truncated to the millisecond. The response still carries
  the untruncated time (`DatabaseService.UpsertResponseMirrorsStore`). The
  five-minute test compares a new submission with the stored, truncated
  time, so two submissions slightly less than five minutes apart can still
  be kept apart (`DatabaseService.TruncationSeparatesCloseRecordings`).

## Model

| member | source | states |
|---|---|---|
| `PyStr.Strip` | ai_models/ollama_client.py:28 | `strip()` gives the empty string exactly for blank input, and otherwise neither starts nor ends with whitespace |
| `PyStr.StripIdempotent` | ai_models/ollama_client.py:28 | stripping twice is stripping once |
| `PyStr.StripPadded` | ai_models/ollama_client.py:30 | whitespace on both sides of a stripped text is exactly what `strip()` removes |
| `PyStr.SplitWords` | app/services/grammar_service.py:78 | every item `split()` returns is a non-empty run with no whitespace |
| `PyStr.SplitBlank` | app/services/grammar_service.py:78 | a blank text splits into no words |
| `PyStr.SplitWord` | app/services/grammar_service.py:78 | a non-empty run without whitespace splits into just itself |
| `PyStr.SplitAtSpace` | app/services/grammar_service.py:78 | splitting at any whitespace character splits the two sides separately; with the two rows above, `split()` returns exactly the maximal whitespace-free runs, in order |
| `PyStr.SplitBound` | app/services/grammar_service.py:78 | `split()` returns at most as many words as the text has characters |
| `PyStr.WordCount` | app/services/grammar_service.py:78 | `len(s.split())` is at most `len(s)` |
| `PyStr.WordCountZeroIffBlank` | app/services/grammar_service.py:78 | `len(s.split())` is zero exactly when `s` is blank |
| `PyStr.WordCountJoin` | app/services/grammar_service.py:78-83 | the words of two texts joined by one space are the words of each, counted together |
| `PyStr.Find` | ai_models/ollama_client.py:35 | `find` returns -1 exactly when the character is absent, and otherwise its first position |
| `PyStr.RFind` | ai_models/ollama_client.py:36 | `rfind` returns -1 exactly when the character is absent, and otherwise its last position |
| `PyStr.Slice` | ai_models/ollama_client.py:40 | Python slicing: negative bounds count from the end, bounds are clamped, and crossed bounds give the empty string |
| `PyStr.Lower` | ai_models/ollama_client.py:63 | lower-casing keeps the length and maps each character on its own |
| `PyStr.JoinSpace` | app/services/grammar_service.py:83 | `" ".join` of no parts is empty; otherwise the text starts with the first part and ends with the last |
| `PyStr.ContainsBounds` | ai_models/ollama_client.py:63-65 | the `in` test: the empty string occurs in every text, and a string never occurs in a shorter one |
| `PyStr.JoinSpaceAppend` | app/services/grammar_service.py:83 | joining two non-empty runs of parts is joining each and putting a single space between |
| `PyStr.SplitJoin` | app/services/grammar_service.py:78-83 | words joined by single spaces split back into the same words |
| `PyStr.JoinSpaceBlank` | app/services/grammar_service.py:83 | a space-joined text is blank exactly when every part is blank |
| `OllamaClient.Message` | ai_models/ollama_client.py:51-53 | every escaping error message starts with the fixed "An error occurred while communicating with the model: " prefix |
| `OllamaClient.CleanContent` | ai_models/ollama_client.py:28-32 | the cleaned reply never has surrounding whitespace |
| `OllamaClient.StripFence` | ai_models/ollama_client.py:29-30 | fence removal keeps a stripped text stripped |
| `OllamaClient.StripJsonTag` | ai_models/ollama_client.py:31-32 | tag removal keeps a stripped text stripped |
| `OllamaClient.CleanBare` | ai_models/ollama_client.py:28-32 | an unfenced, untagged payload padded with whitespace comes back as the payload |
| `OllamaClient.UnfenceStep` | ai_models/ollama_client.py:29-30 | a fenced text loses the fences and its inner padding |
| `OllamaClient.CleanFenced` | ai_models/ollama_client.py:28-32 | a fenced payload with padding anywhere comes back as the payload |
| `OllamaClient.CleanFencedJson` | ai_models/ollama_client.py:28-32 | a fenced payload tagged `json`, padded anywhere, comes back as the payload |
| `OllamaClient.UntagPadded` | ai_models/ollama_client.py:31-32 | a tagged, padded payload loses its padding and its tag, including when the payload is empty |
| `OllamaClient.ExtractCandidate` | ai_models/ollama_client.py:35-40 | extraction fails exactly when there is no `[`; when a `]` follows the first `[`, the candidate runs from that `[` to the last `]`, and otherwise it is empty |
| `OllamaClient.EndIndexNeverMinusOne` | ai_models/ollama_client.py:36-37 | `end_index` is never -1, so only the `[` half of the guard can fire |
| `OllamaClient.CandidateCases` | ai_models/ollama_client.py:35-40 | the first `[` and the last `]` never coincide |
| `OllamaClient.LowerField` | ai_models/ollama_client.py:63 | `.get(key, "").lower()` reads a missing key as "", lower-cases a string, and fails on any other value |
| `OllamaClient.KeepError` | ai_models/ollama_client.py:62-76 | when the decision succeeds, an entry is kept exactly when it is meaningful; a kept entry is well formed; a well-formed entry never fails |
| `OllamaClient.Superfluous` | ai_models/ollama_client.py:57-75 | an entry is dropped when, lower-cased, its reason or error mentions "comma", its reason mentions "punctuation", its error is "no error found", its reason is "the sentence is grammatically correct", or its type is one of the four excluded types |
| `OllamaClient.MeaningfulOnly` | ai_models/ollama_client.py:59-76 | the kept list is never longer than the old one |
| `OllamaClient.MeaningfulOnlySelects` | ai_models/ollama_client.py:60-76 | the kept errors are an in-order subsequence of the old ones, all meaningful; each meaningful entry keeps exactly as many copies as it had, and every other entry has none |
| `OllamaClient.MeaningfulOnlyKeepsAll` | ai_models/ollama_client.py:60-76 | a list of meaningful entries is kept whole |
| `OllamaClient.MeaningfulOnlyIdempotent` | ai_models/ollama_client.py:60-76 | selecting meaningful errors twice equals selecting once |
| `OllamaClient.FilterErrors` | ai_models/ollama_client.py:59-76 | the inner loop succeeds exactly when every entry can be read; it then yields the meaningful entries, all well formed; a failure is a malformed-feedback cause |
| `OllamaClient.PriorErrors` | ai_models/ollama_client.py:60 | iterating `get("errors", [])` yields nothing for a missing key and the elements for a list; every other failing shape is a malformed-feedback cause |
| `OllamaClient.FilterSentence` | ai_models/ollama_client.py:58-79 | a filtered sentence is the same dictionary with `errors` replaced by its meaningful part |
| `OllamaClient.FilterSuperfluousErrors` | ai_models/ollama_client.py:56-80 | the filter keeps the number and order of sentences, and each sentence is filtered on its own |
| `OllamaClient.FilterSentenceFrame` | ai_models/ollama_client.py:58-79 | only `errors` changes; it becomes an in-order subsequence of the old list with no superfluous entry, and each meaningful entry keeps exactly as many copies as it had |
| `OllamaClient.FilterSucceedsOnWellFormed` | ai_models/ollama_client.py:56-80 | sentences that are dictionaries with well-formed error lists are filtered without raising |
| `OllamaClient.FilterSentenceIdempotent` | ai_models/ollama_client.py:58-79 | filtering a filtered sentence changes nothing |
| `OllamaClient.KeptPassAgain` | ai_models/ollama_client.py:62-76 | well-formed meaningful entries all pass the inner loop again |
| `OllamaClient.FilterIdempotent` | ai_models/ollama_client.py:56-80 | `filter_superfluous_errors` is idempotent |
| `OllamaClient.ChatWithOllama` | ai_models/ollama_client.py:6-53 | a missing key and a failed request each give their own `RuntimeError`; for a received reply, no `[` gives the missing-array error, an unparsable candidate the invalid-JSON error, and a parsed list the filter's outcome: its sentences, as many as were parsed, or its malformed-feedback error; no other failure follows a received reply; on success every sentence carries an `errors` list of meaningful entries only |
| `OllamaClient.ChatWithoutBracket` | ai_models/ollama_client.py:35-38 | a cleaned reply without `[` fails with "No valid JSON array found in the response." |
| `OllamaClient.ChatUnclosedArray` | ai_models/ollama_client.py:35-50 | a reply that opens an array and never closes it reaches the parser as the empty string, and the failure is the invalid-JSON one |
| `GrammarService.ChunkSentences` | app/services/grammar_service.py:70-99 | the k-th chunk has the k-th id and the k-th sentence group joined by single spaces |
| `GrammarService.PackLoop` | app/services/grammar_service.py:77-97 | chunks already closed are never changed, and the loop adds at most one chunk per remaining sentence plus the open one |
| `GrammarService.Pack` | app/services/grammar_service.py:77-97 | there is at most one chunk more than there are sentences, and no sentences give no chunks |
| `GrammarService.PackCovers` | app/services/grammar_service.py:77-97 | concatenating the chunks' sentences in order gives back the tokenizer's sentences exactly |
| `GrammarService.PackBound` | app/services/grammar_service.py:78-90 | a chunk of two or more sentences is at most `max_tokens` words; only a lone sentence may exceed it |
| `GrammarService.ChunkWordCount` | app/services/grammar_service.py:78-90 | a chunk's joined text has exactly as many words as the counter adds up for its sentences |
| `GrammarService.ChunkSentencesBound` | app/services/grammar_service.py:70-99 | every emitted chunk built from two or more sentences has at most `max_tokens` words in its text |
| `GrammarService.PackGreedy` | app/services/grammar_service.py:80-90 | a chunk is closed only when the next chunk's first sentence would push it over the bound |
| `GrammarService.PackEmptyChunk` | app/services/grammar_service.py:80-87 | only the first chunk can be empty, and it is empty exactly when the first sentence alone is over the bound |
| `GrammarService.PackNoTrailingEmpty` | app/services/grammar_service.py:92-97 | there are no chunks exactly when there are no sentences, and the last chunk is never empty |
| `GrammarService.PackFirstStep` | app/services/grammar_service.py:80-90 | an over-long first sentence puts an empty chunk in front of the rest of the run; otherwise it opens the first chunk |
| `GrammarService.Templates` | app/services/grammar_service.py:109-124 | one template per sentence, in order, each with the chunk's id, the stripped sentence, the placeholders and its own error id |
| `GrammarService.PromptFor` | app/services/grammar_service.py:106-145 | the prompt names the target language, holds one template per sentence of the chunk, and carries the chunk's text |
| `GrammarService.InvalidJsonHandlerUnreachable` | app/services/grammar_service.py:151-153 | "Ollama returned invalid JSON" is never a chunk's error text, since only `RuntimeError` escapes the model call |
| `GrammarService.OllamaAnalysis` | app/services/grammar_service.py:102-156 | a blank chunk fails without a model call; otherwise the chunk succeeds with the call's sentences or fails with the call's error |
| `GrammarService.BlankChunkSkipsModel` | app/services/grammar_service.py:103-104 | a blank chunk's result does not depend on the model at all |
| `GrammarService.ErrorText` | app/services/grammar_service.py:104-156 | a failed chunk's error text starts with "Ollama API error: " exactly when the model call failed |
| `GrammarService.Successful` | app/services/grammar_service.py:55-61 | the collected feedback has at most one sentence list per chunk |
| `GrammarService.SuccessfulSingle` | app/services/grammar_service.py:57-61 | one successful chunk contributes its sentence list; one failed chunk contributes nothing |
| `GrammarService.SuccessfulAppend` | app/services/grammar_service.py:56-61 | the feedback of two runs of chunks is the first run's followed by the second's; with the single-chunk case this makes it one list per successful chunk, in chunk order |
| `GrammarService.SuccessfulStep` | app/services/grammar_service.py:56-61 | each further chunk extends the feedback by its own sentence list or by nothing |
| `GrammarService.SuccessfulSelects` | app/services/grammar_service.py:56-61 | the collected feedback is exactly that of the successful chunks, and it is empty when every chunk fails |
| `GrammarService.SuccessfulSkipsFailedHead` | app/services/grammar_service.py:56-61 | a failed first chunk leaves the collected feedback unchanged |
| `GrammarService.AnalyzeText` | app/services/grammar_service.py:49-67 | fails with "Transcription is empty" exactly for a blank transcription; otherwise returns the transcription, the time, and the successful chunks' sentence lists in chunk order |
| `GrammarService.ResultsOf` | app/services/grammar_service.py:56-57 | one analysis per chunk, in chunk order, with the chunk's own error ids |
| `GrammarService.LeadingEmptyChunkDropped` | app/services/grammar_service.py:103-104 | the empty leading chunk fails as blank, and the feedback is what the remaining chunks give |
| `DatabaseService.MostRecent` | app/services/database_service.py:200-207 | the lookup finds nothing exactly when the user has no record; otherwise it finds a record of the user's with the greatest `createdAt` |
| `DatabaseService.CheckForRecentCorrection` | app/services/database_service.py:197-215 | a record is returned exactly when the user has one less than five minutes older than the candidate; that record is the user's latest |
| `DatabaseService.ValidFeedback` | app/services/database_service.py:140-143 | the kept entries are an in-order subsequence of the input, all complete; each complete entry keeps exactly as many copies as it had, and an incomplete one has none |
| `DatabaseService.Millis` | app/services/database_service.py:153 | a stored time is the whole millisecond at or below the given time |
| `DatabaseService.CreateNewCorrection` | app/services/database_service.py:138-164 | appends exactly one record with the caller as owner, the fresh id, the candidate's time truncated to the millisecond, its text and the complete entries, and returns that record with the untruncated time; a missing key raises without a write |
| `DatabaseService.FirstWithId` | app/services/database_service.py:176-177 | finds the first record with the given `conversationId`, or reports that none has it |
| `DatabaseService.UpdateById` | app/services/database_service.py:176-179 | `update_one` replaces only the first record with the id, and keeps the store's size |
| `DatabaseService.FirstWithOwnId` | app/services/database_service.py:176-177 | with unique ids, a record's own id leads back to it |
| `DatabaseService.Merged` | app/services/database_service.py:172-174 | the merged text is the old text, a space and the new text; the feedback is the old followed by all the new; the time is the candidate's; owner and id are kept |
| `DatabaseService.MergeCorrection` | app/services/database_service.py:167-194 | the merged record is written under its id with its time truncated to the millisecond, and returned with the untruncated time; a missing key raises without a write |
| `DatabaseService.Upsert` | app/services/database_service.py:104-135 | a rejected submission gets the fixed "Invalid response object. Missing required fields" failure; the 403 is never raised; the store changes only on a successful response |
| `DatabaseService.UpsertCount` | app/services/database_service.py:122-135 | a complete submission succeeds; a merge keeps the record count and a creation adds one |
| `DatabaseService.UpsertMergeInPlace` | app/services/database_service.py:172-179 | a merge rewrites only the user's latest record, in place, under the same `conversationId`, with the joined text, both feedbacks and the new time truncated to the millisecond |
| `DatabaseService.UpsertFrame` | app/services/database_service.py:117-135 | other users' records are never modified or removed |
| `DatabaseService.UpsertKeepsIdsUnique` | app/services/database_service.py:147 | with a fresh `uuid4`, conversation ids stay unique |
| `DatabaseService.UpsertResponseMirrorsStore` | app/services/database_service.py:155-193 | a successful response comes only from a complete submission and carries exactly one correction: the caller's record as now stored, but with the submitted time where the store keeps it truncated to the millisecond |
| `DatabaseService.SameUserWithinWindowMerges` | app/services/database_service.py:167-179 | a second submission by one user less than five minutes after the first one's stored time (the test at line 212) gives one record with the first id, both texts joined by a space, both feedbacks and the later time, truncated in the store and whole in the response |
| `DatabaseService.SameUserAfterWindowCreates` | app/services/database_service.py:210-215 | two submissions, the second five minutes or more after the first one's stored time, give two records with distinct ids |
| `DatabaseService.TruncationSeparatesCloseRecordings` | app/services/database_service.py:210-212 | submissions at 999 µs and at five minutes plus 500 µs are less than five minutes apart, yet they are kept as two records |
| `DatabaseService.OtherUserCreatesNew` | app/services/database_service.py:197-205 | a second user's submission leaves the first user's record as it was and creates a new one |
| `DatabaseService.OwnedBy` | app/services/database_service.py:85-89 | the listed records are an in-order subsequence of the store, all the user's, with none of the user's missing |
| `DatabaseService.OwnedByCounts` | app/services/database_service.py:85-89 | each of the user's records is listed as many times as it is stored, and no other record is listed |
| `DatabaseService.GetCorrectionsByUserId` | app/services/database_service.py:80-95 | succeeds, and lists a correction exactly when it is the API view of one of the user's records |
| `DatabaseService.ListingIgnoresOthers` | app/services/database_service.py:85-86 | adding another user's record does not change a listing |
| `DatabaseService.UpdateData` | app/services/database_service.py:72-73 | the update holds exactly the given fields whose value is not `None`, with those values |
| `DatabaseService.FirstUser` | app/services/database_service.py:74-76 | finds the first document with the user's id, or reports that there is none |
| `DatabaseService.UpdateUserDetails` | app/services/database_service.py:70-77 | only the user's first document changes, and the result is true exactly when it actually changed; with no such document nothing changes and the result is false |
| `DatabaseService.UpdateWritesOnlyGivenFields` | app/services/database_service.py:72-76 | fields given a non-`None` value take it, and every other field keeps its value or stays absent |
| `DatabaseService.UpdateUnchangedReportsFalse` | app/services/database_service.py:77 | an update that changes no value reports false |

## Left out

- Sentence tokenisation (`nltk.sent_tokenize`) is a parameter. The model does not know what it returns.
- The completion request (`Together(...).chat.completions.create`), its `model`, `temperature` and unused `max_tokens` arguments are left out. So is reading `response.choices[0].message.content`. The model takes the request's outcome as an input; any exception in that part, including content that is not text, is one `ApiFailure` with the exception's text.
- `json.loads` is a parameter. A parse of text starting with `[` that does not yield a list cannot happen in Python; the model treats it as malformed feedback.
- `json.dumps(..., indent=2)` and the prompt's fixed wording are left out. The prompt is a `Prompt` value holding the target language, the templates and the chunk text.
- `uuid.uuid4()` values are parameters. The model does not prove they are fresh: `DatabaseService.UpsertKeepsIdsUnique` assumes the new id is unused.
- `datetime.utcnow()`, `isoformat()` and `strptime` are left out. Timestamps are integer microseconds, and the submission's `createdAt` arrives already parsed. Of BSON's datetime encoding only the truncation to milliseconds is modelled (`DatabaseService.Millis`); its range limits are not. A `ValueError` from a badly formatted timestamp is not modelled.
- `PyStr.SplitWords`: its contract states only the shape of each item. That the items are the text's maximal runs, in order, follows from `PyStr.SplitBlank`, `PyStr.SplitWord` and `PyStr.SplitAtSpace` together.
- `PyStr.WordCount`: its contract states only the bound by the length. Its value is pinned down by `PyStr.WordCountZeroIffBlank`, `PyStr.WordCountJoin` and the split lemmas above.
- `PyStr.JoinSpace`: its contract states only the ends of the text. Its value is pinned down by `PyStr.JoinSpaceAppend` and `PyStr.SplitJoin`.
- `PyStr.Lower` lower-cases only `A`–`Z`. Python's full Unicode case mapping is not modelled.
- JSON floats are not modelled. Numbers are integers, and the filter never looks at them.
- Pydantic validation is left out: of `DbCorrection`, of the response models, and of `UserDetailsRequestSchema`. A feedback key holding a value of the wrong type is not modelled. Neither is the validation error the merged response could raise on unfiltered entries.
- `DatabaseService.UpdateById` does not model MongoDB's `_id`. The written record carries the `_id` of the record it was read from; were the id to match another record, MongoDB would reject the write as a duplicate `_id`, which fresh `uuid4` ids rule out.
- `DatabaseService.MostRecent` picks the earliest stored record among equal `createdAt`. MongoDB leaves the order of ties unspecified.
- `DatabaseService.GetCorrectionsByUserId` covers only the success path. Database faults (the `except` branch) and the `_id` projection are not modelled.
- `merge_correction`'s `if not existing_data` guard is left out. A found record is a non-empty dictionary, so the guard never fires.
- `DatabaseService.UpdateUserDetails` treats an update with no non-`None` field as a no-op. Servers older than MongoDB 5.0 reject an empty `$set`.
- Concurrency is left out. The read-then-write race between two near-simultaneous submissions of one user is outside a sequential model.
- `correct_grammar` is not part of this model: file saving, audio transcription and its user checks. Neither are the controllers and routes, the refresh-token and user-creation queries, or `app/mongo/MongoClient.py`.
