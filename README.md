# AI life assistant: note pipeline, in Dafny

This project models the decision logic of a personal voice-note assistant. A note arrives as
audio or as text. Audio is turned into text by a speech-to-text service; an entity
extractor pulls people, tasks and dates out of the text; the note is appended to an
in-memory store; and a chat route answers questions about the stored notes. Every service
that calls an external AI provider has a fallback that is used when no API key is configured
and whenever the provider path fails. For extraction and chat the fallback is a keyword
heuristic; for transcription it is a random pick from a pool of eight canned phrases. The
front end's task-completion
dialog offers at most three pending tasks that a new note might have completed.

Modules, following the program's files:

- `Notes` (`notes.dfy`): the shared values — a note (`Recording`), an extraction
  (`EntitySet`, category to values), the outcome of a provider call (`Fail | Ok(content)`)
  and the key check.
- `Text` (`text.dfy`) and `Lists` (`lists.dfy`): the JavaScript string and array operations
  the code relies on — ASCII `toLowerCase`, `includes`, `split(' ')`, `split(/\s+/)`,
  `join`, `trim` (exactly the ECMAScript white-space and line-terminator code points),
  decimal rendering of a number in a template string, `filter`, `some` and
  `filter(...).slice(0, n)` — each with the laws the proofs need.
- `AiProcessor` (`ai_processor.dfy`): `mockEntityExtraction`, `mockResponse` (its task
  collection loop is a method with a loop invariant) and the key-gated fallback structure of
  `extractEntities` and `generateResponse`.
- `SpeechToText` (`speech_to_text.dfy`): `transcribeAudio` and `mockTranscription`.
- `TaskCompletion` (`task_completion.dfy`): `findMatchingTasks`.
- `Server` (`server.dfy`): the seeded store as a class `RecordingStore` with a
  `seq<Recording>` field. `List` sorts the field in place, newest first. `Submit` validates
  the input and appends a note numbered `length + 1`. `Chat` validates the question and
  answers. The class invariant is that the ids are exactly `{1..n}`. A separate lemma shows
  that this means no two notes share an id.

The outside world is reduced to parameters:

- A provider call is an `Outcome`. For extraction it is a function of the text. For chat it
  is a function of the context block and the question. For transcription it is a value.
- `JSON.parse` is a partial function `string -> Option<EntitySet>`, where `None` is a parse
  error.
- `Math.random()` is a real `u` in [0, 1).
- `toLocaleDateString` is a function from a millisecond timestamp to a string.
- The clock is an integer `now`.
- The API key is an `Option<string>`. An unset key and an empty key both select the fallback.

Two behaviours of the code that a reader might not expect:

- The fallback extractor always sets `people` and `dates`, possibly to empty lists; only
  `tasks` is left out when nothing was found. `EmptyTextExtraction` shows the fallback
  result for an empty text.
- A submission may carry both an audio file and a text. Then the file wins: the note's text
  is its transcription and the submitted text is ignored.

## Model

| member | source | states |
|---|---|---|
| Text.Includes | backend/services/aiProcessor.js:104 | `includes`, also used at frontend/src/components/TaskCompletionModal.js:28; `IncludesIff` states it holds exactly when the substring occurs at some index |
| Text.Split | backend/services/aiProcessor.js:97 | `split(' ')` yields at least one piece and no piece holds the separator; `JoinSplit` and `SplitJoin` make it the inverse of `Join` |
| Text.Join | backend/services/aiProcessor.js:97 | `join`; `SplitJoin` states that splitting a join of separator-free pieces gives the pieces back, and `JoinSplit` the converse |
| Text.Trim | backend/services/speechToText.js:34 | `trim`; `TrimSpec`, `TrimEnds` and `TrimIdempotent` state what it removes, what it leaves and that it is idempotent |
| Text.NatToString | backend/services/aiProcessor.js:136 | `${n}` renders at least one decimal digit, with a leading zero only for 0; `NatToStringValue` reads it back |
| Text.Lower | backend/services/aiProcessor.js:97 | ASCII lower-casing keeps the length, maps each character by itself ('A'..'Z' to 'a'..'z', all else unchanged) and leaves no upper-case letter |
| Text.IncludesIff | backend/services/aiProcessor.js:104 | `includes` holds exactly when the substring occurs at some index |
| Text.JoinSplit | backend/services/aiProcessor.js:97 | joining the pieces of `split(d)` with `d` gives the string back |
| Text.SplitJoin | backend/services/aiProcessor.js:97 | splitting a join of separator-free pieces gives the pieces back |
| Text.SplitConcat | backend/services/aiProcessor.js:97 | splitting at one separator splits the two sides independently |
| Text.TrimSpec | backend/services/speechToText.js:34 | `trim` removes exactly a white-space prefix and a white-space suffix and keeps the middle slice |
| Text.TrimEnds | backend/services/speechToText.js:34 | the trimmed string neither starts nor ends with white space |
| Text.TrimIdempotent | backend/services/speechToText.js:34 | trimming twice is trimming once |
| Text.SplitSpaces | frontend/src/components/TaskCompletionModal.js:27 | `split(/\s+/)` always yields at least one piece and no piece holds white space (with `PieceDelimited` and `SplitSpacesHasWord`: the pieces are exactly the whole white-space delimited runs) |
| Text.PieceDelimited | frontend/src/components/TaskCompletionModal.js:27 | every piece of `split(/\s+/)` occurs in the input as a whole run: at index 0 for the first piece, right after white space for every later one, and followed by white space or the end |
| Text.PieceCut | frontend/src/components/TaskCompletionModal.js:27 | the input is the text before a piece, the piece and the text after it, with white space (or nothing) on each side |
| Text.SplitSpacesHasWord | frontend/src/components/TaskCompletionModal.js:27 | a non-empty, white-space free word with white space or an end of the string on both sides is a piece of `split(/\s+/)` |
| Text.SplitSpacesPiecesOccur | frontend/src/components/TaskCompletionModal.js:27 | every piece of `split(/\s+/)` is a substring of the input |
| Text.NatToStringValue | backend/services/aiProcessor.js:136 | the decimal rendering of a count reads back as that count |
| Lists.Filter | frontend/src/components/TaskCompletionModal.js:23 | `filter` keeps only satisfying elements, in their order, as a sub-list |
| Lists.FilterMembers | frontend/src/components/TaskCompletionModal.js:23 | an element is kept iff it is in the list and satisfies the test |
| Lists.Any | frontend/src/components/TaskCompletionModal.js:28 | `some`; `AnyFilter` relates it to `filter`, and `MatchesIff` unfolds it to an existential |
| Lists.FilterCut | frontend/src/components/TaskCompletionModal.js:23-31 | `filter(f).slice(0, n)` has at most `n` elements, all satisfying `f`, as a sub-list of the input; `FilterCutIsFirstSatisfying` makes it the first `n` satisfying elements |
| Lists.AnyFilter | frontend/src/components/TaskCompletionModal.js:27-28 | `filter(p).some(f)` holds iff some element passes both `p` and `f` |
| Lists.FilterCutIsFirstSatisfying | frontend/src/components/TaskCompletionModal.js:23-31 | `filter(f).slice(0, n)` equals the walk that keeps the first `n` satisfying elements and stops |
| AiProcessor.Words | backend/services/aiProcessor.js:97 | the tokens hold no space and join back, with single spaces, into the lower-cased text |
| AiProcessor.MockEntityExtraction | backend/services/aiProcessor.js:95-113 | `people` and `dates` are always present, no other key than `people`, `tasks`, `dates`; `tasks` is present iff a task keyword is a whole token, and then is the single placeholder |
| AiProcessor.MockPeople | backend/services/aiProcessor.js:100-104 | `people` is an order-preserving, duplicate-free sub-list of the names; a name is in it iff it is a substring of the lower-cased text |
| AiProcessor.MockDates | backend/services/aiProcessor.js:102-110 | `dates` is an order-preserving, duplicate-free sub-list of the time keywords; a keyword is in it iff it equals a whole token |
| AiProcessor.PickUpNeverMatches | backend/services/aiProcessor.js:101-106 | the two-word keyword `pick up` is never a token |
| AiProcessor.EmptyTextExtraction | backend/services/aiProcessor.js:95-113 | the empty text yields empty `people` and `dates` and no `tasks` |
| AiProcessor.WordsHasWord | backend/services/aiProcessor.js:97 | a space-free word between two spaces is a token, lower-cased |
| AiProcessor.ReminderExtraction | backend/services/aiProcessor.js:97-110 | any text "... need ... tomorrow" yields the task placeholder and `tomorrow` among the dates |
| AiProcessor.SentenceWords | backend/services/aiProcessor.js:97 | seven space-free words joined by single spaces are exactly seven tokens, each lower-cased |
| AiProcessor.DentistReminderExtraction | backend/services/aiProcessor.js:97-110 | "I need to call the dentist tomorrow" yields the task placeholder and exactly the dates `["tomorrow"]` |
| AiProcessor.ExtractEntities | backend/services/aiProcessor.js:10-52 | the parsed trimmed provider reply when a key is set and call and parse succeed; the fallback extraction without a key, on a failed call and on a parse error |
| AiProcessor.Route | backend/services/aiProcessor.js:116-137 | the topic chosen is one the lower-cased question mentions, or none; `RouteIsFirstMatch` and `RouteUnmatched` pin it as the first mentioned topic |
| AiProcessor.FirstMentionedIsFirst | backend/services/aiProcessor.js:119-135 | among distinct topics, the chosen one is the k-th iff it passes the mention test and none before it does |
| AiProcessor.FirstMentionedNone | backend/services/aiProcessor.js:119-137 | no topic is chosen iff none passes the mention test |
| AiProcessor.RouteIsFirstMatch | backend/services/aiProcessor.js:115-137 | the answerer takes the k-th rule iff a keyword of that rule is a substring of the lower-cased question and no keyword of an earlier rule is |
| AiProcessor.RouteUnmatched | backend/services/aiProcessor.js:135-137 | the final default answer is taken iff no rule's keyword occurs |
| AiProcessor.BobComesFirst | backend/services/aiProcessor.js:119-120 | any question containing "bob" gets the Bob answer, whatever else it mentions |
| AiProcessor.BobPartyScenario | backend/services/aiProcessor.js:119-120 | "What about Bob's party?" is answered with the day and time, the address and the errand |
| AiProcessor.AllTasks | backend/services/aiProcessor.js:128-133 | the task values of the notes in note order; `AllTasksConcat` and `AllTasksMembership` state that it distributes over concatenation and holds exactly the values some note lists |
| AiProcessor.FallbackAnswer | backend/services/aiProcessor.js:115-138 | the answer of the routed topic; `BobComesFirst`, `TaskListAnswerNamesEveryTask`, `TaskListAnswerWhenNoTasks` and `UnmatchedAnswerEchoes` state what each branch answers |
| AiProcessor.AllTasksMembership | backend/services/aiProcessor.js:128-133 | a value is collected iff some note lists it under `tasks` |
| AiProcessor.CollectTasks | backend/services/aiProcessor.js:128-133 | the loop collects every note's `tasks` values in note order, skipping notes without entities or `tasks` |
| AiProcessor.TaskListAnswerNamesEveryTask | backend/services/aiProcessor.js:127-134 | in the task branch the answer starts with the task prefix and contains every task value of every note |
| AiProcessor.TaskListAnswerWhenNoTasks | backend/services/aiProcessor.js:134 | in the task branch with no task values the answer is the no-tasks message |
| AiProcessor.UnmatchedAnswerEchoes | backend/services/aiProcessor.js:136 | the default answer contains the question as asked and the decimal count of notes |
| AiProcessor.MockResponse | backend/services/aiProcessor.js:115-138 | computes the answer of the routed rule (see the routing lemmas) |
| AiProcessor.ContextBlock | backend/services/aiProcessor.js:60-62 | the `[date] text` lines of the notes joined by line breaks; `ContextBlockLines` splits it back into those lines |
| AiProcessor.ContextBlockLines | backend/services/aiProcessor.js:60-62 | without line breaks in texts and dates, the block's lines are the `[date] text` lines of the notes in order |
| AiProcessor.ResponseFor | backend/services/aiProcessor.js:54-93 | the trimmed provider reply when a key is set and the call succeeds; the fallback answer without a key and on any failure |
| AiProcessor.GenerateResponse | backend/services/aiProcessor.js:54-93 | produces `ResponseFor`, never an error |
| SpeechToText.PickIndex | backend/services/speechToText.js:53 | `floor(u * 8)` is an index of the pool and is the integer part of `u * 8` |
| SpeechToText.PickIndexReaches | backend/services/speechToText.js:53 | every index of the pool is picked by some draw in [0, 1) |
| SpeechToText.MockTranscription | backend/services/speechToText.js:41-54 | the fallback transcription is a phrase of the pool |
| SpeechToText.MockTranscriptionCovers | backend/services/speechToText.js:42-53 | every phrase of the pool is a possible fallback transcription |
| SpeechToText.TranscribeAudio | backend/services/speechToText.js:11-39 | a pool phrase without a key and on any failure; the trimmed provider text on success |
| SpeechToText.TranscriptionTrimmed | backend/services/speechToText.js:34 | a provider transcription has no white space at either end |
| TaskCompletion.LowerOrEmpty | frontend/src/components/TaskCompletionModal.js:21-24 | a missing string reads as `""`, a present one as its lower-cased text |
| TaskCompletion.TaskWords | frontend/src/components/TaskCompletionModal.js:27 | a string is a task word iff it is a white-space separated piece of the lower-cased description longer than two characters; none holds white space |
| TaskCompletion.FindMatchingTasks | frontend/src/components/TaskCompletionModal.js:17-32 | no pending list or an empty one gives `[]`; at most three results; an order-preserving sub-list of the pending tasks; every result matches |
| TaskCompletion.FindMatchingTasksIsFirstMatches | frontend/src/components/TaskCompletionModal.js:23-31 | the result is the first three matching tasks in order (all of them when fewer match) |
| TaskCompletion.EarlyMatchIncluded | frontend/src/components/TaskCompletionModal.js:23-31 | a matching task preceded by fewer than three matching tasks is in the result |
| TaskCompletion.CandidateCount | frontend/src/components/TaskCompletionModal.js:31 | the result has min(3, k) elements, k the number of matching tasks |
| TaskCompletion.Matches | frontend/src/components/TaskCompletionModal.js:24-30 | the per-task filter test; `MatchesIff`, `DescriptionWordMatches` and `MatchHasDescriptionWord` characterise it |
| TaskCompletion.MatchesIff | frontend/src/components/TaskCompletionModal.js:24-30 | a task matches iff some white-space separated word of its lower-cased description, longer than two characters, is a substring of the text |
| TaskCompletion.NoDescriptionNeverMatches | frontend/src/components/TaskCompletionModal.js:24-27 | a task without a description never matches |
| TaskCompletion.NoLongWordNeverMatches | frontend/src/components/TaskCompletionModal.js:27 | a description none of whose white-space separated words is longer than two characters never matches |
| TaskCompletion.ShortDescriptionNeverMatches | frontend/src/components/TaskCompletionModal.js:27 | in particular a description of at most two characters never matches |
| TaskCompletion.DescriptionWordMatches | frontend/src/components/TaskCompletionModal.js:24-28 | a word longer than two characters standing between white space (or an end) of the lower-cased description and occurring in the text makes the task match |
| TaskCompletion.MatchHasDescriptionWord | frontend/src/components/TaskCompletionModal.js:24-28 | a matching task has a description whose lower-cased form is cut by a white-space delimited word longer than two characters that occurs in the text; with `DescriptionWordMatches` this is an if-and-only-if |
| TaskCompletion.MissingRecordingTextNoMatch | frontend/src/components/TaskCompletionModal.js:21-28 | a missing or empty recording text gives `[]` |
| TaskCompletion.KeywordsIgnored | frontend/src/components/TaskCompletionModal.js:20 | the completion keywords do not change the result |
| Notes.KeyConfigured | backend/services/aiProcessor.js:12 | the key test, also at backend/services/aiProcessor.js:56 and backend/services/speechToText.js:13: false for an unset or empty key, and then `ExtractEntities`, `ResponseFor` and `TranscribeAudio` take the fallback |
| Server.Seed | backend/server.js:36-71 | three notes numbered 1 to 3, one, two and three hours before start-up |
| Server.SeedIds | backend/server.js:36-71 | the seeded ids are exactly {1, 2, 3} |
| Server.IdsDistinct | backend/server.js:99 | when the ids are exactly {1..n}, no two notes share an id |
| Server.AppendKeepsIdsExact | backend/server.js:99-105 | appending note `n + 1` keeps the ids exactly {1..n+1}, and the new id was not in use |
| Server.PermutationKeepsIdsExact | backend/server.js:75 | reordering the notes keeps the ids exactly {1..n} |
| Server.SortByTimestampDesc | backend/server.js:75 | the listing is a permutation of the notes, newest first |
| Server.SortStable | backend/server.js:75 | notes with equal timestamps keep their relative order |
| Server.SortSorted | backend/server.js:75 | an already sorted store is unchanged, so listing twice gives the same order |
| Server.SeedListedInOrder | backend/server.js:36-76 | the seeded notes are listed in seeded order |
| Server.RecordingStore.constructor | backend/server.js:36-71 | the store starts as the seed, with ids exactly {1, 2, 3} |
| Server.RecordingStore.List | backend/server.js:74-76 | the store itself is replaced by its newest-first sort, which is returned; ids stay exactly {1..n} |
| Server.RecordingStore.Submit | backend/server.js:78-112 | no file and no non-empty text: error 400, store unchanged; else one note appended with id `n + 1`, the clock's time, the transcription (file) or the verbatim text, and the extraction of that text, and the same note is returned; ids stay exactly {1..n} |
| Server.RecordingStore.Chat | backend/server.js:114-130 | a missing or empty question is error 400; otherwise the answer over the store in its current order |

## Left out

- HTTP plumbing: Express, CORS, static files, multer's disk storage, `fs.unlinkSync` of the upload, the health route and `app.listen`. The handlers are methods over the values they inspect.
- The 500 paths of both routes. The services are modelled as total, so the model has no exception. In the source a 500 comes from plumbing, from a non-string `text` or `question` field (both are modelled as optional strings), or from a stored extraction of the wrong shape (next line).
- Concurrency. Every handler runs as one atomic step. In the source the id computation and the `push` happen together after the last `await`, so ids cannot repeat, but two submissions may be stored in a different order than they arrived.
- The provider requests: prompts, model names, temperatures and headers. Each call is an abstract outcome; `Fail` covers network errors and replies without the expected fields.
- The shape of the parsed JSON. `JSON.parse` is a function into `EntitySet` (category to list of strings), while the code accepts any JSON value and stores it with the note (backend/server.js:96-105). A `tasks` string spread by `push(...)` would add single characters. A truthy non-iterable `tasks`, such as `{"tasks": 5}`, makes a later chat that reaches the task branch throw at `tasks.push(...r.entities.tasks)` (backend/services/aiProcessor.js:131). The `catch` at backend/services/aiProcessor.js:89-91 calls `mockResponse` again, which throws again, and the chat route answers 500 (backend/server.js:126-128). The model cannot express that path.
- Logging. The `console.warn` and `console.error` calls (backend/services/speechToText.js:14,36, backend/services/aiProcessor.js:49,90, backend/server.js:109,127) have no effect on any result.
- The order of keys in the returned objects. An `EntitySet` is a map.
- Unicode: `toLowerCase` is ASCII-only, and string length counts characters, where JavaScript counts UTF-16 code units.
- `toLocaleDateString`, `Math.random` and `Date.now`. They are the parameters `formatDate`, `u` and `now`.
- The dialog's rendering, its state hooks, its early return when closed, and `handleComplete`'s network call.
- Completion-keyword detection, the pending-task store, task completion and deletion. These are not part of the modelled files.
- The other front-end components: recording, chat, projects, usage pages and the app shell.
