# RAG chatbot core, modelled in Dafny

This project models the self-contained logic of a retrieval-augmented
chatbot. The LLM and vector-database plumbing around that logic is not
modelled. There are four parts:

- **Hybrid ranking** (`HybridSearch`, in `hybrid_search.dfy`, with `Text` and
  `Sorting`). It covers:
  - weight normalisation;
  - keyword extraction: lower-case, split into `\w+` tokens, drop stop words
    and short tokens;
  - Jaccard keyword overlap;
  - the piecewise mapping of a raw vector score into [0, 1];
  - weighted fusion;
  - over-fetching `2k` candidates from an opaque index, a stable descending
    sort, and the cut to `k`.
- **Conversation store** (`ConversationStore`). It is a per-session message
  log:
  - a retention bound on messages (`max_history`);
  - write-through to a directory of `<session>.json` files, where write
    errors are swallowed;
  - lazy loading on a memory miss;
  - suffix windows, clearing, export, and the session listing.

  The store is a value `Store(memory, disk)`. `disk` maps file names to
  records that are either readable or unreadable. The result of each file
  write is a parameter.
- **Analytics log** (`Analytics`). It keeps five append-only record lists.
  Four of them are capped (10000, 10000, 10000 and 1000 entries, newest
  kept). The statistics are computed over records whose ISO timestamp string
  is at or after a cutoff string: totals, positive feedback, the feedback
  percentage, and the two top-10 frequency lists.
- **Upload filter** (`Upload`). It is `allowed_file`, with the set of allowed
  extensions.

Python's slice arithmetic (`s[:k]`, `s[-n:]`, with `s[-0:]` being all of
`s`) is in `PySlice`. `Option`/`Result` are in `Wrappers`. Python's `None`
is `Option.None`, and a raised exception is a `Result.Failure`.

Where the code and its documentation disagree, the model follows the code:
- `export_conversation` is not a pure read. It goes through
  `get_conversation_history`, which caches a history loaded from disk.
- `export_conversation` raises for a session that has no history at all
  (see Findings).
- `add_message` never reads the session file. After a restart, the first
  message of an old session overwrites its file
  (`AddAfterRestartOverwritesFile`).
- `get_conversation_history` with a non-zero `limit` raises `TypeError` for
  a session without history, because it slices `None`.

## Model

| member | source | states |
|---|---|---|
| HybridSearch.NormalizeWeights | hybrid_search.py:34-38 | A positive total weight normalises the two weights to sum to 1. A total of 0 or less leaves both weights unchanged. Non-negative weights stay non-negative. |
| HybridSearch.NormalizeWeightsScaleInvariant | hybrid_search.py:34-38 | Once the total is positive, scaling both configured weights by any c > 0 gives the same normalised weights. |
| HybridSearch.NormalizeWeightsKeepsRatio | hybrid_search.py:34-38 | Each normalised weight times the original total gives back the configured weight, so the ratio of the two is kept. |
| HybridSearch.Keywords | hybrid_search.py:50-55 | Every keyword is longer than two characters, is not a stop word, and consists of lower-case word characters. |
| HybridSearch.KeywordsIgnoreCase | hybrid_search.py:51 | Lower-casing the text first does not change its keywords. |
| HybridSearch.KeywordsOfJoin | hybrid_search.py:51-54 | The keywords of two texts joined by a non-word character are the union of the keywords of each text. |
| HybridSearch.KeywordsOfWord | hybrid_search.py:51-54 | A single word yields exactly its lower-cased self when it is longer than two characters and not a stop word, and nothing otherwise. |
| HybridSearch.Jaccard | hybrid_search.py:73-80 | The overlap lies in [0, 1]. It is 1 exactly when the two sets are equal and non-empty, and 0 exactly when they share nothing. |
| HybridSearch.JaccardSymmetric | hybrid_search.py:74-75 | The overlap does not depend on the order of its arguments. |
| HybridSearch.KeywordScore | hybrid_search.py:68-80 | The keyword score lies in [0, 1] and is 0 for an empty query set. It is 1 exactly when the document's keywords equal a non-empty query set, and 0 exactly when they share no keyword with it. |
| HybridSearch.NormalizeVectorScore | hybrid_search.py:105-106 | Negative scores in [-1, 0) map to (s+1)/2, and scores in [0, 2] map to 1 - s/2. Everything at or beyond -1 or 2 maps to 0, and the result always lies in [0, 1]. |
| HybridSearch.NormalizeVectorScoreMonotone | hybrid_search.py:105-106 | The mapping rises on negative scores and falls on non-negative ones. |
| HybridSearch.FusedScoreInUnitInterval | hybrid_search.py:105-112 | With non-negative configured weights, every candidate's fused score lies in [0, 1]. |
| HybridSearch.FuseBounds | hybrid_search.py:112 | A weighted sum of two scores in [0, 1] with non-negative weights summing to at most 1 lies in [0, 1]. |
| HybridSearch.Rank | hybrid_search.py:97-120 | Returns min(k, n) entries for k ≥ 0; a negative k drops the last -k. The entries are in non-increasing fused score, and each is some index candidate paired with its own fused score. |
| HybridSearch.Ranked | hybrid_search.py:117 | Before the cut, the ranking is a permutation of the rescored candidates, ordered by non-increasing fused score. |
| HybridSearch.Search | hybrid_search.py:94-120 | The index is asked for exactly `2*k` candidates. A retrieval failure is passed on unchanged. A success yields min(k, number of candidates) results. |
| HybridSearch.DroppedNeverOutranksKept | hybrid_search.py:117-120 | A candidate whose fused score beats some returned entry is itself returned. |
| HybridSearch.RankIsStablePrefix | hybrid_search.py:117-120 | The sort is stable: entries with equal fused scores keep the index's order. The result is a prefix of that sorted sequence. |
| Text.Words | hybrid_search.py:51 | Every token is non-empty and made of word characters of the text. |
| Text.WordsCoverWordChars | hybrid_search.py:51 | The tokens, concatenated, are exactly the word characters of the text, in order. |
| Text.WordsSplitAtSeparator | hybrid_search.py:51 | Tokens never span a non-word character: splitting there splits the token list. |
| Text.LowerIdempotent | hybrid_search.py:51 | Lower-casing twice is lower-casing once. |
| Sorting.SortDesc | hybrid_search.py:117 | The result is a permutation of the input, by non-increasing key. |
| Sorting.SortDescStable | hybrid_search.py:117 | For every key value, the elements with that key keep their input order. |
| Sorting.OutrankerIsKept | hybrid_search.py:117-120 | In a non-increasing sequence, an element with a larger key than some element of the first n is itself among the first n. |
| ConversationStore.Save | conversation_manager.py:134-149 | Memory is never changed, and no other file is touched. A session missing from memory writes nothing. A failed open leaves the file as it was. A successful write stores exactly the in-memory messages. A failed dump leaves an unreadable file. |
| ConversationStore.Load | conversation_manager.py:151-170 | Returns messages exactly when the session's file exists and is readable, and then returns that file's content. |
| ConversationStore.StripExtension | conversation_manager.py:184-185 | Removing the 5-character suffix from a `.json` name gives back the session id whose file it is. |
| ConversationStore.FileNameInjective | conversation_manager.py:144 | Different sessions have different file names. |
| ConversationStore.AddMessage | conversation_manager.py:38-62 | The new message (empty metadata for `None`) is last. With a bound of 0 nothing is dropped. With a positive bound the newest messages are kept, at most that many. Other sessions' memory is untouched. The disk outcome follows each write result. |
| ConversationStore.AddAllKeepsNewest | conversation_manager.py:55-59 | After any run of appends under a positive bound, the session holds the newest `maxHistory` messages of its old history followed by the new ones, in order. |
| ConversationStore.AddMessageKeepsMirror | conversation_manager.py:55-62 | While writes succeed, every in-memory session is on disk with exactly its in-memory messages. |
| ConversationStore.AddAfterRestartOverwritesFile | conversation_manager.py:55-62 | After a restart, the first add writes a one-message file, whatever the file held before. |
| ConversationStore.AddedSessionIsListed | conversation_manager.py:172-188 | A session just written to is listed, whatever happened to the write. |
| ConversationStore.History | conversation_manager.py:64-85 | The disk is never changed. A memory hit changes nothing. A miss caches the loaded file only when it is non-empty. `None` and `0` return the whole history. A positive limit returns its last `limit` messages. A non-zero limit on a missing history raises. |
| ConversationStore.HistoryKeepsMirror | conversation_manager.py:75-81 | Reading keeps memory mirrored on disk. |
| ConversationStore.MirrorSurvivesRestart | conversation_manager.py:75-85 | With memory mirrored on disk, a restarted process with empty memory reads every history exactly as before. |
| ConversationStore.HistoryRepeatable | conversation_manager.py:75-85 | A second read returns the same value and leaves the store as the first read left it. |
| ConversationStore.ContextMessages | conversation_manager.py:87-99 | Returns `[]` for a missing or empty history. A positive limit returns the last `limit` messages. A limit of 0 returns all of them. |
| ConversationStore.NewSessionRoundTrip | conversation_manager.py:87-99 | Messages appended to a new session, within both bounds, come back in order as its context window, and the session is listed. |
| ConversationStore.Clear | conversation_manager.py:101-114 | The session leaves memory and its file leaves the disk. Every other session and file is unchanged. |
| ConversationStore.ClearKeepsMirror | conversation_manager.py:108-114 | Clearing keeps memory mirrored on disk. |
| ConversationStore.ClearedSessionIsEmpty | conversation_manager.py:101-114 | After a clear the history is `None` and reading changes nothing. The context window is empty, and the session is not listed. |
| ConversationStore.ClearIdempotent | conversation_manager.py:108-114 | Clearing twice is clearing once, and clearing an unknown session changes nothing. |
| ConversationStore.ExportSession | conversation_manager.py:116-132 | A session with history exports exactly that history, with its length as the count. A session without history raises `TypeError`. |
| ConversationStore.ExportAgreesWithHistory | conversation_manager.py:126-131 | A successful export carries the very sequence `get_conversation_history` returns, and its length. |
| ConversationStore.ExportOfUnknownSessionRaises | conversation_manager.py:126-130 | Exporting a session that is neither in memory nor on disk raises instead of producing an empty export. |
| ConversationStore.ExportOrEmpty | conversation_manager.py:116-132 | Never fails. An export of a session without history is empty, and otherwise it equals `ExportSession`'s result. |
| ConversationStore.Sessions | conversation_manager.py:172-188 | A session is listed exactly when it is in memory, or its id has no `/` and its `.json` file sits in the storage directory. |
| ConversationStore.NestedSessionUnlistedAfterRestart | conversation_manager.py:183-186 | After a restart, a session whose id holds a `/` is not listed, although its file still loads. |
| PySlice.Tail | conversation_manager.py:84 | `s[-n:]` is a suffix of `s`. It is all of `s` for n = 0, the last min(n, len) elements for n > 0, and drops the first -n for n < 0. |
| PySlice.KeepLast | conversation_manager.py:58-59 | A bound of 0 keeps everything, and a positive bound keeps the newest `bound` elements. |
| PySlice.LastNAbsorbs | conversation_manager.py:58-59 | Trimming to the newest n, appending, and trimming again equals appending, then trimming once. |
| Analytics.Fresh | analytics.py:51-58 | The fallback log is empty and within its caps. |
| Analytics.Push | analytics.py:98-100 | The appended record is last. The result is a suffix of the old log plus the record, as long as the cap allows. |
| Analytics.SourceId | analytics.py:91-92 | The id of a source is its metadata's `source` entry, or `unknown` when the metadata or the entry is missing. |
| Analytics.RecordQuery | analytics.py:70-102 | Appends one query record under the 10000 cap. Its sources count is the number of sources (0 for `None`). It appends one `sources_used` entry per source, in order, with the old entries kept. The other lists are unchanged. |
| Analytics.RecordSession | analytics.py:104-117 | Appends one session record under the 10000 cap; nothing else changes. |
| Analytics.RecordFeedback | analytics.py:119-136 | Appends one feedback record under the 10000 cap; nothing else changes. |
| Analytics.RecordError | analytics.py:138-155 | Appends one error record under the 1000 cap; nothing else changes. |
| Analytics.RecordingKeepsCaps | analytics.py:98-153 | Every recording keeps a log within its caps. |
| Analytics.SourcesNeverTrimmed | analytics.py:89-96 | No recording removes or changes an entry of `sources_used`. |
| Analytics.LexLessTotal | analytics.py:173 | String order is total: of two different strings, one is less than the other. |
| Analytics.LexLessTransitive | analytics.py:173 | String order is transitive. |
| Analytics.AtOrAfterEarlier | analytics.py:173 | A timestamp at or after a cutoff is at or after every earlier cutoff. |
| Analytics.Since | analytics.py:171-189 | Keeps each record exactly as often as it occurs when its timestamp string is ≥ the cutoff, and drops it otherwise. The result is never longer than the list. |
| Analytics.SinceAppend | analytics.py:171-174 | A newly logged record is counted exactly when it is recent. |
| Analytics.SinceShrinks | analytics.py:167-189 | A later cutoff keeps a sub-multiset of the records, never more of them. |
| Analytics.Positives | analytics.py:200 | The positive count is at most the total. It equals the total exactly when all feedback is positive, and is 0 exactly when none is. |
| Analytics.FeedbackScore | analytics.py:200-202 | The score lies in [0, 100] and is 0 without feedback. Otherwise it is 100 exactly when all feedback is positive, and 0 exactly when none is. |
| Analytics.Distinct | analytics.py:206 | Each value of the input appears once. |
| Analytics.Top | analytics.py:205-210 | Holds min(n, number of distinct values) entries with distinct values. Each count is the value's number of occurrences, at least 1, in non-increasing count order. |
| Analytics.TopIsStablePrefix | analytics.py:205-210 | The top list is a prefix of a stable sort of the distinct values by non-increasing count, so ties keep the order of `Distinct`. |
| Analytics.DistinctInFirstOccurrenceOrder | analytics.py:205-210 | `Distinct` lists values in the order of their first occurrence. |
| Analytics.TopOmitsNoOutranker | analytics.py:205-210 | A value left out of a top list never occurs more often than any value on it. |
| Analytics.GetStats | analytics.py:157-221 | Each total counts the recent records and is at most its list's length. Positive feedback is at most total feedback. The score lies in [0, 100] and is 0 without feedback. Both top lists hold at most 10 entries in non-increasing count. `periodDays` echoes `days`. |
| Analytics.TopQueriesCounted | analytics.py:205-219 | Each `top_queries` count is the number of recent query records with exactly that text. |
| Analytics.RecordedQueryIsCounted | analytics.py:79-100 | Below the cap, recording a query adds one to the recent total exactly when its timestamp is at or after the cutoff. |
| Analytics.RecordedFeedbackIsCounted | analytics.py:126-134 | Below the cap, recording recent feedback adds one to the total, and adds one to the positives exactly when it is positive. |
| Analytics.LaterCutoffCountsLess | analytics.py:167-193 | A later cutoff never raises the query, session or feedback total. |
| Upload.AfterLastDot | app.py:56 | Returns `None` exactly when the name has no dot. Otherwise it returns the dot-free text after the last dot. |
| Upload.AllowedFile | app.py:54-56 | A name without a dot is rejected. An accepted name has a dot followed by an allowed extension, in some case. |
| Upload.AfterLastDotOfName | app.py:56 | For `stem + "." + ext` with a dot-free `ext`, the split yields `ext`, whatever dots the stem holds. |
| Upload.ExtensionDecides | app.py:43-56 | `stem.ext` is accepted exactly when the lower-cased `ext` is one of txt, pdf, md, docx. |
| Upload.UpperCaseAccepted | app.py:56 | Any name ending in `.PDF` (for example `A.PDF` or `x.exe.PDF`) is accepted: case is ignored and only the final extension counts. |
| Upload.HiddenExecutableRejected | app.py:56 | Any name ending in `.exe` is rejected, even one like `x.pdf.exe` whose stem has an allowed extension. |
| Upload.EmptyStemAccepted | app.py:56 | `.md` is accepted. |
| Upload.TrailingDotRejected | app.py:56 | Any name ending in a dot (for example `notes.`) is rejected: its extension is empty. |

## Left out

- Python's `\w` and `str.lower()` are Unicode-aware. Here a word character is
  an ASCII letter, digit or `_`, and lower-casing maps only `A`..`Z`.
- The vector index (`similarity_search_with_score`) is a function parameter
  of `Search`. Embeddings, Chroma and the loaders are not modelled.
- Floating point: scores and weights are exact reals. `round(…, 2)` and
  `round(…, 1)` in the statistics are not modelled.
- Analytics.GetStats: does not compute `avg_response_time`, a floating-point
  mean. Response times are still recorded.
- Clocks: every `datetime.now()` is a `now` parameter. The query record and
  its `sources_used` entries share one `now`.
- Analytics.GetStats: `cutoff` is a parameter. The model does not derive it
  from the clock and `days`.
- File-system and JSON details:
  - reading a file yields either its messages or "unreadable";
  - writing a file has one of three outcomes: written, open failed (file
    untouched), or dump failed (file left unreadable);
  - deleting a file always succeeds;
  - the analytics file (`_load_data`, `_save_data`) is modelled only through
    its empty fallback structure (`Analytics.Fresh`). Saving swallows
    errors, so it has no effect on the values computed.
- Messages and records are typed values. The JSON round trip is not modelled,
  and neither are dictionaries with missing or extra keys.
- `record_error`'s default `'unknown'` error type is left to the caller.
- The `print` calls that report a swallowed save or load error
  (conversation_manager.py:149 and 169, analytics.py:68) are console output
  only and are not modelled.
- ConversationStore.FileNameInjective: file names are kept apart by their
  text. Path normalisation is not modelled, so ids such as `x` and `./x`,
  which name the same file on a real file system, are distinct here.
- Concurrency: the source has no locking. Concurrent appends are not
  modelled.
- The chatbot and LLM code, the Flask routes, request handling, file saving
  and UUIDs of the web front end, and the knowledge-base preparation and
  setup scripts are not part of this model.

## Findings

| source | as written | input that shows it | evidently intended | confidence | as-written member | corrected member |
|---|---|---|---|---|---|---|
| conversation_manager.py:126-132 | `len(history)` on the result of `get_conversation_history`, which is `None` for a session with neither memory nor file | export of `"new-session"` on an empty store raises `TypeError` | an empty export (`message_count` 0, `messages` empty), as for a session whose history is an empty list | medium, not executed | ConversationStore.ExportOfUnknownSessionRaises | ConversationStore.ExportOrEmpty |
