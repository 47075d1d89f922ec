# FLARE core in Dafny

A model of the core of FLARE, a retrieval-augmented generation service, with proofs about that model. The core has five parts:

- **Document handler.** `read_file` picks a reader by file extension. `split_into_chunks` walks a cursor over the text. It cuts windows at sentence or paragraph separators and steps back by an overlap between windows.
- **Qdrant handler.** A thin wrapper round the vector-store client:
  - collection creation with configured defaults;
  - batched upserts with default ids;
  - search with a translation of the caller's simple and structured filters into the client's filter value;
  - collection management and listing.
- **LLM handler.** Finds the latest `checkpoint-N` directory. Loads the model with a constant-delay retry loop. Holds the prompt template, the extraction of the reply after the last `Output:` marker, the initialised flag, and the memoised (`lru_cache`, 100 entries) generation call.
- **BGE embedding client.** Validates its input. Flattens the service's embedding matrix. Embeds batches of texts and computes the clipped cosine similarity of two texts.
- **HTTP API.** Each endpoint starts the shared handler if it has no client (`ensure_handler_initialized`) and calls the embedder and the handler. The `/add` endpoint merges the chunk into every payload under `"text"`. The create endpoint looks the distance up by member name (`Distance[...]`). Any exception becomes an HTTP 500.

The model is built from pure functions over immutable datatypes.

- An operation that talks to the vector store returns the request it would send, or the error it raises first. Examples: the `VectorParams` of a creation, the `Batch` of an upsert, the `SearchRequest` of a search.
- What the server, the model loader, the text generator, the embedding service and the norm do is an opaque function parameter.
- Python's exceptions are `Result` failures. Each error datatype has one constructor per raise site.
- Python's string and slice semantics are modelled where the code depends on them:
  - negative slice bounds counted from the end;
  - `rfind` with a window;
  - `strip` over the full whitespace set;
  - `str`/`int` of naturals;
  - `re.search` with a greedy `\d+`;
  - `split(...)[-1]`.

Modules: `Results`, `TextUtil` (the string semantics), `DocumentHandler`, `QdrantFilter`, `QdrantHandler`, `RetryPolicy` (the retry loop shared by the three LLM operations), `LlmHandler`, `BgeEmbedding` and `FlareApi`.

The model follows the code where the code does something a reader of the docstrings might not expect:

- `split_into_chunks` emits whitespace-only windows as `""` rather than dropping them.
- `split_into_chunks` accepts any overlap, including one as large as the chunk size.
- When looking for a cut, the first separator in the list `[". ", "! ", "? ", "\n"]` that occurs in the window wins, not the separator nearest the window end.
- The LLM reply cache is consulted before the initialised check, so a cached reply is still returned after `close()`.
- `find_latest_checkpoint` returns `None` when `max_retries <= 0`.

## Model

| member | source | states |
|---|---|---|
| `TextUtil.Strip` | src/flare/utils/document_handler.py:100 | `str.strip()`: the result is no longer than the input and has no whitespace at either end; it is empty exactly when the input is all whitespace |
| `TextUtil.StripRemovesOnlyOuterSpace` | src/flare/utils/document_handler.py:100 | the stripped text is the contiguous piece of the input that starts at the first non-space character, and only whitespace lies outside it |
| `TextUtil.NormIndex` | src/flare/utils/document_handler.py:95-100 | Python's index normalisation: a negative index counts from the end, and the result is clamped to `[0, len]` |
| `TextUtil.Slice` | src/flare/utils/document_handler.py:100 | `text[start:end]`: its length is the gap between the normalised bounds, or 0, and character `k` of the slice is character `norm(start) + k` of the text, for any bounds, negative or out of range |
| `TextUtil.SliceNormalised` | src/flare/utils/document_handler.py:100 | a slice with raw bounds equals the slice with both bounds normalised, and it is the plain slice between them when they are in order |
| `TextUtil.RFind` | src/flare/utils/document_handler.py:95 | `rfind(sub, start, end)` is -1 exactly when `sub` occurs nowhere inside the normalised window; otherwise it is an occurrence inside the window with no later one |
| `TextUtil.ParseNatToString` | src/flare/llm/main.py:73 | `int(str(n)) == n` for every natural `n` |
| `TextUtil.NatToString` | src/flare/rag/qdrant_handler.py:85 | `str(n)` is a non-empty string of digits without a leading zero |
| `TextUtil.LowerAscii` | src/flare/utils/document_handler.py:36 | `lower()` on ASCII: the length is kept, upper-case letters are shifted to lower case, all other characters are kept |
| `DocumentHandler.CutAtSeparator` | src/flare/utils/document_handler.py:94-98 | the separator search either leaves the end alone or cuts strictly after the normalised start and no later than the normalised end |
| `DocumentHandler.CutAtFirstSeparator` | src/flare/utils/document_handler.py:94-98 | the cut lies one past the last occurrence of the first separator in list order that occurs in the window; when no separator occurs, the end is unchanged |
| `DocumentHandler.WindowEnd` | src/flare/utils/document_handler.py:89-98 | a window reaching the text end keeps its hard edge `start + size`; no window goes past that edge; a window from a cursor inside the text ends after the cursor when `size >= 1` |
| `DocumentHandler.WindowEndAtSeparator` | src/flare/utils/document_handler.py:89-98 | an inner window ends just after the last occurrence of the first separator present in it, or at `start + size` when none is present |
| `DocumentHandler.Walk` | src/flare/utils/document_handler.py:84-103 | a finished loop visits no window when the cursor starts at or past the text end. Otherwise its first window starts at the cursor and ends where the end rule puts it. It never makes more iterations than it is allowed, and the last window leaves the cursor at or past the text end |
| `DocumentHandler.WalkWindows` | src/flare/utils/document_handler.py:88-101 | every visited window starts before the text end and ends where the end rule puts it; each next cursor is the previous end minus the overlap |
| `DocumentHandler.SplitIntoChunks` | src/flare/utils/document_handler.py:81-103 | empty text gives no chunks; otherwise chunk `i` is the stripped slice of window `i`, and nothing is filtered out |
| `DocumentHandler.WalkUnfold` | src/flare/utils/document_handler.py:88-101 | one iteration of the loop: the current window followed by the walk from the next cursor |
| `DocumentHandler.ChunkWithinSize` | src/flare/utils/document_handler.py:89-100 | every window's chunk is at most `chunk_size` characters, including a window whose cursor went negative |
| `DocumentHandler.WalkFuelMonotone` | src/flare/utils/document_handler.py:88-101 | once the walk finishes, more iterations change nothing |
| `DocumentHandler.WalkTerminatesWithoutOverlap` | src/flare/utils/document_handler.py:88-101 | if every window ends past its cursor and the overlap is at most 0, the loop finishes within `len(text)` iterations |
| `DocumentHandler.SplitTerminatesWithoutOverlap` | src/flare/utils/document_handler.py:81-103 | with `chunk_size >= 1` and no positive overlap, `split_into_chunks` always finishes |
| `DocumentHandler.TailTerminates` | src/flare/utils/document_handler.py:88-101 | once windows reach the text end, the cursor advances by `size - overlap` and the loop finishes |
| `DocumentHandler.ShortTextIsOneChunk` | src/flare/utils/document_handler.py:81-103 | a non-empty text of at most `size - overlap` characters is the single chunk `text.strip()` |
| `DocumentHandler.TextWithinOverlapHasTailChunks` | src/flare/utils/document_handler.py:88-101 | a text longer than `size - overlap` but within `size` is emitted whole, and then again from offset `size - overlap` |
| `DocumentHandler.WhitespaceWindowGivesEmptyChunk` | src/flare/utils/document_handler.py:100 | a whitespace-only window is emitted as `""` |
| `DocumentHandler.LeadingSeparatorCut` | src/flare/utils/document_handler.py:94-97 | on `". xxxx"` with size 4 the first window is cut after the leading `"."` |
| `DocumentHandler.CursorCanGoNegative` | src/flare/utils/document_handler.py:100-101 | an early cut with a larger overlap moves the cursor to -2; Python then reads `text[-2:2]`, and that chunk is `""` |
| `DocumentHandler.StuckCursorNeverFinishes` | src/flare/utils/document_handler.py:88-101 | on `". xxxx"` with size 4 and overlap 1 the cursor returns to 0 every iteration, so no number of iterations finishes |
| `DocumentHandler.NextCursorFixed` | src/flare/utils/document_handler.py:101 | corrected step: the next cursor is the end minus the overlap when that still passes the cursor, otherwise the end; it always advances |
| `DocumentHandler.WalkFixed` | src/flare/utils/document_handler.py:88-101 | corrected walk: at most `n - start` windows; every cursor lies in `[start, n)`; strictly increasing cursors; with a non-negative overlap the windows leave no gaps and the last one reaches the text end |
| `DocumentHandler.SplitIntoChunksFixed` | src/flare/utils/document_handler.py:81-103 | the corrected splitter is total; it gives no chunks exactly for empty text and never more chunks than characters |
| `DocumentHandler.WalkFixedAgrees` | src/flare/utils/document_handler.py:88-101 | wherever windows advance and the overlap is at most 0, the walk as written and the corrected walk visit the same windows |
| `DocumentHandler.FixedAgreesWithoutOverlap` | src/flare/utils/document_handler.py:81-103 | without positive overlap the corrected splitter returns what `split_into_chunks` returns |
| `DocumentHandler.FixedWalkFinishesOnStuckInput` | src/flare/utils/document_handler.py:81-103 | the corrected splitter gives `[".", "xxx", "xx"]` on the input that traps the original |
| `DocumentHandler.TrimTrailingSlashes` | src/flare/utils/document_handler.py:32 | `Path` drops trailing slashes: the result is the path with exactly its trailing `/` characters removed (a prefix not ending in `/`, with only `/` after it) |
| `DocumentHandler.BaseName` | src/flare/utils/document_handler.py:32-36 | the final component is the tail of the trimmed path after its last `/`: it has no `/`, and it is the whole trimmed path or is preceded by a `/` |
| `DocumentHandler.Suffix` | src/flare/utils/document_handler.py:36 | `Path.suffix` is the tail from the last dot: empty exactly when the name is empty, ends in a dot, or has no dot after its first character; otherwise it starts with `.`, has no other dot, at least one more character, and is a proper tail of the name |
| `DocumentHandler.TrailingDotHasNoSuffix` | src/flare/utils/document_handler.py:36 | `a.b.` has no suffix although it has an earlier dot: the last dot decides |
| `DocumentHandler.FormatOf` | src/flare/utils/document_handler.py:36-45 | `.txt`, `.pdf` and `.docx` (after lower-casing) select their readers; any other suffix is refused with that suffix |
| `DocumentHandler.ReadFile` | src/flare/utils/document_handler.py:22-45 | a missing file fails before dispatch; an unsupported suffix fails with that suffix; otherwise the selected reader's text or failure is returned |
| `DocumentHandler.ProcessDocument` | src/flare/utils/document_handler.py:105-116 | a read failure is passed on; otherwise the result is the chunks of the text read |
| `DocumentHandler.UpperCaseExtensionDispatches` | src/flare/utils/document_handler.py:36-41 | `a/b.PDF` is read as PDF: the extension match ignores case |
| `DocumentHandler.HiddenFileHasNoFormat` | src/flare/utils/document_handler.py:36-45 | a file named `.txt` has no suffix and is refused as format `""` |
| `DocumentHandler.FormatOfIgnoresDirectory` | src/flare/utils/document_handler.py:32-36 | for any file name without `/`, putting any directory in front of it does not change the dispatch |
| `DocumentHandler.FormatOfIgnoresCase` | src/flare/utils/document_handler.py:32-36 | for any path, ASCII case anywhere in the path does not change the dispatch |
| `DocumentHandler.BaseNameLower` | src/flare/utils/document_handler.py:32 | lower-casing a path and then taking its final component gives the lower-cased final component |
| `DocumentHandler.SuffixLower` | src/flare/utils/document_handler.py:36 | lower-casing a name and then taking its suffix gives the lower-cased suffix |
| `QdrantFilter.RangeOf` | src/flare/rag/qdrant_handler.py:157-170 | a range bound is present exactly when its name is a key of the range dictionary, and it then holds that key's value |
| `QdrantFilter.RangeIgnoresOtherKeys` | src/flare/rag/qdrant_handler.py:158-166 | keys other than `gte`/`lte`/`gt`/`lt` do not affect the range |
| `QdrantFilter.ConvertCondition` | src/flare/rag/qdrant_handler.py:146-174 | a condition entry fails with a KeyError exactly when it would produce a condition but has no `"key"`; it is dropped exactly when it has neither a match nor a range; a range overrides a match |
| `QdrantFilter.ConvertAll` | src/flare/rag/qdrant_handler.py:145-174 | the list converts exactly when every entry does; the only error is the missing key; no more conditions come out than entries went in |
| `QdrantFilter.ConvertAllAppend` | src/flare/rag/qdrant_handler.py:145-174 | conversion distributes over concatenation, so conditions keep the order of their entries |
| `QdrantFilter.PayloadConditions` | src/flare/rag/qdrant_handler.py:135-142 | each simple filter item becomes an exact match on that key and value, in order |
| `QdrantFilter.ClauseNamed` | src/flare/rag/qdrant_handler.py:177-184 | an accepted filter type is the name of the clause chosen; anything else is refused with that name |
| `QdrantFilter.ClauseNameRoundTrip` | src/flare/rag/qdrant_handler.py:177-184 | every clause is accepted under its own name |
| `QdrantFilter.BuildFilter` | src/flare/rag/qdrant_handler.py:131-184 | no filter when neither input is given; otherwise success exactly when the structured entries convert and the type is known (the conversion error comes first); the filter's conditions are the simple ones followed by the structured ones |
| `QdrantFilter.RangeOverridesMatchExample` | src/flare/rag/qdrant_handler.py:149-174 | an entry with both match and range gives only the range; an entry with neither gives nothing, even without a key |
| `QdrantHandler.NewHandler` | src/flare/rag/qdrant_handler.py:8-28 | a new handler has no client and stores the given vector size and distance |
| `QdrantHandler.Start` | src/flare/rag/qdrant_handler.py:30-34 | `start` creates the client and keeps the configuration |
| `QdrantHandler.DistanceNamed` | src/flare/api/main.py:53 | a distance found by name has exactly that member name |
| `QdrantHandler.DistanceNameRoundTrip` | src/flare/api/main.py:53 | every member is found by its name; a name is refused exactly when it is no member's name |
| `QdrantHandler.DistanceLookupIsCaseSensitive` | src/flare/api/main.py:53 | `"Cosine"` and `"cosine"` are refused |
| `QdrantHandler.EffectiveParams` | src/flare/rag/qdrant_handler.py:59-62 | a missing size or size 0 falls back to the configured size; a missing distance falls back to the configured distance; any other value is used as given |
| `QdrantHandler.CreateCollection` | src/flare/rag/qdrant_handler.py:36-63 | fails without a client; otherwise a creation request is made exactly when the name is not listed, with the effective parameters |
| `QdrantHandler.CreateCollectionIdempotent` | src/flare/rag/qdrant_handler.py:53-63 | once the first call has been served, the name is listed, and a second call requests nothing and leaves the listing unchanged |
| `QdrantHandler.DefaultIds` | src/flare/rag/qdrant_handler.py:84-85 | one default id per vector, and id `i` is `str(i)`: the canonical digits of `i`, which read back as `i` |
| `QdrantHandler.DefaultIdsDistinct` | src/flare/rag/qdrant_handler.py:84-85 | default ids are pairwise distinct |
| `QdrantHandler.Add` | src/flare/rag/qdrant_handler.py:65-94 | fails exactly when there is no client, and then with the not-initialised error; otherwise vectors and payloads are sent unchanged in one batch, with the given ids or `"0".."n-1"` |
| `QdrantHandler.SearchRequestFor` | src/flare/rag/qdrant_handler.py:124-191 | fails without a client, or with the filter's own error when the filter cannot be built; forwards collection, query, limit and threshold unchanged; the filter sent is exactly the one the payload filter, the conditions and the filter type translate to |
| `QdrantHandler.HitsOf` | src/flare/rag/qdrant_handler.py:193-200 | one hit per scored point, in the server's order, keeping id, score and payload |
| `QdrantHandler.HitsOfAppend` | src/flare/rag/qdrant_handler.py:193-200 | the mapping commutes with concatenation |
| `QdrantHandler.Search` | src/flare/rag/qdrant_handler.py:96-200 | fails exactly when its request cannot be built; otherwise the result is the server's answer to that request mapped to hits, with id, score and payload of each point in the server's order |
| `QdrantHandler.SearchGuardMakesNoCall` | src/flare/rag/qdrant_handler.py:124-125 | without a client the result does not depend on the server |
| `QdrantHandler.UnknownFilterTypeIgnoredWithoutFilter` | src/flare/rag/qdrant_handler.py:131-184 | an unknown filter type is not an error when no filter input is given |
| `QdrantHandler.Manage` | src/flare/rag/qdrant_handler.py:202-228 | fails without a client; otherwise exactly `delete`, `update` and `get_info` are accepted, each giving a request on the named collection (update carries the options) |
| `QdrantHandler.ManageRoundTrip` | src/flare/rag/qdrant_handler.py:217-226 | every request `manage` can issue is produced again from its action name |
| `QdrantHandler.ListCollections` | src/flare/rag/qdrant_handler.py:230-241 | fails exactly when there is no client, and then with the not-initialised error; otherwise returns the server's names in order |
| `QdrantHandler.CreateFollowsListing` | src/flare/rag/qdrant_handler.py:53-63 | with a client, the listing succeeds, and creation sends a request exactly when the name is absent from the listed names; afterwards the name is listed |
| `RetryPolicy.RetryFrom` | src/flare/llm/main.py:61-89 | from attempt `k`: at most `n` attempts in all, one sleep fewer than attempts; a success comes after only failures; exhaustion means every attempt from `k` failed and the last failure is kept |
| `RetryPolicy.Retry` | src/flare/llm/main.py:61-89 | no attempt exactly when `max_retries <= 0`; otherwise the first success is returned after only failures, or all `n` attempts failed and the last error is re-raised |
| `RetryPolicy.RetryStopsAtFirstSuccess` | src/flare/llm/main.py:61-82 | if attempt `k` is the first success, the loop returns it after `k + 1` attempts and `k` sleeps |
| `RetryPolicy.RetryExhaustsWhenAllFail` | src/flare/llm/main.py:84-89 | if every attempt fails, the loop makes `n` attempts with `n - 1` sleeps and re-raises the last failure |
| `RetryPolicy.RetryLoop` | src/flare/llm/main.py:61-89 | the imperative loop gives the same outcome, attempt count and sleep count as the reference |
| `LlmHandler.SearchFrom` | src/flare/llm/main.py:71 | `re.search` finds the leftmost position where `checkpoint-` is followed by a digit |
| `LlmHandler.DigitRunEnd` | src/flare/llm/main.py:71 | the greedy `\d+` ends at the first non-digit |
| `LlmHandler.CheckpointNumber` | src/flare/llm/main.py:71-73 | a name has no number exactly when `checkpoint-` followed by a digit occurs nowhere in it; otherwise the number is the value of the greedy digit run after the leftmost such match |
| `LlmHandler.CheckpointNumberRoundTrip` | src/flare/llm/main.py:71-79 | the directory name the handler builds from a number reads back as that number |
| `LlmHandler.LeadingZerosAreDropped` | src/flare/llm/main.py:73-79 | `checkpoint-007` reads as 7, so the path rebuilt from it names `checkpoint-7` |
| `LlmHandler.MaxNumber` | src/flare/llm/main.py:69-78 | none exactly when no entry has a number; otherwise a number some entry has, and no smaller than any entry's number (the number of an entry is a parameter, `NumberOf` for the checkpoint search) |
| `LlmHandler.LatestCheckpointOnce` | src/flare/llm/main.py:63-82 | "no checkpoint directories" exactly when no entry is a `checkpoint-*` directory; "no valid numbers" exactly when some is but none has a number; it succeeds exactly when some checkpoint directory has a number, and then gives the path of the largest number present |
| `LlmHandler.Retried` | src/flare/llm/main.py:61-89 | the shared retry wrapper returns `None` exactly when `max_retries <= 0`; it fails exactly when all attempts fail, naming the operation, the count and the last error; otherwise it returns the value of the first successful attempt, all earlier attempts having failed |
| `LlmHandler.FindLatestCheckpoint` | src/flare/llm/main.py:59-89 | returns `None` exactly when `max_retries <= 0`; fails exactly when every lookup attempt fails, with the last attempt's error; otherwise returns the path found by the first successful lookup attempt |
| `LlmHandler.NewLlm` | src/flare/llm/main.py:20-38 | a new handler has nothing loaded, is not initialised, has an empty cache, and stores the given model path and retry count |
| `LlmHandler.LoadAttempt` | src/flare/llm/main.py:93-150 | a load attempt runs a fresh lookup against the listings it sees: a lookup failure is passed on; a `None` path fails upstream; otherwise it succeeds with the found checkpoint exactly when the loader accepts it, and a loader failure is passed on |
| `LlmHandler.Load` | src/flare/llm/main.py:91-157 | `max_retries <= 0` leaves the handler as it is; the load fails exactly when every load attempt fails, with the last attempt's error; a success keeps configuration and cache, sets the flag and holds the checkpoint of the first successful attempt |
| `LlmHandler.LoadFailsWithoutCheckpoints` | src/flare/llm/main.py:93-157 | when no lookup finds a checkpoint, loading fails with the load loop's error wrapping the lookup loop's error |
| `LlmHandler.LoadAttemptWithoutCheckpoints` | src/flare/llm/main.py:59-97 | a load attempt whose every lookup fails fails with the lookup loop's exhausted-retries error |
| `LlmHandler.LookupFindsSteadyCheckpoint` | src/flare/llm/main.py:59-82 | a lookup whose every attempt finds the same path returns that path |
| `LlmHandler.LoadAttemptFindsSteadyCheckpoint` | src/flare/llm/main.py:93-150 | a load attempt whose lookups all find `c` and whose loader accepts `c` yields `c` |
| `LlmHandler.SingleCheckpointFound` | src/flare/llm/main.py:63-82 | a listing holding just the directory `checkpoint-5` gives the path of checkpoint 5 |
| `LlmHandler.LaterAttemptSeesNewCheckpoint` | src/flare/llm/main.py:91-157 | a checkpoint that appears only after the first load attempt failed is found and loaded by the second attempt |
| `LlmHandler.Close` | src/flare/llm/main.py:44-57 | after `close` the handler is not initialised; an initialised handler drops its model; an uninitialised one is left alone; configuration and cache are kept |
| `LlmHandler.CloseIdempotent` | src/flare/llm/main.py:44-57 | closing twice is closing once |
| `LlmHandler.Prompt` | src/flare/llm/main.py:167 | the prompt is the template: `Instruction: `, the instruction, a newline and `Input: `, the input, a newline and the `Output:` marker, each at its position, and nothing else |
| `LlmHandler.AfterLastMarker` | src/flare/llm/main.py:174 | `split("Output:")[-1]` is a suffix of the text with no marker in it; with no marker it is the whole text, and otherwise a marker ends right where it begins |
| `LlmHandler.ExtractReply` | src/flare/llm/main.py:173-174 | the reply is the part after the last marker, stripped; it contains no marker and has no whitespace at either end |
| `LlmHandler.ReplyAfterLastMarker` | src/flare/llm/main.py:174 | for any text followed by the marker and a marker-free generation, the reply is that generation stripped |
| `LlmHandler.ReplyOfEchoedPrompt` | src/flare/llm/main.py:167-174 | when the decoder echoes the prompt and appends marker-free text, the reply is that text stripped, whatever the instruction and input hold |
| `LlmHandler.Lookup` | src/flare/llm/main.py:159 | a cache miss means no entry has the key; a hit returns the value stored with the key |
| `LlmHandler.Remove` | src/flare/llm/main.py:159 | removing a key keeps exactly the other entries; it shrinks the cache when the key is present and returns it unchanged when the key is absent |
| `LlmHandler.RemoveAppend` | src/flare/llm/main.py:159 | removal works entry by entry, so it commutes with concatenation and keeps the order of the remaining entries |
| `LlmHandler.RemoveAt` | src/flare/llm/main.py:159 | with distinct keys, removing the key of entry `i` cuts out exactly entry `i` |
| `LlmHandler.RemoveKeepsKeysDistinct` | src/flare/llm/main.py:159 | removing a key from a cache with distinct keys leaves the keys distinct |
| `LlmHandler.LookupFindsUniqueEntry` | src/flare/llm/main.py:159 | in a well-formed cache the lookup finds the one entry with the key |
| `LlmHandler.Record` | src/flare/llm/main.py:159 | recording keeps the cache within 100 entries with distinct keys; the new entry is the most recent and the key yields its value; every other entry came from the old cache; other entries survive, except that the least recent one is evicted when a new key overflows the cache |
| `LlmHandler.RecordIsLru` | src/flare/llm/main.py:159 | the `lru_cache` update exactly: a hit moves the key's entry to the most recent end, a miss appends, and a miss on a full cache evicts the least recent entry |
| `LlmHandler.GenerateUncached` | src/flare/llm/main.py:160-182 | fails when not initialised; returns `None` exactly when `max_retries <= 0`; fails only if every generation attempt fails, with the last error; a reply is the extraction of the first successful generation |
| `LlmHandler.RetriedGeneration` | src/flare/llm/main.py:165-182 | the retry loop's promises in terms of the generation: on failure every generation failed; on success the reply extracts the first successful generation |
| `LlmHandler.Generate` | src/flare/llm/main.py:159-182 | a cached key is answered before the initialised check; otherwise the uncached call runs; a success leaves exactly the cache `Record` gives for the returned value, a failure leaves the handler unchanged; the cache stays well formed |
| `LlmHandler.RepeatedCallIsMemoised` | src/flare/llm/main.py:159-160 | a repeated call returns the first call's value whatever the model would generate |
| `LlmHandler.CachedReplySurvivesClose` | src/flare/llm/main.py:159-163 | after `close` a cached reply is still returned |
| `LlmHandler.FailuresAreNotCached` | src/flare/llm/main.py:159-182 | after a failed call, the next call runs the model again |
| `BgeEmbedding.Flatten` | src/flare/embedding/main.py:56 | flattening an empty matrix gives an empty vector |
| `BgeEmbedding.FlattenLength` | src/flare/embedding/main.py:56 | a matrix of width `w` flattens to `rows * w` entries |
| `BgeEmbedding.FlattenRowMajor` | src/flare/embedding/main.py:56 | flattening is row-major: entry `(i, j)` lands at `i * w + j` |
| `BgeEmbedding.GetEmbedding` | src/flare/embedding/main.py:36-56 | blank text, an HTTP error, a missing `embeddings` key, a ragged matrix and an empty matrix fail in that order; otherwise the result is the row-major flattening of the matrix |
| `BgeEmbedding.BlankTextNeverReachesService` | src/flare/embedding/main.py:46-49 | for blank text the result does not depend on the service |
| `BgeEmbedding.EmptyRowPasses` | src/flare/embedding/main.py:50-56 | a reply of one empty row passes the emptiness check and yields the empty vector |
| `BgeEmbedding.EmbedAll` | src/flare/embedding/main.py:71-74 | with an embedding function applied to each text (`GetEmbedding` with the service, for `get_embeddings`), all texts embed in order, or the error is that of the first text that fails |
| `BgeEmbedding.GetEmbeddings` | src/flare/embedding/main.py:58-75 | an empty list is refused; a success has one row per text, each that text's embedding, and the rows have equal lengths |
| `BgeEmbedding.DotSymmetric` | src/flare/embedding/main.py:100 | the dot product is symmetric |
| `BgeEmbedding.Clip` | src/flare/embedding/main.py:103 | the result lies in `[-1, 1]`, is the input when the input is in range, and otherwise is the nearer bound |
| `BgeEmbedding.Similarity` | src/flare/embedding/main.py:91-103 | a zero norm gives 0.0 before any length check; otherwise fails exactly on different lengths; the result lies in `[-1, 1]` and equals the cosine when the cosine is in range |
| `BgeEmbedding.CosineSymmetric` | src/flare/embedding/main.py:100 | the cosine `dot(a, b) / (norm(a) * norm(b))` does not depend on argument order |
| `BgeEmbedding.SimilaritySymmetric` | src/flare/embedding/main.py:91-103 | similarity does not depend on argument order |
| `BgeEmbedding.SelfSimilarityIsOne` | src/flare/embedding/main.py:91-103 | a non-zero vector whose norm squares to its self dot product has similarity 1.0 with itself |
| `BgeEmbedding.ComputeSimilarity` | src/flare/embedding/main.py:77-103 | the first text's embedding error comes first, then the second's; when both embed, the result is the similarity of the two embeddings, so it lies in `[-1, 1]` |
| `BgeEmbedding.ComputeSimilaritySymmetric` | src/flare/embedding/main.py:77-103 | when both texts embed, swapping them gives the same result |
| `FlareApi.EnsureHandlerInitialized` | src/flare/api/main.py:40-43 | afterwards the handler has a client and the same configuration; a handler that already has a client is left as it is |
| `FlareApi.EnsureHandlerInitializedIdempotent` | src/flare/api/main.py:40-43 | applying it twice is applying it once |
| `FlareApi.CreateCollectionEndpoint` | src/flare/api/main.py:45-57 | the handler is started even on error; a 500 comes exactly when the distance is not an exact member name; creation is requested exactly when the name is not listed, with that distance and with size 0 falling back to the default |
| `FlareApi.MergePayloads` | src/flare/api/main.py:71-76 | every payload is kept in order with `"text"` set to the chunk; its other keys and values are unchanged and no other key is added |
| `FlareApi.MergePayloadsAppend` | src/flare/api/main.py:71-76 | merging commutes with concatenation |
| `FlareApi.MergePayloadsIdempotent` | src/flare/api/main.py:71-76 | merging a merged list again changes nothing |
| `FlareApi.AddEndpoint` | src/flare/api/main.py:59-86 | a 500 comes exactly when embedding the chunk fails. Otherwise one batch is upserted with the fresh id, the one embedding and the merged payloads, and the fresh id is returned |
| `FlareApi.AddBatchBalancedOnlyForOnePayload` | src/flare/api/main.py:78-83 | the batch always has one id and one vector, so payloads match them in number exactly when the request has one payload |
| `FlareApi.SearchEndpoint` | src/flare/api/main.py:88-107 | an embedding error gives a 500 carrying it; otherwise a 500 comes exactly when the filter cannot be built, and it carries the filter's own error; a success is the handler's search result |
| `FlareApi.DeleteCollectionEndpoint` | src/flare/api/main.py:109-117 | always issues the delete request for the named collection |
| `FlareApi.CollectionInfoEndpoint` | src/flare/api/main.py:119-127 | always issues the info request for the named collection |
| `FlareApi.ListCollectionsEndpoint` | src/flare/api/main.py:129-137 | always returns the server's collection names |
| `FlareApi.FirstRequestStartsHandler` | src/flare/api/main.py:15-49 | the module-level handler starts without a client; the first request gives it one, and later requests leave it as they find it |

## Left out

- File reading: the existence check, `chardet` detection, PDF page extraction and DOCX paragraphs are the opaque `extract` and the `found` flag of `ReadFile`. Path normalisation beyond trailing slashes is not modelled.
- DocumentHandler.SplitIntoChunks: the Python loop may not terminate, so the model runs it with a `fuel` bound. `None` means the bound ran out, not that the loop finished.
- DocumentHandler.ProcessDocument: carries the same `fuel` bound.
- Sleeping: `time.sleep(retry_delay)` is counted (`Run.delays`), not timed. Logging is left out.
- The vector-store server is outside the model. Requests are returned as data, and search and listing answers are opaque arguments. The server's ranking, `limit` and `score_threshold` are not modelled.
- QdrantHandler.Add: it does not check that ids, vectors and payloads have the same length. The handler does not check either; the client and server do.
- Pydantic and client-side validation are left out. This covers non-string filter keys, bound value types, and a `"range"` entry that is not a dictionary. The payload filter is modelled as a list of its items in dictionary order.
- Model loading and generation are opaque functions of the attempt number: `PeftConfig`, `AutoModelForCausalLM`, the tokenizer, quantisation and device placement. On a failed load the model records nothing. The tokenizer that the Python code may already have assigned is not modelled.
- LlmHandler.Generate: `lru_cache` is keyed on `self` and shared by all handlers of the class, and it is thread-safe. The model keeps one cache per handler and calls as a sequence.
- LlmHandler.Load: lookup attempt `j` inside load attempt `k` sees the directory listing `listing(k, j)`. The `glob` ordering and symbolic links are not modelled.
- LlmHandler.CheckpointPath: joins with `"/"`; `pathlib` normalisation of the base path is not modelled.
- `re`'s `\d` also matches non-ASCII digits. Only ASCII digits are modelled, and `str.lower` only for ASCII.
- `__del__` calls `close`. Finalisation is not modelled.
- Floating point: vectors are reals, the norm is an opaque function, and NaN and rounding are not modelled.
- BgeEmbedding.SelfSimilarityIsOne: assumes that the norm squares exactly to the self dot product. This is stated as a requirement rather than derived from `np.linalg.norm`.
- BgeEmbedding.GetEmbedding: assumes the service's `embeddings` value is a matrix. A ragged matrix is refused as modern NumPy refuses it; older NumPy built an object array instead. A flat, one-dimensional list is not modelled.
- Point ids for `/add` come from the `freshId` argument instead of `uuid.uuid4()`.
- The HTTP layer: FastAPI routing, request parsing and the exact 500 message strings are left out. Each endpoint returns the request or result its success message reports.
- Errors raised by the vector-store client or server also become HTTP 500s in the source, and they are not modelled. Examples are an upsert into a missing collection, an upsert whose batch is unbalanced (see `FlareApi.AddBatchBalancedOnlyForOnePayload`), and `get_collection` on a name that does not exist. The endpoint rows' "exactly when" covers only the errors the handler and the embedder raise themselves.
- Environment configuration (`load_dotenv`, host and port) is left out.

## Findings

| source | as written | input that shows it | evidently intended | confidence | as-written member | corrected member |
|---|---|---|---|---|---|---|
| src/flare/utils/document_handler.py:94-101 | `start = end - chunk_overlap` after a separator cut, even when the cut is within `chunk_overlap` characters of `start` | text `". xxxx"`, `chunk_size` 4, `chunk_overlap` 1: the first window is cut after `"."`, so `end` is 1 and `start` goes back to 0 forever | each iteration moves the cursor forward, so the walk finishes | not executed | `DocumentHandler.StuckCursorNeverFinishes` | `DocumentHandler.FixedWalkFinishesOnStuckInput` |
| src/flare/utils/document_handler.py:100-101 | the next cursor can fall below zero, and Python then reads the slice from the text end | text `". xxxx"`, `chunk_size` 4, `chunk_overlap` 3: the next cursor is -2, and `text[-2:2]` gives the chunk `""` | the cursors of successive windows increase and stay inside the text | not executed | `DocumentHandler.CursorCanGoNegative` | `DocumentHandler.WalkFixed` |
