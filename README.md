# memory-mcp in Dafny

A model of the self-contained logic of the memory-mcp server. This is a
Node.js MCP server that stores "memories" in two places: a key–value
dictionary persisted to `memory.json`, and an `ai_memory` table in Supabase
searched by embedding similarity. It also connects a Gemini chat to that
memory. The model covers these parts:

- **The legacy key–value tools and request dispatch** of `index.js`. The
  class `McpServer.MemoryServer` holds the dictionary `memoryStore` as a
  `map` field, its key order as a `seq` field, and the snapshots that
  `saveToDisk` wrote. Its methods are proved against the pure functions
  `Save`, `Recall` and `Delete`. The semantic tools (`saveAndEmbedMemory`,
  `searchSimilarMemory`, `listAllMemories`) are functions of a `Services`
  record of oracles: the embedding provider and the Supabase calls.
- **The `match_memories` ranking rule**: filter on `1 - (embedding <=> q) >
  threshold`, then `ORDER BY similarity DESC`, then `LIMIT count`. It is
  written once, generically, in `Ranking`. It is applied to the `ai_memory`
  table in `AiMemoryTable` and in `FixMatchMemories` (the replacement in
  `fix-match-memories.js`). The definition in `test-supabase.js` is modelled
  twice: as written, where every call fails because its column names clash
  with its output parameters (see "## Findings"), and with its evident
  meaning, which the rest of the model uses. pgvector's cosine distance is
  the parameter `dist`. PostgreSQL drops the `(1536)` of the parameter type
  `vector(1536)`, so a query of another width fails only when `<=>` meets a
  row with an embedding.
- **The two copies of the cosine similarity fold**, in `VectorUtils` and
  `EmbeddingService`. They work over `real`, with `Math.sqrt` as a
  parameter `sqrt`. JavaScript division is written out explicitly (`Divide`
  returns NaN or an infinity for a zero divisor), so the missing zero-vector
  guard shows up as an explicit NaN result.
- **The Gemini chat integration** (`GeminiService`): the memory context
  block, the enhanced message, the two write-backs in order, and
  `resetChat`. Retrieval, the model's reply, the clock and the saves are
  oracles gathered in a `World`.
- **The metadata key tally of `explore-db.js`** (`ExploreDb`): the
  first-seen de-duplication `uniqueTypes`, and the nested-loop count
  `typeCounts`, which updates a map.

JavaScript truthiness of string inputs is `Common.Truthy`: an absent
property, `null` and `""` are all falsy. A default parameter applies only
to an absent value (`Option.GetOr`).

## Model

| member | source | states |
|---|---|---|
| VectorUtils.Dot | utils/vector-utils.js:38 | the dot-product fold is 0 when either vector is the zero vector |
| VectorUtils.SumOfSquares | utils/vector-utils.js:39-40 | the sum-of-squares fold is never negative |
| VectorUtils.Norm | utils/vector-utils.js:39-40 | with `Math.sqrt` as the square root, each norm is non-negative and squares back to the sum of squares |
| VectorUtils.Divide | utils/vector-utils.js:42 | JavaScript `/`: finite exactly when the divisor is non-zero, and then the quotient times the divisor gives back the dividend; NaN exactly when both are zero |
| VectorUtils.CosineSimilarity | utils/vector-utils.js:33-43 | throws "Vectors must have the same length" exactly when the lengths differ |
| VectorUtils.DotSymmetric | utils/vector-utils.js:38 | the dot-product fold gives the same sum with its arguments swapped |
| VectorUtils.CosineSimilaritySymmetric | utils/vector-utils.js:38-42 | `cosineSimilarity(a, b)` equals `cosineSimilarity(b, a)` for all inputs, error cases included |
| VectorUtils.DotSelfIsSumOfSquares | utils/vector-utils.js:38-40 | a vector's dot product with itself equals the sum of squares its norm is the root of |
| VectorUtils.NormIsRootOfSumOfSquares | utils/vector-utils.js:39-40 | each norm is non-negative, its square is the sum of squares, and it is zero exactly for the zero vector |
| VectorUtils.NonZeroVectorHasSquares | utils/vector-utils.js:39 | a vector with a non-zero component has a strictly positive sum of squares |
| VectorUtils.ZeroVectorGivesNaN | utils/vector-utils.js:42 | no zero-vector guard: with a zero vector on either side the result is NaN, not an error |
| VectorUtils.NonZeroVectorsGiveFinite | utils/vector-utils.js:42 | two non-zero vectors of equal length give a finite number |
| VectorUtils.SelfSimilarityIsOne | utils/vector-utils.js:38-42 | a non-zero vector has similarity exactly 1 with itself |
| VectorUtils.GenerateEmbedding | utils/vector-utils.js:14-25 | the first embedding of the provider's reply; a provider error is rethrown unchanged; an empty reply fails reading `embedding` of undefined |
| VectorUtils.MockEmbedding | utils/vector-utils.js:50-52 | length `dimensions` (negative clamps to 0), 1536 by default, every component in [-1, 1) |
| EmbeddingService.CalculateCosineSimilarity | services/embedding-service.js:26-36 | throws "Vectors must have the same dimensions" exactly when the lengths differ |
| EmbeddingService.CopiesAgree | services/embedding-service.js:31-35 | succeeds on the same inputs as `cosineSimilarity` and then returns the same number |
| EmbeddingService.CalculateCosineSimilaritySymmetric | services/embedding-service.js:31-35 | symmetric in its two arguments |
| EmbeddingService.CalculateCosineSimilarityZeroCases | services/embedding-service.js:32-35 | both magnitudes are non-negative; the result is NaN exactly when one vector is zero |
| EmbeddingService.GenerateEmbedding | services/embedding-service.js:11-23 | the first embedding on success; every failure is rethrown with the prefix "Failed to generate embedding: " |
| EmbeddingService.GenerateEmbeddingWrapsErrors | services/embedding-service.js:18-22 | the same embedding as the vector-utils helper on success, and that helper's error message behind the prefix on failure |
| Ranking.Above | test-supabase.js:70 | every kept row is strictly above the threshold, and no more rows come out than went in |
| Ranking.AboveSound | test-supabase.js:70 | every kept row comes from the input |
| Ranking.AboveComplete | test-supabase.js:70 | every input row strictly above the threshold is kept |
| Ranking.Insert | test-supabase.js:71 | inserting into a descending sequence keeps it descending and adds exactly the one element |
| Ranking.SortDescending | test-supabase.js:71 | the result is descending by similarity and a permutation of the input |
| Ranking.Take | test-supabase.js:72 | `LIMIT`: a prefix of length `min(count, length)` |
| Ranking.Rank | test-supabase.js:70-72 | the whole WHERE, ORDER BY and LIMIT rule returns at most `count` rows and no more rows than it was given |
| Ranking.RankAboveThreshold | test-supabase.js:70 | every ranked row is strictly above the threshold and comes from the input |
| Ranking.RankLength | test-supabase.js:70-72 | exactly `min(count, number of qualifying rows)` rows, so never more than `count` |
| Ranking.RankSorted | test-supabase.js:71 | the ranked rows are in non-increasing similarity |
| Ranking.RankTopK | test-supabase.js:70-72 | the result is a sub-multiset of the qualifying rows, and every qualifying row left out scores at most every returned row |
| Ranking.LeftOutScoresNoHigher | test-supabase.js:70-72 | top-K for one qualifying row that is not returned against one returned row |
| Ranking.RankAllWhenFew | test-supabase.js:70-72 | when at most `count` rows qualify, all of them are returned |
| Ranking.AboveMonotone | test-supabase.js:70 | a higher threshold keeps no more rows |
| Ranking.RankThresholdMonotone | test-supabase.js:70-72 | raising the threshold never increases the number of rows returned |
| AiMemoryTable.Insert | test-supabase.js:40-46 | insert fails exactly on a wrong-width embedding, a NULL content or a repeated id; otherwise it appends one row with the generated id, the given content, `created_at` = now and metadata defaulting to `{}` |
| AiMemoryTable.InsertPreservesWellFormed | test-supabase.js:41-43 | a successful insert keeps ids unique and every embedding 1536 wide |
| AiMemoryTable.Candidates | test-supabase.js:67-70 | only rows with a non-NULL embedding are scored, each with `1 - (embedding <=> q)` |
| AiMemoryTable.CandidatesComplete | test-supabase.js:69-70 | every table row with an embedding is scored |
| AiMemoryTable.Qualifying | test-supabase.js:70 | the rows the WHERE clause keeps are no more than the table's, each strictly above the threshold |
| AiMemoryTable.ToMatches | test-supabase.js:64-68 | the SELECT list `(id, content, similarity, metadata)`, applied to each row in order |
| AiMemoryTable.MatchMemories | test-supabase.js:49-73 | the intended function fails exactly when the query is not a valid `vector` (1 to 16000 components), the limit is negative, or the limit is positive and some row has an embedding of another width than the query; a limit of 0 returns no rows |
| AiMemoryTable.MatchMemoriesAsWritten | test-supabase.js:54-68 | as written, every call fails: with the "column reference \"id\" is ambiguous" error whenever the query converts to `vector` |
| AiMemoryTable.AsWrittenFailsWhereIntendedReturnsRow | test-supabase.js:54-72 | on a table of one embedded row above the threshold, the intended function returns exactly that row while the text as written fails with the ambiguity error |
| AiMemoryTable.NoEmbeddingsNoRows | test-supabase.js:50-70 | on a table where no row has an embedding, a call with a non-negative limit and a query of any width pgvector accepts returns no rows |
| AiMemoryTable.WellFormedCallFails | test-supabase.js:43-72 | on a table that keeps its declared 1536 width, a call with a query pgvector accepts (1 to 16000 components) and a positive limit fails exactly when the query is not 1536 wide and some row has an embedding |
| AiMemoryTable.MatchAboveThreshold | test-supabase.js:70 | every returned row has similarity strictly above `match_threshold` |
| AiMemoryTable.MatchAtMostCount | test-supabase.js:72 | at most `match_count` rows are returned |
| AiMemoryTable.MatchOrdered | test-supabase.js:71 | the rows are in non-increasing similarity |
| AiMemoryTable.MatchRowsCopied | test-supabase.js:64-69 | each result copies id, content and metadata from a table row with an embedding, with similarity `1 - (embedding <=> q)` |
| AiMemoryTable.MatchTopK | test-supabase.js:70-72 | a qualifying table row whose id is not returned scores at most every returned row |
| AiMemoryTable.LeftOutRowScoresNoHigher | test-supabase.js:70-72 | top-K for one qualifying row that is not returned, against one result |
| AiMemoryTable.MatchAllWhenFew | test-supabase.js:70-72 | when at most `match_count` rows qualify, every qualifying row is returned |
| AiMemoryTable.RowReturned | test-supabase.js:70-72 | the same guarantee for one qualifying row |
| AiMemoryTable.QualifyingRowReturned | test-supabase.js:70-72 | the same guarantee for one scored candidate |
| AiMemoryTable.MatchThresholdMonotone | test-supabase.js:70-72 | for a fixed table, query and count, a higher threshold returns no more rows |
| FixMatchMemories.ToFixedMatches | fix-match-memories.js:28-32 | the SELECT list `(memory_id, content, metadata, similarity)`, applied to each row in order |
| FixMatchMemories.MatchMemoriesFixed | fix-match-memories.js:13-37 | fails exactly when the query is not a valid `vector`, the limit is negative, or the limit is positive and some row has an embedding of another width than the query; a limit of 0 returns no rows |
| FixMatchMemories.FixedAgreesWithOriginal | fix-match-memories.js:18-36 | the replacement and the intended original fail together with the same error; on success they return the same number of rows, and each row agrees (`memory_id` = `id`, same content, metadata and similarity) |
| FixMatchMemories.SelfTestAtMostFive | fix-match-memories.js:48-53 | on a table that keeps its declared 1536 width, the script's self-test (a 1536-wide random query, threshold 0.5, count 5) succeeds with at most 5 rows, each above 0.5 |
| McpServer.Save | index.js:49-58 | rejects a falsy key or value with "Both key and value are required"; otherwise the key maps to the value and every other entry is kept |
| McpServer.Recall | index.js:60-68 | rejects a falsy key with "Key is required"; returns the stored value, or "Key not found: <key>" for an absent key |
| McpServer.Delete | index.js:74-86 | rejects a falsy key; a present key is removed (reply "Deleted key: <key>") and nothing else changes; an absent key leaves the store as is (reply "Key not found: <key>") |
| McpServer.SaveThenRecall | index.js:55-67 | after a save the key recalls the saved value, and every other key recalls what it did before |
| McpServer.SaveIdempotent | index.js:55 | saving the same pair twice is the same as saving it once |
| McpServer.SaveOverwrites | index.js:55 | saving over an existing key replaces its value without adding a key |
| McpServer.DeleteThenRecall | index.js:80-85 | after a delete the key is not found, and every other key recalls what it did before |
| McpServer.DeleteUndoesSave | index.js:55-83 | deleting a key that a save has just added restores the previous store |
| McpServer.RemoveKey | index.js:81 | `delete` drops the key from the key order, keeps every other key, and keeps the order duplicate-free |
| McpServer.DeleteAsWritten | index.js:80-84 | `deleteMemory` as written: the `in` test also succeeds for names inherited from Object.prototype |
| McpServer.DeleteAsWrittenReportsInheritedName | index.js:80-84 | on an empty store, deleting "toString" is reported as "Deleted key: toString" and triggers a disk write, while the corrected `Delete` answers "Key not found: toString" |
| McpServer.DeleteAsWrittenAgreesElsewhere | index.js:80-85 | for keys that are not inherited names, the code as written and the corrected `Delete` agree |
| McpServer.Project | index.js:118-122 | one hit per row, in order, carrying exactly the row's content, similarity and metadata |
| McpServer.ProjectFixed | index.js:118-122 | the same projection over the rows of the replacement SQL definition |
| McpServer.ProjectionAgnostic | index.js:118-122 | the projection gives identical hits under either `match_memories` definition |
| McpServer.SaveAndEmbed | index.js:89-106 | a falsy content is rejected with "Content is required"; otherwise the content is embedded and inserted with metadata defaulting to `{}`, and the tool returns the saved row's id and content; an embedding or insert failure is rethrown with "Failed to save and embed memory: " |
| McpServer.SaveAndEmbedDefaultMetadata | index.js:90 | an omitted metadata behaves exactly as `{}` |
| McpServer.SearchSimilar | index.js:108-126 | a falsy query is rejected with "Query text is required"; otherwise the query is embedded and searched with `limit` defaulting to 5, and the answer is the projection of the rows found, in order; a failure is rethrown with "Failed to search similar memories: " |
| McpServer.SearchDefaultLimit | index.js:109 | an omitted limit searches with `config.defaults.maxResults` (5) |
| McpServer.SearchOverTable | index.js:114-122 | over `match_memories` on a table that keeps its declared 1536 width, a 1536-wide query embedding gives at most `limit` hits, each above the threshold, in non-increasing similarity |
| McpServer.ListAll | index.js:128-134 | the service's rows, or its error behind "Failed to list memories: " |
| McpServer.IsTool | index.js:140 | a missing tool name is never found, and a found name is one of the seven tools |
| McpServer.ToolLabel | index.js:141 | the error names the tool as given, or "undefined" when it is missing |
| McpServer.TextReply | index.js:144 | a tool's string result, or its error, passed through unchanged |
| McpServer.MemoryServer.constructor | index.js:9-30 | the server starts with the store `loaded`, its keys in file order, and nothing written yet; `loaded` is what `initializeMemoryStore` read when index.js runs as the main program, and `map[]` when it is loaded with `require` |
| McpServer.MemoryServer.SaveToDisk | index.js:33-40 | writes a snapshot of the whole store unless the file system fails, and then rethrows that error; the store is not touched |
| McpServer.MemoryServer.SaveMemory | index.js:49-58 | a rejected call changes nothing; an accepted one updates the store and appends a new key to the key order; the store is then written, and a failed write still leaves the update in memory |
| McpServer.MemoryServer.DeleteMemory | index.js:74-86 | a rejected call changes nothing; a present key is removed from the store and from the key order, then written to disk; an absent key causes no write. It follows the corrected `Delete` of "## Findings": for an inherited name such as "toString" it answers "Key not found" and writes nothing, where the source writes the store and answers "Deleted key" |
| McpServer.MemoryServer.ListMemoryKeys | index.js:70-72 | every key of the store exactly once |
| McpServer.MemoryServer.HandleRequest | index.js:137-145 | an unknown tool name fails with "Tool <name> not found" (and "Tool undefined not found" for a missing one) and changes nothing; a known name runs that tool and returns its result or error: for `saveMemory` and `deleteMemory` the same reply, store, key order and disk writes as `SaveMemory` and `DeleteMemory`, wrapped as text; the other five tools change nothing |
| McpServer.RemoveAbsentKey | index.js:80-85 | removing a key that is not listed leaves the key order unchanged |
| McpServer.DistinctKeysCount | index.js:71 | a duplicate-free listing of exactly the store's keys has one entry per key |
| GeminiService.MemoryLine | services/gemini-service.js:27 | each line is "Memory: " followed by the memory's content |
| GeminiService.MemoryContextShape | services/gemini-service.js:26-28 | for k ≥ 1 memories, the block's length is the lines' total length plus k - 1 (one newline between lines), and it starts with the first line |
| GeminiService.MemoryContextIsJoin | services/gemini-service.js:26-28 | the block equals the join built from the front: the first line, then a newline and the join of the remaining lines |
| GeminiService.MemoryContext | services/gemini-service.js:26-28 | the context block is empty exactly when no memory was retrieved |
| GeminiService.MemoryContextAppends | services/gemini-service.js:26-28 | appending one more memory to a non-empty list adds a newline and its line at the end, in retrieval order |
| GeminiService.EnhancedMessage | services/gemini-service.js:31-33 | with no memories the original message is sent; otherwise it is the message, then "\n\nRelevant context:\n", then the block |
| GeminiService.Tag | services/gemini-service.js:41-49 | a written-back memory's metadata has exactly the properties `type` and `timestamp`, in that order |
| GeminiService.WriteBack | services/gemini-service.js:41-49 | a completed exchange makes exactly two writes |
| GeminiService.Process | services/gemini-service.js:20-56 | a failed retrieval or chat call writes nothing and is rethrown with "Failed to process chat message: "; when retrieval, the reply and both saves succeed, the call returns the reply after exactly the two write-backs; a failing first save is rethrown with the prefix and nothing counts as written; a failing second save is rethrown with the prefix after the first write only |
| GeminiService.WriteBackOrder | services/gemini-service.js:41-49 | after a successful call the writes are, in order, the original message (never the enhanced one) tagged `user_message`, then the reply tagged `assistant_response` |
| GeminiService.ContextIgnored | services/gemini-service.js:20 | the `context` argument has no effect |
| GeminiService.StartChat | services/gemini-service.js:9-17 | a new session has an empty history and the configured generation settings |
| GeminiService.Gemini.constructor | services/gemini-service.js:6-18 | a fresh session, with nothing written back |
| GeminiService.Gemini.SendMessage | services/gemini-service.js:20-56 | returns and writes what `Process` says; once the model has answered, the session history gains the sent message and the reply; otherwise the session is unchanged |
| GeminiService.Gemini.ResetChat | services/gemini-service.js:58-68 | the session is replaced by one with an empty history; nothing written back changes |
| ExploreDb.Flatten | explore-db.js:126 | a key is in the flattened list exactly when some row's metadata has it |
| ExploreDb.Dedupe | explore-db.js:126 | `[...new Set(ks)]` has no duplicates and the same elements as `ks` |
| ExploreDb.FirstIndex | explore-db.js:126 | the position of a key's first occurrence |
| ExploreDb.DedupeKeepsFirstAppearanceOrder | explore-db.js:126 | the de-duplicated keys are in order of first appearance |
| ExploreDb.UniqueTypes | explore-db.js:126 | `uniqueTypes` has no duplicates and holds exactly the keys some row's metadata carries |
| ExploreDb.UniqueTypesSpec | explore-db.js:126 | `uniqueTypes` has no duplicates, holds exactly the keys some row carries, and lists them in order of first appearance across the rows |
| ExploreDb.RowsWithKey | explore-db.js:131-136 | the number of rows carrying a key is at most the number of rows, and positive exactly when some row carries it |
| ExploreDb.KeysHaveNoDup | explore-db.js:133 | `Object.keys` of a metadata object lists no key twice |
| ExploreDb.CountKeys | explore-db.js:133-135 | the inner loop adds one to the count of each of a row's keys, starting from zero, and leaves other counts alone |
| ExploreDb.TypeCounts | explore-db.js:131-136 | `typeCounts` has exactly the keys of `uniqueTypes`; each count is the number of rows carrying the key, between 1 and the number of rows |
| ExploreDb.NoKeyNoRows | explore-db.js:131-136 | a key that no row carries has a row count of zero |

## Left out

- File persistence in `index.js` is not modelled. Start-up becomes the constructor's `loaded` store. `initializeMemoryStore` runs only when index.js is the main program (index.js:164-168); a caller that loads it with `require` starts from `{}` whatever `memory.json` holds, so `loaded` is `map[]` and the first successful save or delete overwrites the file with the one-key store. `saveToDisk` becomes a log of store snapshots plus a parameter for the file-system error. JSON formatting and a missing or corrupt `memory.json` are left out.
- Keys, values, content and query text are modelled as strings (`Option<string>`); `metadata` is a JSON object and `limit` an integer, each optional. Numbers, objects or arrays passed as a key, value, content or query are not modelled. A JSON `null` `limit` is not modelled either: the `= 5` default does not replace it, and `LIMIT NULL` returns every qualifying row. A request whose `params` is undefined is not modelled either; in the source it throws a `TypeError` when destructured.
- McpServer.MemoryServer.ListMemoryKeys: keys are listed in insertion order. `Object.keys` lists array-index keys such as "0" or "42" first, in ascending numeric order. The model does not capture that.
- McpServer.Recall: the model reads only keys that were saved. In JavaScript, `memoryStore[key]` for an inherited name such as "toString" returns a function instead of "Key not found".
- McpServer.Save: JavaScript ignores an assignment of a string to `memoryStore["__proto__"]`. The model stores it like any other key.
- McpServer.MemoryServer.HandleRequest: in JavaScript, a tool name inherited from Object.prototype (such as "toString") passes the `this.tools[tool]` lookup and calls the inherited function. The model treats such names as unknown tools.
- ExploreDb.TypeCounts: in JavaScript, a metadata key named after an Object.prototype member starts from the inherited value. For a name such as "constructor" or "toString" the count becomes a string; for "__proto__" the assignment is ignored by the `__proto__` setter, so the key is missing from the output. The model counts such keys like any other.
- ExploreDb.TypeCounts: the input is the rows the metadata query returned. The server-side filter `.not('metadata', 'eq', '{}')` is not modelled.
- Floating point is not modelled. Numbers are reals, so rounding, and the NaN that pgvector's `<=>` gives for a zero vector, are outside the model. `<=>` is the parameter `dist`, so nothing is assumed about its range.
- VectorUtils.CosineSimilarity: the bound of the result to [-1, 1] (Cauchy–Schwarz) is not proved.
- VectorUtils.MockEmbedding: `Math.random()` draws are a parameter whose values are only known to lie in [0, 1). A non-integer or NaN `dimensions` is not modelled; negative lengths do clamp to 0.
- The remote calls are oracles and are not modelled: the OpenAI embeddings calls, the Gemini chat call, and the Supabase client calls (`insert`, `rpc('match_memories')`, `select … order`). The `text()` accessor of a Gemini reply is folded into the reply oracle.
- services/memory-service.js and services/supabase-service.js are not part of this model. Because of that, the chat write-back is modelled at the `memoryService.saveMemory(content, metadata)` call, and nothing is claimed about the row that call eventually stores. That wrapper passes a single object where `supabaseService.saveMemory` expects three arguments, and `searchMemories` passes a threshold that `findSimilarMemories` ignores (it always uses 0.7).
- GeminiService.Gemini.SendMessage: how the chat SDK updates its history is an assumption: the sent message and the reply are appended once the model has answered.
- AiMemoryTable.Insert: an explicit SQL NULL for `metadata`, and explicit values for `id` or `created_at`, are not modelled. The uuid generator and the clock are the parameters `freshId` and `now`.
- AiMemoryTable.MatchMemories: gives the evident meaning of the definition in `test-supabase.js`, reading `id`, `content` and `metadata` as the columns of `ai_memory`. As written, every call fails with an ambiguous column reference; `MatchMemoriesAsWritten` models that, and "## Findings" records it.
- AiMemoryTable.MatchMemories: a NULL `match_count` or `match_threshold`, the 32-bit range of `int`, and the text of the database's error messages are not modelled. Rows of equal similarity come out in one fixed order (insertion sort). None of the proved properties depends on how ties are ordered.
- The `similarity_search` RPC used by the exploration scripts is not part of this model; its definition is not in the repository.
- async/await sequencing: every operation runs to completion before the next one starts.
- Configuration loading and environment checks (config/config.js validation, check-env.js) and the print-only test scripts are not modelled.

## Findings

| source | as written | input that shows it | evidently intended | confidence | as-written member | corrected member |
|---|---|---|---|---|---|---|
| test-supabase.js:54-68 | `id`, `content` and `metadata` appear in the SELECT without a table qualifier, and each is also an output parameter of `RETURNS TABLE`; under PL/pgSQL's default `variable_conflict = error` every call fails with "column reference \"id\" is ambiguous" | `match_memories` with a 1536-wide query on a table holding one embedded row above the threshold | the ranked rows of `ai_memory`, as fix-match-memories.js:29-36 returns them by qualifying the columns with `m.` | medium; not executed | AiMemoryTable.MatchMemoriesAsWritten | AiMemoryTable.MatchMemories |
| index.js:80-84 | `key in memoryStore` is also true for names inherited from Object.prototype, so a key that was never saved is "deleted": the store is written to disk and the reply is "Deleted key: …" | `deleteMemory({ key: "toString" })` on an empty store | only keys that were saved count; the reply is "Key not found: toString" and nothing is written | medium; not executed | McpServer.DeleteAsWritten | McpServer.Delete |
