# RAG chatbot backend core, modelled in Dafny

This project models the in-process logic of the RAG chatbot backend. The language-model, vector-database and HTTP layers sit around that logic and are not modelled. The modelled logic covers:

- **Retrieval** (`Retrieval`, from `RetrievalService`):
  - top-k selection of the corpus documents whose similarity reaches `min_score`;
  - metadata-blended rescoring, clamped to [0, 1];
  - partial reranking;
  - greedy diversity filtering;
  - metadata filtering and lookup by id;
  - result validation and score statistics.

  The similarity of the query to each document is given as a list of per-document scores. The similarity of two documents is an uninterpreted function `sim`.
- **Citations** (`Citation`, from `CitationService`):
  - source references built from retrieved documents;
  - ellipsis truncation;
  - query-aware context previews, with the term-position search loop and the snippet loop;
  - relevance labels and source previews;
  - reference validation;
  - threshold filtering, the stable descending sort, and top-k.
- **Sessions**:
  - `Sessions` has the `Message` value and the `Session` class, whose history, activity flag and `updated_at` change in place.
  - `SessionStore` has the `SessionService` class: a dictionary from session id to `Session`, with lazy expiry eviction on lookup and the two expiry sweeps. It keeps the dictionary's key order as a list, so that results listed "in dictionary order" are stated exactly.
- **Chunking** (`Chunking`):
  - `chunk_text`: overlapping fixed-size windows, cut back to just after the last ". " beyond half the window, then filtered on stripped length;
  - `DocumentChunker`;
  - `extract_metadata_from_path`.
- **Embedding pipeline** (`EmbeddingPipeline`):
  - `process_documentation_chunks`: per-file chunk dictionaries with ids and metadata;
  - `embed_document_chunks`: batches of 10. The embedder is an abstract function that may fail.
- **Validators**:
  - `ResponseModel`: the `SourceReference` score constraint and the `Response` checks;
  - `DocumentChunkModel` and `QueryModel`: the model checks;
  - `App`: the `ChatRequest` field validators and `_format_sources`.

Helper modules:

- `Wrappers`: Option, Result and a pass/fail outcome.
- `PyText`: Python's slicing, `strip`, `lower`, `find`, `rfind`, `split`, `replace` and `str(int)` on `seq<char>`.
- `Seqs`: filtering, Python's stable descending sort, distinctness and generic list lemmas.
- `Records`: dynamic metadata values with Python's `==`, and the retrieved-document dictionary.

Conventions:

- Time is an integer number of microseconds, and the current time `now` is a parameter.
- Identifiers that the source draws from `uuid4` are parameters.
- Scores are `real`.

## Model

| member | source | states |
|---|---|---|
| Retrieval.ValidIndicesMembers | backend/services/retrieval_service.py:89-90 | the qualifying indices are exactly those whose similarity is at least `min_score` (inclusive), each listed once |
| Retrieval.TopIndicesEmpty | backend/services/retrieval_service.py:89-93 | for `top_k >= 1` the selection is empty exactly when no document reaches `min_score` |
| Retrieval.TopIndicesShape | backend/services/retrieval_service.py:95-102 | the selection has `min(top_k, #qualifying)` entries, no index twice, every entry qualifies, and entries are in descending similarity |
| Retrieval.TopIndicesAreTop | backend/services/retrieval_service.py:95-102 | a qualifying index left out scores no higher than any index returned |
| Retrieval.TopIndicesAll | backend/services/retrieval_service.py:96-97 | when at most `top_k` qualify, all of them are returned |
| Retrieval.AsWrittenIsTopSet | backend/services/retrieval_service.py:98-102 | the partition branch as written still returns exactly `top_k` qualifying indices, none beaten by a qualifying index left out |
| Retrieval.AsWrittenAgreesWhenNothingDropped | backend/services/retrieval_service.py:98-102 | when `min_score` drops nothing, the code as written gives the intended selection and order |
| Retrieval.AsWrittenOutOfOrder | backend/services/retrieval_service.py:102 | similarities [0.0, 0.5, 0.9, 0.8], `top_k` 2 and `min_score` 0.1 give indices [3, 2] as written, against [2, 3] intended |
| Retrieval.PartitionTopIsTop | backend/services/retrieval_service.py:100 | `argpartition(..., -top_k)[-top_k:]`: exactly `top_k` positions, none beaten by a position left out |
| Retrieval.RetrievalService.FindSimilarDocuments | backend/services/retrieval_service.py:56-111 | one copy of each selected corpus document, in the intended order of descending similarity (not the order line 102 gives, see Findings), with `score` set to its similarity; an empty corpus gives `[]` |
| Retrieval.RetrievalService.GetDocumentById | backend/services/retrieval_service.py:143-156 | None exactly when no document has that id; otherwise the first document with it |
| Retrieval.RetrievalService.FilterByMetadata | backend/services/retrieval_service.py:158-177 | the documents, in order, whose `metadata.get(key)` equals the value of every filter pair under Python's `==` |
| Retrieval.FilterByMetadataMeaning | backend/services/retrieval_service.py:168-177 | a document is kept exactly when it matches every pair; an empty filter keeps everything; a missing key matches only the value None |
| Retrieval.ValidateRetrievalResults | backend/services/retrieval_service.py:179-201 | true exactly for a non-empty list whose scores (a missing score read as 0.0) all lie in [0, 1] |
| Retrieval.Clamp | backend/services/retrieval_service.py:233 | `max(0, min(1, x))`: in [0, 1], the identity on [0, 1], 0 below and 1 above |
| Retrieval.RelevanceScore | backend/services/retrieval_service.py:216-233 | always in [0, 1]; the clamped base score without `quality_score`, else the clamped `0.7*base + 0.3*quality`; a non-numeric quality is an error |
| Retrieval.RerankSplit | backend/services/retrieval_service.py:252-273 | the reranked prefix followed by the untouched tail is the whole input |
| Retrieval.Rescored | backend/services/retrieval_service.py:255-266 | one rescored copy per document, in order, unless some rescoring fails |
| Retrieval.RerankDocuments | backend/services/retrieval_service.py:235-276 | empty input comes back as is; otherwise the rescored prefix sorted by descending score, then the rest unchanged |
| Retrieval.RerankMeaning | backend/services/retrieval_service.py:248-276 | the length is preserved; the tail is `documents[k:]` unchanged and not re-sorted; the prefix is a stable descending permutation of the rescored documents with scores in [0, 1]; a falsy `rerank_top_k` rescores everything |
| Retrieval.RelevanceStatisticsBounds | backend/services/retrieval_service.py:288-322 | all zeros for no documents; otherwise `min <= median <= max`, `min <= mean <= max` and `score_range == max - min >= 0` |
| Retrieval.RelevanceStatisticsExtremes | backend/services/retrieval_service.py:298-303 | the minimum and the maximum are scores of listed documents, and every score lies between them |
| Retrieval.SortAscSorted | backend/services/retrieval_service.py:299 | `scores.sort()` yields an ascending permutation |
| Retrieval.Kept | backend/services/retrieval_service.py:340-352 | the kept positions always include 0 first, are increasing and lie in the input |
| Retrieval.KeptIff | backend/services/retrieval_service.py:342-352 | a later document is kept exactly when every earlier kept document is at most `threshold` similar to it |
| Retrieval.ApplyDiversityFilter | backend/services/retrieval_service.py:325-357 | lists of length at most 1 come back unchanged; otherwise the documents at the kept positions, in order |
| Retrieval.DiverseFromSelected | backend/services/retrieval_service.py:344-349 | the flag loop: diverse exactly when no selected document is more than `threshold` similar |
| Citation.Truncate | backend/services/citation_service.py:42-55 | unchanged when it fits; otherwise the first `max_length` characters and "...", exactly `max_length + 3` long |
| Citation.PathOf | backend/services/citation_service.py:35 | "Unknown" for a missing `relative_path`, else its value as a string |
| Citation.ReferenceOf | backend/services/citation_service.py:33-38 | the reference for one document: `id` (default "unknown"), path, score (default 0.0), and the content truncated to 200; fails on a score outside [0, 1] |
| Citation.CreateSourceReferences | backend/services/citation_service.py:21-40 | one reference per document, in order; fails exactly when some document's reference cannot be constructed |
| Citation.HitPositionsMeaning | backend/services/citation_service.py:78-93 | the hit positions are ascending and are exactly the indices where some query word occurs |
| Citation.HitPositionsEmpty | backend/services/citation_service.py:88 | no hit positions exactly when no query word occurs |
| Citation.FindTermPositions | backend/services/citation_service.py:78-86 | the search loop finds every index where a query word occurs, and only those |
| Citation.SortedSet | backend/services/citation_service.py:93 | `sorted(set(xs))` is increasing with the same members |
| Citation.WindowMeaning | backend/services/citation_service.py:103-108 | the window lies in the content, contains the position, is `min(snippet_size, len)` long, and is shifted left only at the end of the content |
| Citation.SnippetAt | backend/services/citation_service.py:110-111 | a stripped snippet is at most `snippet_size` long |
| Citation.SnippetsExtend | backend/services/citation_service.py:97-116 | the snippet loop only adds snippets, and at most two in all |
| Citation.SnippetsBounded | backend/services/citation_service.py:97-116 | every collected snippet is at most `snippet_size` long |
| Citation.CollectSnippets | backend/services/citation_service.py:94-116 | the snippet loop computes the snippet specification |
| Citation.PreviewFallback | backend/services/citation_service.py:69-90 | without a query, or with no query word in the content, the preview is the content truncated to `snippet_size` |
| Citation.PreviewFromSnippets | backend/services/citation_service.py:118-122 | with a hit, the preview is the snippets joined by " ... ", truncated to `2*snippet_size` when longer |
| Citation.PreviewBound | backend/services/citation_service.py:118-124 | the preview is at most `2*snippet_size + 3` long |
| Citation.PreviewExceedsTwiceSnippet | backend/services/citation_service.py:118-122 | content "aa", query "a" and snippet size 1 give "a ...", longer than `2*snippet_size` |
| Citation.CreateContextPreview | backend/services/citation_service.py:57-124 | the method computes the preview specification |
| Citation.RelevanceIndicator | backend/services/citation_service.py:148-167 | the five labels, each exactly for its score band (>= 0.8, >= 0.6, >= 0.4, >= 0.2, below) |
| Citation.RelevanceIndicatorMonotone | backend/services/citation_service.py:158-167 | a higher score never gets a lower label |
| Citation.CreateSourcePreview | backend/services/citation_service.py:126-146 | the full content when given and non-empty, else the stored preview; its length; the label of the score; fields copied |
| Citation.FormatCitationText | backend/services/citation_service.py:179 | "[path] (Relevance: " followed by the formatted score and ")", with nothing between or around them (the length is the sum of the parts) |
| Citation.FormatMultipleCitations | backend/services/citation_service.py:181-191 | one citation text per source, in order |
| Citation.ValidateSourceReferences | backend/services/citation_service.py:193-222 | true exactly for a non-empty list whose every score is in [0, 1] and whose ids and paths are non-empty |
| Citation.FilterByRelevanceThreshold | backend/services/citation_service.py:224-243 | the append loop keeps the sources whose score reaches `min_score`, in order |
| Citation.FilterByRelevanceThresholdMeaning | backend/services/citation_service.py:235-238 | a source is kept exactly when its score reaches `min_score`; the result keeps the input order |
| Citation.SortSourcesByRelevance | backend/services/citation_service.py:245-255 | a permutation of the sources |
| Citation.SortSourcesMeaning | backend/services/citation_service.py:255 | descending by score, and stable: equal scores stay in input order |
| Citation.GetTopKSourcesMeaning | backend/services/citation_service.py:257-269 | for `k >= 0`, the first `min(k, n)` of the sorted sources; no source left out scores higher than one taken |
| ResponseModel.NewSourceReference | backend/models/response.py:10-17 | construction succeeds exactly for a score in [0, 1], with the given fields |
| ResponseModel.ValidateContent | backend/models/response.py:39-44 | fails exactly for empty or whitespace-only content |
| ResponseModel.ValidateSources | backend/models/response.py:46-55 | fails exactly for a non-error response without sources, or for a score outside [0, 1]; an error response may have none |
| ResponseModel.ScoresInRange | backend/models/response.py:53-55 | passes exactly when every score is in [0, 1] |
| ResponseModel.ConstructedPassScoreCheck | backend/models/response.py:16-55 | constructed references always pass the score check, so `validate_sources` reduces to non-emptiness |
| Sessions.ValidateRole | backend/models/session.py:23-28 | passes exactly for "user" and "assistant" |
| Sessions.Session.constructor | backend/models/session.py:35-53 | a new session has no messages, is active, and was created and updated at `now` |
| Sessions.Session.AddMessage | backend/models/session.py:58-77 | appends exactly one message with the given role, content and metadata (`{}` for none), sets `updated_at`, and leaves the activity flag alone |
| Sessions.Session.GetMessages | backend/models/session.py:79-91 | a suffix of the history: all for no limit, the last `limit` for 1..len, all for a larger limit or for 0 |
| Sessions.Session.GetLastMessage | backend/models/session.py:93-102 | None exactly for an empty history, else the last message |
| Sessions.Session.ClearMessages | backend/models/session.py:104-109 | the history becomes empty and `updated_at` is `now` |
| Sessions.Session.GetMessageCount | backend/models/session.py:111-118 | the number of messages |
| Sessions.Session.UpdateLastActivity | backend/models/session.py:120-124 | only `updated_at` changes, to `now` |
| Sessions.ExpiryMonotone | backend/models/session.py:126-131 | an expired session stays expired later, and under any shorter limit |
| SessionStore.SessionService.constructor | backend/services/session_service.py:19-21 | an empty store |
| SessionStore.SessionService.Store | backend/services/session_service.py:74 | storing under the session's id; a new key goes to the end of the key order |
| SessionStore.SessionService.Remove | backend/services/session_service.py:88 | deleting one key and nothing else |
| SessionStore.SessionService.CreateSession | backend/services/session_service.py:23-42 | a fresh session with no messages, active, with the given user and metadata (`{}` for none), stored under the drawn id |
| SessionStore.SessionService.GetSession | backend/services/session_service.py:44-61 | the stored session exactly when it is there and unexpired, with the store unchanged; otherwise None, and the id is evicted |
| SessionStore.SessionService.UpdateSession | backend/services/session_service.py:63-75 | `updated_at` becomes `now` and the session is stored under its id |
| SessionStore.SessionService.DeleteSession | backend/services/session_service.py:77-91 | true exactly when the id was stored, expired or not; afterwards it is gone and nothing else changed |
| SessionStore.SessionService.AddMessageToSession | backend/services/session_service.py:93-115 | for a live session, its history grows by one message at the end and it is refreshed; otherwise None with the id evicted |
| SessionStore.SessionService.GetSessionMessages | backend/services/session_service.py:117-131 | `get_messages(limit)` of a live session, else None with the id evicted |
| SessionStore.SessionService.ClearSessionMessages | backend/services/session_service.py:133-149 | true and an empty history for a live session, else false with the id evicted |
| SessionStore.SessionService.EndSession | backend/services/session_service.py:213-229 | a live session becomes inactive, is refreshed and stays stored; otherwise false with the id evicted |
| SessionStore.SessionService.GetSessionSummary | backend/services/session_service.py:231-253 | the summary of a live session (its fields and message count) with the store and its order unchanged, else None with the id evicted and the remaining order kept |
| SessionStore.SessionService.CollectExpired | backend/services/session_service.py:181-185 | the ids of the expired sessions in dictionary order, and the number of unexpired ones |
| SessionStore.SessionService.RemoveAll | backend/services/session_service.py:187-189 | every listed id is deleted and no other |
| SessionStore.SessionService.GetActiveSessionsCount | backend/services/session_service.py:151-172 | every expired session is removed, the others stay, and the count is the number left (ended ones included) |
| SessionStore.SessionService.CleanupExpiredSessions | backend/services/session_service.py:174-191 | every expired session is removed, the others stay, and the result is the number removed |
| SessionStore.SessionService.ExpiredListed | backend/services/session_service.py:181-185 | the expired ids listed are exactly the expired keys, each once |
| SessionStore.SessionService.GetUserSessions | backend/services/session_service.py:193-211 | the user's unexpired sessions in dictionary order, with nothing evicted |
| SessionStore.SessionService.UserSessionsMembers | backend/services/session_service.py:204-210 | a session is listed exactly when it is stored, belongs to the user and is unexpired |
| Chunking.WindowAdvances | backend/embeddings/chunking.py:51 | under the termination condition, every window that does not reach the end moves the start forward |
| Chunking.WindowStalls | backend/embeddings/chunking.py:44-51 | with `chunk_size` 10 and `overlap` 8, a window cut after the ". " at offset 6 ends at 8, so `end - overlap` is again the start 0 |
| Chunking.DefaultsTerminate | backend/embeddings/chunking.py:21 | the defaults 500 and 50 meet the termination condition |
| Chunking.ChunkText | backend/embeddings/chunking.py:21-55 | the method computes the chunk specification |
| Chunking.WindowTexts | backend/embeddings/chunking.py:36-51 | the `while` loop yields the text of every window in order |
| Chunking.NextWindow | backend/embeddings/chunking.py:40-48 | one window: `chunk_size` characters, cut just after the last ". " when it lies beyond `chunk_size // 2` and the window does not reach the end |
| Chunking.WindowWithinSize | backend/embeddings/chunking.py:40-48 | a window is never longer than a non-negative chunk size |
| Chunking.WindowSnap | backend/embeddings/chunking.py:44-48 | a shortened window ends just after a ". " beyond half the chunk size |
| Chunking.ChunksShape | backend/embeddings/chunking.py:33-55 | a text that fits is `[text]`; every chunk is a contiguous slice of at most `chunk_size`; otherwise every chunk has more than 20 non-blank characters |
| Chunking.TextSpansShape | backend/embeddings/chunking.py:37-51 | the windows start at 0, follow each other by `end - overlap`, and with a non-negative overlap every character is covered |
| Chunking.LastWindowIsSuffix | backend/embeddings/chunking.py:51 | with a non-negative overlap the last window runs to the end of the text |
| Chunking.DocumentChunker.EffectiveSize | backend/embeddings/chunking.py:17 | `max_length` when truthy, else the configured size |
| Chunking.DocumentChunker.Chunk | backend/embeddings/chunking.py:15-18 | `chunk_text` with the effective size and the configured overlap |
| Chunking.DefaultChunker | backend/embeddings/chunking.py:11-13 | chunk size 500 and overlap 50 |
| Chunking.Basename | backend/embeddings/chunking.py:96 | a suffix of the path with no separator in it, the whole path when it has none |
| Chunking.Title | backend/embeddings/chunking.py:96-98 | the basename, less its last three characters when it ends in ".md" or ".txt" |
| Chunking.TitleExamples | backend/embeddings/chunking.py:97-98 | "a.txt" gives "a." and "a.md" gives "a" |
| Chunking.FirstModulePart | backend/embeddings/chunking.py:104-107 | the first part whose lower case contains "module", if any |
| Chunking.FindSection | backend/embeddings/chunking.py:101-107 | the search loop with its `break` computes the section |
| Chunking.SectionMeaning | backend/embeddings/chunking.py:101-107 | the first module part for paths of at least two parts, otherwise "unknown" |
| Chunking.ExtractMetadataFromPath | backend/embeddings/chunking.py:80-113 | exactly the keys `relative_path` (the input), `title` and `section` |
| EmbeddingPipeline.ChunkDoc | backend/embeddings/embedding_pipeline.py:106-114 | `id` is `f"{relative_path}_chunk_{i}"`, with the chunk text, and the metadata plus `chunk_index` and `total_chunks` |
| EmbeddingPipeline.ProcessDocumentationChunks | backend/embeddings/embedding_pipeline.py:82-118 | the nested loops compute the chunk-dictionary specification, a missing `relative_path` included |
| EmbeddingPipeline.AssembledFails | backend/embeddings/embedding_pipeline.py:105-107 | an error exactly when some file has chunks but no `relative_path`, and the error is that `KeyError` |
| EmbeddingPipeline.AssembledContents | backend/embeddings/embedding_pipeline.py:98-115 | the chunk texts of the result are the file-order concatenation of each file's chunks |
| EmbeddingPipeline.ProcessedMeaning | backend/embeddings/embedding_pipeline.py:98-115 | raises exactly when some document with chunks lacks `relative_path`; otherwise the texts are `chunk_text` of each document, in document order |
| EmbeddingPipeline.FileChunksMeaning | backend/embeddings/embedding_pipeline.py:103-114 | per chunk `i` of `n`: its id, its text, the metadata with `chunk_index = i` and `total_chunks = n` and nothing else changed; ids of one file all differ |
| EmbeddingPipeline.BatchOutput | backend/embeddings/embedding_pipeline.py:146-161 | a failed batch adds nothing; otherwise the chunks of the batch before the first missing vector, each with its vector |
| EmbeddingPipeline.EmbedDocumentChunks | backend/embeddings/embedding_pipeline.py:121-164 | the batch loop with its `try`/`continue` computes the batch-by-batch specification |
| EmbeddingPipeline.EmbeddedMeaning | backend/embeddings/embedding_pipeline.py:142-161 | the output is, in input order, exactly the chunks whose batch succeeded with a vector at their batch position; never longer than the input |
| EmbeddingPipeline.EmbeddedComplete | backend/embeddings/embedding_pipeline.py:150-154 | when every batch succeeds with enough vectors, every chunk comes out in order with its own vector |
| EmbeddingPipeline.WithVector | backend/embeddings/embedding_pipeline.py:152-153 | an output item is its input chunk with only `embedding` set |
| DocumentChunkModel.NewDocumentChunk | backend/models/document_chunk.py:13-26 | defaults: empty metadata and no embedding |
| DocumentChunkModel.ValidateContent | backend/models/document_chunk.py:32-37 | fails exactly for empty or whitespace-only content |
| DocumentChunkModel.ValidateEmbedding | backend/models/document_chunk.py:39-45 | passes exactly for no embedding, an empty one, or one of 1024 dimensions |
| DocumentChunkModel.ValidateMetadata | backend/models/document_chunk.py:47-52 | passes exactly when `relative_path` is a metadata key |
| DocumentChunkModel.DefaultChunkValidation | backend/models/document_chunk.py:15-52 | a chunk with default fields fails `validate_metadata`, passes `validate_embedding`, and passes `validate_content` exactly when its content is not blank |
| QueryModel.ValidateContent | backend/models/query.py:27-38 | accepts exactly non-blank content of at most 1000 characters (1000 included) and returns it unchanged; blank is reported first |
| QueryModel.ValidateTimestamp | backend/models/query.py:40-47 | accepts exactly a timestamp not later than `now`, unchanged |
| QueryModel.NewQuery | backend/models/query.py:13-47 | a query exists exactly when its content validates and a given timestamp validates; a missing timestamp defaults to `now` |
| App.ValidateMessage | backend/app.py:119-129 | accepts exactly non-blank messages of at most 2000 characters, measured before sanitising, and returns them sanitised |
| App.SanitizeMeaning | backend/app.py:128 | no "<script" and no "javascript:" survives sanitising, and text without either is unchanged |
| App.EscapeCannotCreateTag | backend/app.py:128 | inserting "&lt;script" cannot create a new "<script" |
| App.DefuseCannotCreateTag | backend/app.py:128 | inserting "javascript-" cannot create a new "<script" |
| App.DefuseCannotCreateScheme | backend/app.py:128 | inserting "javascript-" cannot create a new "javascript:" |
| App.SanitizedMayExceedLimit | backend/app.py:124-128 | 285 copies of "<script" (1995 characters) are accepted and come back 2850 characters long |
| App.ValidateIdAsWritten | backend/app.py:131-141 | as written: None passes; otherwise `re.match` with `$` also admits one trailing newline, then the length limit of 100 applies |
| App.AsWrittenAcceptsNewline | backend/app.py:137 | "session-1\n" passes the id check as written |
| App.ValidateId | backend/app.py:131-141 | None passes; otherwise exactly the non-empty ids of letters, digits, `_` and `-` of at most 100 characters, unchanged |
| App.ValidateIdDifference | backend/app.py:137 | every id the intended check accepts is accepted as written; the two differ only on a trailing newline |
| App.ValidateTopK | backend/app.py:143-148 | accepts exactly 1 to 20, unchanged |
| App.NewChatRequest | backend/app.py:109-148 | with the corrected id check: a request exists exactly when every field validates, with the message sanitised and the rest unchanged |
| App.AcceptedRequestIsSafe | backend/app.py:119-148 | with the corrected id check: an accepted request holds no "<script" or "javascript:", has ids of the allowed characters only, and `top_k` in 1..20 |
| App.NewChatRequestAsWritten | backend/app.py:109-148 | as written: a request exists exactly when the message, both ids (each checked by `re.match`) and `top_k` validate, with the message sanitised and the rest unchanged |
| App.AcceptedAsWrittenIds | backend/app.py:131-141 | a request the code accepts has ids of at most 100 characters, all allowed characters save at most one final newline, and a message free of "<script" and "javascript:" |
| App.RequestsDiffer | backend/app.py:137 | every request the corrected check accepts the code accepts with the same value; the code accepts more only through an id ending in a newline |
| App.AsWrittenRequestAcceptsNewline | backend/app.py:137 | with a valid message and `top_k`, the session id "session-1\n" is accepted as written and refused as "Invalid ID format" by the corrected check |
| App.CopySources | backend/app.py:180-189 | a field-for-field copy of every source, in order |
| App.FormatSources | backend/app.py:173-203 | non-empty agent sources are copied in order; otherwise the citation references of the context documents, copied in order, failing exactly when one cannot be built |
| Records.PyEqEquivalence | backend/services/retrieval_service.py:172 | Python's `==` on metadata values is an equivalence that contains equality |
| Records.PyEqNone | backend/services/retrieval_service.py:172 | a missing key, read as None, equals only None |
| PyText.BlankIffAllSpace | backend/app.py:122 | `len(v.strip()) == 0` exactly when every character is whitespace |
| PyText.ReplaceLeavesNo | backend/app.py:128 | after `replace`, no occurrence of the pattern remains when the replacement cannot create one |
| PyText.DecimalInjective | backend/embeddings/embedding_pipeline.py:107 | different chunk indices print differently |
| Seqs.SortDescSorted | backend/services/citation_service.py:255 | Python's `sorted(..., reverse=True)` orders by descending key |
| Seqs.SortDescStable | backend/services/citation_service.py:255 | the sort keeps the input order among equal keys |

## Left out

- Vector arithmetic is not modelled: cosine similarity, the numpy norms, dot products and the 1e-10 guard in `find_similar_documents`, and the standard deviation in `get_relevance_statistics`. It is floating point with square roots, so similarities come in as per-document scores and document-to-document similarity as an uninterpreted function. For the same reason `Retrieval.RelevanceStatistics` has no standard-deviation field.
- Scores are exact reals, not IEEE doubles, so rounding is not modelled.
- The tie order of numpy's `argsort` and `argpartition` is unspecified. The model breaks ties stably, in index order.
- `Citation.FormatCitationText`: the two-decimal rendering of the score, `:.2f`, is a function parameter, because float formatting is not modelled.
- Loading and saving are file and database I/O and are left out: `RetrievalService.load_embeddings`, `load_documentation_files`, `save_embeddings_to_db`, `run_embedding_pipeline` and `_check_and_create_table`. The corpus is a constructor argument.
- `retrieve_by_content_similarity` only calls the external embedding service, logs, and then calls `find_similar_documents`. Only `find_similar_documents` is modelled.
- `embed_texts` is modelled as an abstract function that may fail. Any exception becomes an error value for that batch.
- `preprocess_text` is left out: its Unicode regular-expression classes cannot be stated on plain characters.
- `lower()` is modelled for ASCII letters only.
- `Session.to_dict`, `Message` id and timestamp defaults, and `uuid4` are not modelled. `uuid4` and `datetime.now` become parameters, and the model assumes nothing about id freshness. Python would overwrite a colliding id, and so does the model.
- Logging is left out.
- There is no concurrency: the session dictionary is unsynchronised, and nothing in the core runs concurrently.
- `EmbeddingPipeline.ProcessDocumentationChunks` requires that no `relative_path` is a float, because Python's `str(float)` rendering is not modelled. Strings, ints, booleans and None are printed as Python does.
- `App.NewChatRequest` does not model pydantic's aggregation of several field errors into one `ValidationError`. It reports the first failing field, in declaration order.
- `App.NewChatRequest` does not strip whitespace. `anystr_strip_whitespace` in the `Config` class is a pydantic v1 option, and pydantic v2, which the `field_validator` decorators require, ignores it. So the validators see the message unstripped.
- `App.NewChatRequest` does not validate the `top_k` default of 5: pydantic does not validate defaults. A missing `top_k` is modelled by passing 5.
- `Retrieval.RetrievalService.FindSimilarDocuments` returns the documents in the intended order of descending similarity, not in the order line 102 of retrieval_service.py gives when the threshold drops a document. `Retrieval.TopIndicesAsWritten` models that order; `Retrieval.AsWrittenIsTopSet` proves it selects the same kind of set; `Retrieval.AsWrittenAgreesWhenNothingDropped` proves the two orders agree when the threshold drops nothing.
- `App.NewChatRequest` and `App.AcceptedRequestIsSafe` use the corrected id check, so they refuse an id with one final newline that line 137 of app.py accepts. `App.NewChatRequestAsWritten` models the request as the code builds it, and `App.RequestsDiffer` relates the two.
- `Chunking.ChunkText` requires `Chunking.Terminates`. The source loops forever when a window is cut at a sentence end and `overlap` is at least the cut length, for example `chunk_size` 10 with `overlap` 8 (`Chunking.WindowStalls`); a non-terminating call is not modelled.
- `Chunking.Basename` and `Chunking.ExtractMetadataFromPath` take the separator to be the POSIX '/'. The Windows `os.sep` and `os.path` rules are not modelled.
- `QueryModel.NewQuery` does not validate a defaulted timestamp, because pydantic does not validate defaults. It reads the clock once, as `now`.
- The HTTP endpoints, the middleware and `ChatResponse` assembly are not part of this model.

## Findings

| source | as written | input that shows it | evidently intended | confidence | as-written member | corrected member |
|---|---|---|---|---|---|---|
| backend/services/retrieval_service.py:102 | `similarities[top_k_indices]` indexes the full similarity array with positions into the filtered sub-array, so the final sort orders the top-k by the wrong documents' scores | similarities [0.0, 0.5, 0.9, 0.8], `top_k` 2, `min_score` 0.1 give indices [3, 2] (scores 0.8, 0.9) | the top-k sorted by their own similarities, descending: [2, 3] | not executed | Retrieval.AsWrittenOutOfOrder | Retrieval.TopIndicesShape |
| backend/app.py:137 | `re.match(r'^[a-zA-Z0-9_-]+$', v)` lets `$` match before a final newline, so an id ending in "\n" passes | "session-1\n" is accepted | only letters, digits, `_` and `-` (a full match) | not executed | App.AsWrittenAcceptsNewline | App.ValidateId |
