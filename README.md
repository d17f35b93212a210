# Semantic cache of the FUPRE chatbot, in Dafny

The chatbot answers a question by first looking for a reusable earlier answer
in a semantic cache, and only asks the retrieval-augmented chat completion
when none is found. This project models that decision logic and proves what
it does.

- `cache.dfy`, module `Cache` (cache.py, `CacheManager`):
  - `SemanticQuery` keeps the vector-search hits that score above 0.95, in
    search order, and returns None instead of an empty list.
  - `SemanticFilter` lower-cases the query. It keeps a hit when every
    *character* of the query occurs in the hit's lower-cased question. It
    returns the first hit with the highest score.
  - `StoreRecord` appends one record to the collection. A failed insert is
    swallowed.
  - `SemanticQuery` and `SemanticFilter` are tied to specification
    functions (`Thresholded`, `Admission`). The lemmas beside those functions
    state the meaning. `StoreRecord` states the new collection directly.
- `bot.dfy`, module `Bot` (bot.py, `RAGHandler`): `PerformRag` is the
  request flow.
  - A hit returns the stored content and citations.
  - On a miss, the chat completion is asked for a reply.
  - The reply's citations are projected to `{title, url}`.
  - The reply is stored unless it is the canned refusal. The stored embedding
    is asked for on `text + " " + reply`.
  - The reply's own citations are returned, not the projected ones.
- `scenarios.dfy`, module `Scenarios`: verified clients of `PerformRag`. They
  cover a miss that is stored, a refusal that is not, a failed embedding and
  a failed generation.
- `wrappers.dfy`, module `Wrappers`: `Option`, standing for Python's `None`.

The collaborators are function-valued parameters.
- `VectorSearch`: the `$vectorSearch` aggregation. It maps the collection and
  the optional query vector to the hits, or to None when it raises.
- `EmbeddingService`: the embeddings call. It gives the response's `data`
  list, or None when the call raises.
- `ChatService`: the chat completion. It gives the `choices` messages, or
  None when the call raises.
- The boolean `inserted`: whether `insert_one` succeeds.

Embeddings are `seq<real>` values that are only passed through.

Behaviour of the code that the model keeps as written:
- The code does not check for a missing query embedding. It hands `None` to
  the vector search, so the model passes `None` on to `VectorSearch`.
  `Scenarios.MissingEmbeddingFallsBack` shows the path where that search
  raises.
- When the second embedding call fails, the code still stores the record,
  with a `None` embedding. It does not skip storage. `CacheRecord.embedding`
  is therefore an `Option`.
- A failed insert is only printed. Nothing reports it to the caller.
- Matching is character-level, exactly as written, with no tokenisation.
- The refusal test is an exact string comparison with the f-string `wrong`,
  including its leading newline, 12-space indents and 8-space tail. A reply
  that gives the refusal sentence without exactly that whitespace is cached.

## Model

| member | source | states |
|---|---|---|
| `Cache.FilterIndices` | cache.py:67-71 | the list built by a filtering `for ... append` loop is exactly the subsequence of the input whose elements pass the test: the positions are strictly increasing, and a position is taken iff its element passes |
| `Cache.ThresholdedNoneIff` | cache.py:67-73 | `semantic_query` yields None exactly when no hit scores above 0.95 |
| `Cache.CacheManager.SemanticQuery` | cache.py:37-77 | the result is None when the search raises; otherwise it is the hits scoring above 0.95, in search order and unaltered, with an empty list turned into None; it is never `Some([])` |
| `Cache.MatchCountBound` | cache.py:93 | the per-character match count never exceeds the query length, and equals it iff every query character occurs in the text |
| `Cache.AdmittedIff` | cache.py:93-94 | `match_count >= len(query_keywords) * 1.0` holds iff every character of the lower-cased query occurs in the lower-cased question |
| `Cache.EmptyQueryRetainsAll` | cache.py:89-95 | with an empty query every candidate passes the character test |
| `Cache.FirstMaxIndex` | cache.py:99 | `max(..., key=score)` picks a position whose score is at least every other score and strictly above the score of every earlier position |
| `Cache.RetainedAreReusable` | cache.py:67-95 | thresholding and then character-filtering the hits gives, in search order, the hits above 0.95 that contain every query character |
| `Cache.AdmissionBest` | cache.py:97-99 | a returned hit is one of the search's hits, scores above 0.95 and contains every query character; no such hit scores higher; every such hit before it scores strictly lower |
| `Cache.AdmissionNoneIff` | cache.py:97-102 | `semantic_filter` returns None on a search result exactly when no hit both scores above 0.95 and contains every query character |
| `Cache.AdmissionEmptyQuery` | cache.py:84-99 | for an empty query text the result is the first best-scoring thresholded hit, or None when there is none |
| `Cache.CaseInsensitiveRepeatIsReused` | cache.py:84-99 | a hit with question "What is FUPRE" and score 0.97 is returned for the query "what is fupre" |
| `Cache.CacheManager.SemanticFilter` | cache.py:79-110 | the result is the admission of the hits for the query text (see the Admission lemmas); it is None whenever `semantic_query` yields nothing, whatever the query text |
| `Cache.CacheManager.StoreRecord` | cache.py:113-124 | on a successful insert the collection gains exactly one record with the four arguments verbatim at its end; on a failed one it is unchanged |
| `Cache.CacheManager.constructor` | cache.py:19-20 | the manager works on the collection it is connected to |
| `Bot.GenerateEmbedding` | bot.py:37-48 | the result is None iff the embeddings call raises or returns no data; otherwise it is the first returned vector |
| `Bot.ProjectCitations` | bot.py:121-127 | one citation per generated citation, in the same order and with duplicates kept, with the same title and url and no other key |
| `Bot.RAGHandler.PerformRag` | bot.py:53-148 | a hit returns its content and citations and changes nothing. A failed generation, or one with no choice, returns None and changes nothing. Otherwise the reply's content and raw citations are returned. When the reply is not exactly the refusal and the insert succeeds, exactly one record is appended: the question, the reply, title/url citations and the embedding of `text + " " + reply`. Otherwise nothing is stored. It preserves "no cached refusal" and "every embedding was asked for on question, space and answer" |
| `Bot.RAGHandler.constructor` | bot.py:35 | the handler uses the cache manager it is given |
| `Scenarios.MissIsGeneratedAndStored` | bot.py:77-144 | a question whose only hit scores 0.5 is answered by the chat completion, and the reply is cached with the embedding of question, space and reply |
| `Scenarios.RefusalIsNotCached` | bot.py:137-144 | the canned refusal is returned to the user and leaves the cache unchanged |
| `Scenarios.MissingEmbeddingFallsBack` | bot.py:72-144 | when every embedding call fails and the search rejects the missing vector, the reply is generated and stored with no embedding |
| `Scenarios.GenerationFailureFails` | bot.py:83-148 | when the chat completion raises, the request returns None and nothing is stored |

## Left out

- HTTP transport (app.py), configuration and credential loading, client construction and the database ping: these are set-up and transport, not decision logic.
- The internals of the embeddings and chat-completion calls and their data-source parameters, bot.py:39-43 and bot.py:83-118: opaque collaborators, modelled as function parameters.
- The ranking of `$vectorSearch`, its `numCandidates`/`limit` settings and its score metric, cache.py:41-65: the hits are whatever `VectorSearch` returns. The model does not assume at most 5 hits or descending order.
- Cache.LowerChar: lower-cases ASCII letters only. Python's `str.lower()` also folds other Unicode letters, and some of them to several characters.
- Exceptions other than the collaborators' own failures are not modelled: a hit or citation missing a key, a non-string question, a message without `context`, a `None` reply content (which makes `text + " " + content` at bot.py:141 raise, so the request returns None and stores nothing). The model assumes well-formed documents. A `null` title or url is modelled as a string.
- Scores are exact reals. Floating-point rounding and NaN scores are not modelled; the code only compares scores.
- Embeddings are plain values that are passed through; no vector arithmetic is modelled.
- The commented-out cosine-similarity refusal check and stopword removal: inert code.
- All `print` logging, including the message for a failed insert.
- Concurrency between requests: each call of `PerformRag` is one sequential request.
- The collaborators are modelled as deterministic functions of their inputs, so calling the embedding service twice on the same text gives the same result.
