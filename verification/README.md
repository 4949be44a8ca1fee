# Verified model of the retrieval service

This project models the stateful and arithmetic core of the retrieval service in Dafny and proves
what that core promises. Each module follows one component:

| files | component |
|---|---|
| `Text`, `TextLaws`, `Documents`, `Chunking` | text normalisation and the section-aware chunker |
| `Lines`, `Cleaning`, `CleaningLaws` | the document cleaner |
| `Retrieval`, `Sorting`, `Fusion`, `FusionLaws`, `ContributionLaws`, `Ranking`, `QdrantFilters` | candidate fusion, entity boosts, the end of a hybrid search, scope filters |
| `Tier1Cache`, `CacheRuns` | the in-memory retrieval cache, one call at a time and over whole runs |
| `PointStore`, `Separators` | point identities and the vector store |
| `CacheKeys`, `CachedSearch` | search keys, and cached search over a changing store |
| `IngestProtocol`, `IngestJobs` | submission, queue, workers, statuses and shutdown |
| `Limiter`, `Versions` | the admission limiter and the version manager |

Code that the repository writes as expressions is written as functions; loops and objects that are
changed in place are methods and classes, each tied by its `ensures` to a specification function,
about which the lemmas then speak. Whole runs (of the cache, the search, the ingest protocol and the
version manager) are sequences of steps, and their theorems hold for every sequence.

Scores, times and ratios are exact reals. Embeddings, sparse encodings, the answer of the retrievers,
hash values and Unicode categories are parameters or are taken to be free of collisions. Clocks,
random ids and configuration are parameters.

Some properties hold only under a condition. The exact condition is proved, and what happens without it:

- Point ids tell chunks apart if and only if at most one of the identity's text components may hold the
  separator `|` (`PointStore.IdentitiesAreInjectiveIff`); any two that may can collide
  (`PointStore.AnyTwoCollide`), also inside one collection, where ingesting one chunk destroys the other
  (`PointStore.CollisionDestroys`).
- Two searches of a project can share a cache key, for some queries, if and only if their users and the
  parts of the key behind the query clash: they are the same, or one of them continues the other across a
  separator (`CacheKeys.SharedKeyIffClash`). Equal keys always mean the same query, version and scope if
  and only if the searches are compatible (`CacheKeys.KeysAreFaithfulIff`). A user id that holds the
  separator (`CacheKeys.UserSeparatorSharesKey`, `CachedSearch.UserSeparatorWitness`) and a knowledge base
  id that holds a comma (`CacheKeys.CommaSharesKey`) can break this. Cached search is exact for every set
  of pairwise compatible searches; separators in ids are not excluded as such.
- After a delete whose object-storage step raises, a cached answer is exact if and only if ranking the
  points of before gives the same as ranking those left (`CachedSearch.FailedDeleteGoesStale`). An answer
  that lists a chunk of the deleted document is always stale; where unlisted points have no part in an
  answer, as when one ranking is cut to its best `top_k`, only such an answer is
  (`CachedSearch.FailedDeleteIsExactIff`, `CachedSearch.FailedDeleteAfterCut`, `CachedSearch.FailedDeleteWitness`).
- Ingest normalises the knowledge base id and deletion does not: deleting with a given id reaches the chunks
  that were ingested with it if and only if the id is its own normal form (`PointStore.RawDeletion`,
  `PointStore.RawDeleteThenIngest`).
- Re-chunking a produced chunk is the identity if and only if the chunk is no fallback or the fallback text
  is the join of its own paragraphs, nonempty and within the limit (`Chunking.RechunkingIsIdentity`,
  `Chunking.FallbackIsNotAlwaysKept`).
- A better rank never worsens the place of a key if the smaller denominator helps, and never improves it if
  not (`FusionLaws.BetterRankNeverHurts`). The condition is exact: for any weight and ranks where it does not
  help, a key that ties with another one falls behind it (`FusionLaws.BetterRankCanHurt`).
- In weighted fusion a better score never worsens the place of a key if no other hit of its set has the key
  and the set's weights are nonnegative (`ContributionLaws.BetterScoreNeverHurts`). With several hits of the
  key it can: raising the worst one takes away the distance to the others (`ContributionLaws.BetterScoreCanHurt`).
- The configured version stays the active one exactly if no operation re-creates it without activating
  it or activates a blank name (`Versions.StaysConsistentIff`, `Versions.RecreatedVersionIsDeleted`).

## Model

| member | source | states |
|---|---|---|
| Text.NormalizeIsNormal | ingestion_service/normalization/text.py:8-12 | A normalised text has no carriage return or tab, no two adjacent spaces, no three adjacent newlines and no white space at its ends, and the same visible characters in the same order. |
| Text.NormalIffFixed | ingestion_service/normalization/text.py:8-12 | The texts that normalisation leaves alone are exactly the normal ones. |
| Text.NormalizeIdempotent | ingestion_service/normalization/text.py:8-12 | Normalising twice is normalising once. |
| Text.SplitParagraphsLemma | ingestion_service/normalization/text.py:15-16 | Every paragraph is nonempty, normal and without a blank line, and together they hold all visible characters of the text. |
| Text.SplitOfJoin | ingestion_service/normalization/text.py:15-16 | Splitting the blank-line join of any list of paragraphs gives back that list. |
| Text.SplitJoinRoundTrip | ingestion_service/normalization/text.py:15-16 | For every text, re-splitting the join of its paragraphs gives the same paragraphs. |
| Text.StripSlice | ingestion_service/normalization/text.py:12 | Stripping takes a slice without white space at its ends and keeps all visible characters. |
| TextLaws.LineEndIsNewline | ingestion_service/normalization/text.py:9 | A carriage return, a newline or both in a row, wherever they stand, count as one newline, for normalising and for splitting. |
| TextLaws.LineEndsDoNotMatter | ingestion_service/normalization/text.py:8-16 | Writing all newlines of a text in another way changes neither its normal form nor its paragraphs; a normal text comes back with its line boundaries. |
| TextLaws.ParagraphsSurviveLineEnds | ingestion_service/normalization/text.py:8-16 | Paragraphs joined by blank lines are split apart again, whichever line ends the text uses. |
| TextLaws.BlankRunIsSpace | ingestion_service/normalization/text.py:10 | A run of spaces and tabs, wherever it stands, counts as one space. |
| TextLaws.NewlineRunIsTwo | ingestion_service/normalization/text.py:11 | A run of two or more newlines, wherever it stands, counts as two. |
| TextLaws.BlankLineSeparates | ingestion_service/normalization/text.py:15-16 | The paragraphs of a text around a blank line are those before it and those behind it. |
| TextLaws.OneParagraph | ingestion_service/normalization/text.py:15-16 | A text whose normal form has no blank line is that one paragraph, or none if it is blank. |
| TextLaws.SpacesAre | ingestion_service/normalization/text.py:12 | The characters that count as white space, one by one. |
| Chunking.CutParagraph | ingestion_service/chunking/section.py:92-95 | The cutting loop yields exactly the stripped windows of `max_chars` characters that tile the paragraph. |
| Chunking.SplitLargeText | ingestion_service/chunking/section.py:86-96 | The loop over the paragraphs returns exactly the nonblank windows of the paragraphs, in order: window k of a paragraph p is p[k*max..min((k+1)*max, len(p))], stripped. |
| Chunking.PiecesAreWindows | ingestion_service/chunking/section.py:86-96 | The same of the pieces that the chunker's specification is stated over. |
| Chunking.SolidTextIsCutEvenly | ingestion_service/chunking/section.py:92-95 | A text without white space is cut into pieces of exactly `max_chars` characters but for the last, which in a row are the text. |
| Chunking.PiecesLemma | ingestion_service/chunking/section.py:86-96 | Every piece is a paragraph of at most `max_chars` characters, and the pieces hold the visible characters of the text in order. |
| Documents.CoercedDecimal | ingestion_service/chunking/section.py:198-205 | A page number written as a string is read back, whatever white space surrounds it. |
| Documents.OnlyNumbersCoerce | ingestion_service/chunking/section.py:198-205 | A number is a page number as it is, a truth value never, and a string only if it is all digits but for white space. |
| Chunking.SectionPageRangeLemma | ingestion_service/chunking/section.py:183-195 | A numbered section has its page as range; else `start_page` and `end_page`, each standing in for the other; else the lone `page_number`, if any; the range is out of order only if the metadata gives it so. |
| Chunking.UnitLemma | ingestion_service/chunking/section.py:72-81 | A unit holds its piece and section id, starts on the first page of the section's range and ends on the last. |
| Chunking.UnitAt | ingestion_service/chunking/section.py:64-83 | Behind the units of the sections before it, unit k of section s is made of piece k of its text. |
| Chunking.UnitCount | ingestion_service/chunking/section.py:64-83 | Section s has as many units as its text has pieces. |
| Chunking.SectionUnits | ingestion_service/chunking/section.py:64-83 | The loop over the sections lists the specified units, section by section. |
| Chunking.UnitsLemma | ingestion_service/chunking/section.py:64-96 | All units are paragraphs within the limit and together hold the visible characters of all sections. |
| Chunking.PackUnits | ingestion_service/chunking/section.py:99-126 | The groups partition the units in order, none is empty, and for nonempty texts the running count is the true joined length (loop invariant) and the groups are the greedy ones. |
| Chunking.GreedyLemma | ingestion_service/chunking/section.py:99-126 | Greedy groups partition the units, and all fit when every unit fits. |
| Chunking.GreedyIsMaximal | ingestion_service/chunking/section.py:114-117 | No group could take even the first unit of the next one. |
| Chunking.GreedyIsOptimal | ingestion_service/chunking/section.py:99-126 | No partition of the units into contiguous groups whose joined texts fit has fewer groups. |
| Chunking.ChunkDocument | ingestion_service/chunking/section.py:29-61 | One chunk per greedy group with its id, index, joined text and page range; when there is no group a single chunk with the source uri, else the title, else the document id. |
| Chunking.ChunkingConservesContent | ingestion_service/chunking/section.py:29-126 | Every chunk text is nonempty and at most `max_chars` long, and the chunks hold exactly the visible characters of the sections in order. |
| Chunking.FallbackIffNoInk | ingestion_service/chunking/section.py:36-61 | The fallback is used exactly when no section has a visible character. |
| Chunking.RechunkingIff | ingestion_service/chunking/section.py:86-126 | A section is chunked into one chunk with its own text exactly if the text is the join of its own paragraphs, nonempty and within the limit. |
| Chunking.RechunkingIsIdentity | ingestion_service/chunking/section.py:29-126 | For every produced chunk, the fallback included, re-chunking its text gives one chunk with that text exactly if it is no fallback or the fallback text has that shape. |
| Chunking.FallbackIsNotAlwaysKept | ingestion_service/chunking/section.py:50-61 | A fallback title with a double space is not kept by re-chunking. |
| Chunking.PageRangeIsTight | ingestion_service/chunking/section.py:145-156 | A group's page range exists exactly if some unit has pages, bounds all of them, and both ends are attained. |
| Chunking.ChunkPagesAscend | ingestion_service/chunking/section.py:145-195 | If section page ranges never go back, chunk page ranges never go back. |
| Sorting.SortDescendingLemma | retrieval_service/services/hybrid.py:61 | The sort by score is a permutation with nonincreasing scores. |
| Sorting.SortKeepsDescendingParts | retrieval_service/ranking/entity_boost.py:51 | The sort is stable: any part of the input that is already in descending order keeps its order. |
| Sorting.SortIsAhead | retrieval_service/services/hybrid.py:61 | The sorted list is in the strict order of score first and input place second. |
| Fusion.RrfTable | retrieval_service/services/hybrid.py:47-59 | The dictionaries built by the reciprocal-rank loops hold, for each key in first-encounter order, the declarative sum, source set and representative. |
| Fusion.WeightedTable | retrieval_service/services/hybrid.py:86-98 | The same for the min-max weighted loops. |
| Fusion.RecordLemma | retrieval_service/services/hybrid.py:56-59 | One turn of either loop keeps the dictionaries equal to the declarative reading of all hits so far. |
| Fusion.RecordAllTabulates | retrieval_service/services/hybrid.py:47-59 | Hence after any list of hits the accumulated dictionaries are its declarative reading: sums, sources and representatives per key, in first-encounter order. |
| Fusion.RepresentativeIsFirstLongest | retrieval_service/services/hybrid.py:58-59 | The hit kept for a key is the first one with the longest text. |
| Fusion.Ranked | retrieval_service/services/hybrid.py:61-77 | Sorting and cutting to the limit (also a negative one) yields the best keys, each once, ranked 1 to n, ties in first-encounter order; every omitted key is beaten by every kept one. |
| Fusion.Fuse | retrieval_service/services/hybrid.py:29-38 | For either method the fused list is the declarative ranking of all contributions, and each hit's dedupe key is the key it was ranked under. |
| FusionLaws.FusionIsOrderIndependent | retrieval_service/services/hybrid.py:40-116 | Permuting the result sets leaves the sequence of fused scores unchanged, and the keys too when no two keys have equal totals. |
| FusionLaws.FusedCount | retrieval_service/services/hybrid.py:61-63 | One hit is fused for each distinct key, up to the limit; a negative limit leaves out that many. |
| FusionLaws.SmallerDenominator | retrieval_service/services/hybrid.py:54-56 | A weight over a smaller nonzero denominator is no smaller exactly if it is zero, the denominators are equal, or its sign fits the side of zero they are on. |
| FusionLaws.BetterRankNeverHurts | retrieval_service/services/hybrid.py:51-63 | For any weight and `rrf_k`, lowering one hit's explicit positive rank never worsens the fused place of its key if the smaller denominator helps, and never improves it if not. It helps for the nonnegative weights that settings parsing admits (retrieval_service/retrieval/config.py:90-93) with a nonnegative `rrf_k`. |
| FusionLaws.BetterRankCanHurt | retrieval_service/services/hybrid.py:51-63 | Whenever the smaller denominator does not help, of two hits with distinct keys and one rank in one set the first falls from the first place to the second when its rank is lowered. |
| FusionLaws.WeightedFusionIsScaleFree | retrieval_service/services/hybrid.py:79-116 | Replacing one retriever's scores s by a*s+b with positive a changes no fused key, payload, score, rank or source list (all-equal scores included). |
| FusionLaws.NormalizedInUnit | retrieval_service/services/hybrid.py:177-185 | A min-max normalised score lies between zero and one. |
| FusionLaws.WeightedScoresAreBounded | retrieval_service/services/hybrid.py:90-100 | Without duplicate keys in a set and with nonnegative weights, each fused score lies between zero and the sum of the set weights. |
| ContributionLaws.FusedHitSays | retrieval_service/services/hybrid.py:63-77 | The hit at place p has rank p+1, the source hybrid and the key's total; payload, raw score and other metadata are those of the first hit of the key with the longest text; the sources of the key are named in alphabetical order. |
| ContributionLaws.MergedByFirstId | retrieval_service/services/hybrid.py:156-161 | Hits are merged by the first of preferred key, `chunk_id` and `payload_id` that they have, exactly if these ids are equal. |
| ContributionLaws.MergedByPlace | retrieval_service/services/hybrid.py:162-170 | Hits without any id are merged exactly if place and text are the same, when no field of the place holds the separator. |
| ContributionLaws.NormalizedIsProportional | retrieval_service/services/hybrid.py:177-185 | Normalised scores divide the way from the worst to the best score in proportion; an all-equal set gets one throughout. |
| ContributionLaws.NormalizedKeepsOrder | retrieval_service/services/hybrid.py:177-185 | In a set of unequal scores normalisation keeps the order, exactly the best get one and exactly the worst get zero. |
| ContributionLaws.SoleReciprocalScore | retrieval_service/services/hybrid.py:51-56 | A key of a single hit scores the weight of the hit's own source (dense, bm25 or one) over `rrf_k` plus its rank, or its place when it has none. |
| ContributionLaws.SoleWeightedScore | retrieval_service/services/hybrid.py:90-95 | In weighted fusion it scores that weight times the normalised score. |
| ContributionLaws.WeightedOneSetByScore | retrieval_service/services/hybrid.py:79-116 | One set with distinct keys, one source and a positive weight is fused in descending order of the raw scores, equal ones in the order of the set. |
| ContributionLaws.BetterScoreNeverHurts | retrieval_service/services/hybrid.py:90-100 | Raising the raw score of one hit never worsens the place of its key, if no other hit of its set has the key and the weights in the set are nonnegative. |
| ContributionLaws.BetterScoreCanHurt | retrieval_service/services/hybrid.py:90-100 | With three hits of one key in a set, raising the worst of them lets the key fall from the first place to the second. |
| QdrantFilters.BuildQdrantFilter | retrieval_service/query/qdrant_filters.py:10-70 | The conditions hold for exactly the payloads of the project, the allowed users and, when given, the knowledge bases and documents. |
| QdrantFilters.InScopeMeaning | retrieval_service/query/qdrant_filters.py:10-70 | A filter admits payloads of its project, of its user or the shared one, and of one of its knowledge bases and documents, if it names any. |
| QdrantFilters.FromScopeMeaning | project_service/schemas/scope.py:58-72 | The filter of a scope admits payloads of the project, of the user or, if shared ones are included, of `__shared__`, and of the named knowledge bases if any name is not blank. |
| Ranking.BoostedLemma | retrieval_service/ranking/entity_boost.py:29-50 | A hit's score rises by the boost times the number of query entities among its payload's entity keys; without any the hit is unchanged; payload, source and rank stay. |
| Ranking.ApplyEntityBoosts | retrieval_service/ranking/entity_boost.py:18-51 | The result is a permutation of the boosted hits in descending order; hits of equal boosted score keep their order, and on sorted input so do hits of equal overlap; without keys, hits or boost nothing changes. |
| Ranking.PermutationKeepsKeysApart | retrieval_service/ranking/entity_boost.py:51 | Reordering hits does not make two dedupe keys collide. |
| Ranking.FusedListFacts | retrieval_service/services/hybrid.py:29-116 | A fused list is sorted, its keys differ, and it stays in every scope that all result sets keep to. |
| Ranking.HybridChunks | project_service/rag/engine.py:179-230 | Hybrid search without a reranker returns exactly the nonempty ones of the first `top_k` ranked hits, in order, with their payloads and scores; with no empty payload that is min(`top_k`, number of hits) chunks. They come best first, with distinct dedupe keys, and in every scope that all result sets keep to. |
| Ranking.HybridSearch | project_service/rag/engine.py:158-230 | From the filter on: the chunks are the nonempty ones of the first `top_k` hits; if the retrievers return only hits that meet the rendered conditions, no chunk is from outside the filter's scope; if no retrieved payload is empty, there are as many chunks as distinct keys, up to `candidate_count` and `top_k`. |
| Tier1Cache.ClearChangesNoLookup | retrieval_service/services/cache.py:93-109 | Clearing expired entries changes no lookup made then or later. |
| Tier1Cache.BoundedAfterSet | retrieval_service/services/cache.py:71-81 | After a set no project holds more than `max_entries` entries or a key twice. |
| Tier1Cache.Tier1MemoryCache.constructor | retrieval_service/services/cache.py:43-52 | The cache starts empty and bounded. |
| Tier1Cache.Tier1MemoryCache.Get | retrieval_service/services/cache.py:54-69 | A hit returns the value and makes the entry the youngest, an expired entry is deleted, a miss changes nothing. |
| Tier1Cache.Tier1MemoryCache.Set | retrieval_service/services/cache.py:71-81 | The new entry is the youngest; the key's old entry or else the oldest entry of a full store makes room. |
| Tier1Cache.Tier1MemoryCache.InvalidateProject | retrieval_service/services/cache.py:83-86 | Exactly the project's entries go. |
| Tier1Cache.Tier1MemoryCache.ClearExpired | retrieval_service/services/cache.py:93-109 | Exactly the expired entries and the emptied stores go, and the result is the number of entries removed. |
| Tier1Cache.Sweep | retrieval_service/services/cache.py:98-104 | Listing the expired keys and then deleting them leaves the live entries in order and counts the rest. |
| CacheRuns.RunIsBounded | retrieval_service/services/cache.py:54-109 | In every run every store is bounded by `max_entries` and has distinct keys. |
| CacheRuns.LastWriteIsLast | retrieval_service/services/cache.py:71-86 | The simple-map specification names the last set of a key with no later set or invalidation. |
| CacheRuns.GetIsSound | retrieval_service/services/cache.py:54-109 | In every run, a value that a lookup returns is that of the last set of the key, with no invalidation since and at most the time to live elapsed. |
| CacheRuns.GetRetains | retrieval_service/services/cache.py:54-109 | In every run, after a set with no later set or invalidation, and fewer than `max_entries` other keys of the project set or hit since the key was last touched, a lookup within the time to live returns the value, whatever else happened. |
| PointStore.PointIdInjective | project_service/schemas/documents.py:103-112 | When all identity components but at most one are free of the separator, payloads share a point id exactly if they agree on all seven components. |
| PointStore.RenderedFields | project_service/schemas/documents.py:114-125 | What retrieval reads of a stored chunk: its chunk id, text and place under their own names. |
| PointStore.IdentitiesAreInjectiveIff | retrieval_service/services/vector_store.py:300-311 | Point ids tell apart all payloads whose components outside a set of places are separator-free, if and only if that set has at most one place. |
| PointStore.AnyTwoCollide | retrieval_service/services/vector_store.py:300-311 | For any two text components, whatever the others are, two different chunks share an id. |
| PointStore.CollisionDestroys | retrieval_service/services/vector_store.py:138-160 | Inside one project and collection, ingesting a chunk of user `u` and knowledge base `k&#124;b` destroys that of user `u&#124;k` and knowledge base `b`. |
| PointStore.QdrantStore.Validate | retrieval_service/services/vector_store.py:314-329 | Accepts exactly matching counts and dimensions, and otherwise names the first wrong vector. |
| PointStore.QdrantStore.Upsert | retrieval_service/services/vector_store.py:138-160 | Bad input changes nothing; otherwise in exactly the named collection, created if missing, each id of a payload holds the last payload with that id and the vector of the same index, and every other id is as before. |
| PointStore.QdrantStore.UpsertHybrid | retrieval_service/services/vector_store.py:162-205 | Succeeds exactly if counts, dimensions and the existing schema fit; failure changes nothing; success stores each payload with the sparse vector and the dense one, if any, of the same index. |
| PointStore.QdrantStore.DeleteDocument | retrieval_service/services/vector_store.py:262-283 | Exactly the points of that project, user, knowledge base and document go; other points and collections stay. |
| PointStore.DocumentFilterMeaning | retrieval_service/services/vector_store.py:273-281 | The delete filter matches exactly the payloads of the document. |
| PointStore.UpsertedAt | retrieval_service/services/vector_store.py:152-160 | After an upsert an id holds the last point of the batch with that id, or what it held before. |
| PointStore.UpsertIsIdempotent | retrieval_service/services/vector_store.py:138-160 | Ingesting the same batch again changes nothing. |
| PointStore.IndexDecides | project_service/schemas/documents.py:103-112 | Chunks of one document with different indices have different ids, whatever the components hold. |
| PointStore.ReingestKeepsStaleTail | retrieval_service/services/vector_store.py:138-160 | Re-ingesting m chunks over n leaves indices below m new, indices from m to n old, and every other id as it was. |
| PointStore.DeleteThenIngest | retrieval_service/services/vector_store.py:138-283 | Delete followed by ingest leaves exactly the new chunks of the document; a point outside it is kept exactly if no new chunk has its id. |
| PointStore.NormalizedKbIdIsNormal | retrieval_service/core/schemas/common.py:40-43 | White space around a knowledge base id goes, an id of nothing else is the default one, and so stored ids are normal. |
| PointStore.RawDeletion | project_service/rag/engine.py:365-371 | Deletion with a raw knowledge base id deletes a chunk stored under its normal form exactly if the id is that form, and otherwise deletes nothing at all. |
| PointStore.RawDeleteThenIngest | project_service/schemas/documents.py:96 | Deleting with the raw id and ingesting again leaves exactly the new chunks of the document if and only if the id is its own normal form or no old chunk of the document has another id than the new ones. |
| PointStore.OutsideIsKept | retrieval_service/services/vector_store.py:138-283 | If at most one component may hold the separator, every point outside the document is kept. |
| PointStore.UpsertIsolated | retrieval_service/services/vector_store.py:138-205 | An upsert for one project leaves the points of every other project alone whose id does not clash with its own. |
| PointStore.DeleteIsolated | retrieval_service/services/vector_store.py:262-283 | A deletion for one project leaves every other project's points alone. |
| Separators.JoinInjective | retrieval_service/services/vector_store.py:304 | Nonempty lists of separator-free parts with equal joins are equal. |
| CacheKeys.SortStringsLemma | retrieval_service/retrieval/cache_keys.py:23 | Sorting the ids gives an ascending permutation of them. |
| CacheKeys.AscendingUnique | retrieval_service/retrieval/cache_keys.py:23 | A multiset of strings has only one ascending order. |
| CacheKeys.SameProjectKeys | retrieval_service/retrieval/cache_keys.py:14-28 | Within a project keys are equal exactly if the settings are and user, query and the rest make the same text. |
| CacheKeys.SharedKeyIffClash | retrieval_service/retrieval/cache_keys.py:14-28 | Two searches of a project share a key for some nonblank queries exactly if their users clash and the parts behind the query clash. |
| CacheKeys.UsersShareKeysIff | retrieval_service/retrieval/cache_keys.py:19-27 | Two users whose searches are otherwise the same share a key for some queries exactly if they are the same or one id followed by the separator begins the other. |
| CacheKeys.SearchKeyInjective | retrieval_service/retrieval/cache_keys.py:14-28 | Searches whose fields but the query hold no separator share a key exactly if they agree on project, user, query, sharing, version and settings, and on the knowledge base ids up to order. |
| CacheKeys.FilterOfMeaning | project_service/schemas/scope.py:58-72 | So does the filter of a search request. |
| CacheKeys.SameScopeIff | retrieval_service/query/qdrant_filters.py:10-70 | The filters of two searches admit the same payloads exactly if project, allowed users and knowledge bases are the same. |
| CacheKeys.EqualKeysEqualMeaning | retrieval_service/retrieval/cache_keys.py:14-28 | Compatible searches with equal keys have the same query and version, and filters that admit the same payloads. |
| CacheKeys.KeysAreFaithfulIff | retrieval_service/retrieval/cache_keys.py:14-28 | Equal keys mean the same query, version and scope, for all nonblank queries of two searches, if and only if the searches are compatible. |
| CacheKeys.CompatibleIffUsers | retrieval_service/retrieval/cache_keys.py:14-28 | With separator-free versions and knowledge base ids, searches are compatible exactly if otherwise equal ones have users that do not clash. |
| CacheKeys.UserSeparatorSharesKey | retrieval_service/retrieval/cache_keys.py:19-27 | Users `u&#124;x` and `u` of one project share a key for the queries `q` and `x&#124;q`, although a payload of the first is not in the scope of the second. |
| CacheKeys.CommaSharesKey | retrieval_service/retrieval/cache_keys.py:23 | With a comma inside an id, two searches of different scope share a key. |
| CachedSearch.WellFormedIsFaithful | retrieval_service/retrieval/cache_keys.py:14-28 | Searches with separator-free versions and knowledge base ids, and with users that do not clash, are pairwise compatible. |
| CachedSearch.StepKeepsInv | project_service/rag/engine.py:127-246 | For pairwise compatible searches, every search, store write, invalidation and sweep keeps each live entry of a quiet project equal to the recomputed answer of every search with its key. |
| CachedSearch.RunKeepsInv | project_service/rag/engine.py:322-381 | So does every run of such steps, ingests (also those without chunks, which write nothing) and deletes being two steps each. |
| CachedSearch.SharedCollectionNoClash | project_service/schemas/config.py:27-29 | Two different projects whose collections coincide have ids that do not clash, since the name goes on with an underscore. |
| CachedSearch.CollectionsDiffer | project_service/schemas/config.py:27-29 | The versions of a project have collections of their own, and so have projects whose ids hold no underscore. |
| CachedSearch.WriteKeepsOtherAnswers | project_service/rag/engine.py:338-371 | A store write for one project changes no answer of another, even in a shared collection. |
| CachedSearch.CachedSearchIsExact | project_service/rag/engine.py:139-153 | In every run of pairwise compatible searches, a search of a project with no writer between write and invalidation returns what an uncached search would. |
| CachedSearch.IngestCycleIsExact | project_service/rag/engine.py:322-348 | After any run, a search, an ingest with a search inside, its invalidation and a sweep are again such a run, leave no new writer pending, and the next search is exact. |
| CachedSearch.OtherProjectsKeepCache | retrieval_service/services/cache.py:83-109 | Searches, writes and invalidations of other projects and sweeps change no lookup of a project: what was a hit stays one. |
| CachedSearch.CacheStaysBounded | retrieval_service/services/cache.py:71-81 | In every run of searches and writes the cache is bounded. |
| CachedSearch.IngestIsSeen | project_service/rag/engine.py:322-348 | After an ingest and its invalidation a search is answered from points that hold the chunks of the batch which its filter admits, the last one of each id. |
| CachedSearch.DeleteIsSeen | project_service/rag/engine.py:357-381 | After a deletion and its invalidation a search is answered from the points it saw before without those of the document. |
| CachedSearch.SharedKeyGetsOtherAnswer | project_service/rag/engine.py:139-153 | A search whose key is that of one just made gets the answer of that one. |
| CachedSearch.UserSeparatorWitness | project_service/rag/engine.py:139-153 | A run in which user `u` gets the chunk of user `u&#124;x` from the cache, where a fresh search finds nothing. |
| CachedSearch.FailedDeleteGoesStale | project_service/rag/engine.py:365-381 | After a delete that raises before its invalidation a cached answer stays; it is exact exactly if ranking the points of before gives the same as ranking those left, which are the same points exactly if the search sees none of the document. |
| CachedSearch.FailedDeleteIsExactIff | project_service/rag/engine.py:365-381 | For every engine whose answers tell which points they list: an exact cached answer lists no chunk of the deleted document, and where unlisted points have no part in the answer it is exact if and only if it lists none. |
| CachedSearch.FailedDeleteAfterCut | project_service/rag/engine.py:205-230 | Where one ranking, a strict order of points, is cut to its best `top_k`, the cached answer is exact if and only if none of the best `top_k` points that the search sees belongs to the document. |
| CachedSearch.FailedDeleteWitness | project_service/rag/engine.py:365-381 | A store of one chunk in which the cached answer lists the chunk and a fresh search lists nothing. |
| IngestProtocol.StepKeepsInv | retrieval_service/ingest/workers.py:34-59 | Every step, shutdown included, keeps each job in exactly one place, the counter equal to queued plus busy, first-in-first-out order, and every status history fitting the job's stage. |
| IngestProtocol.RunKeepsInv | retrieval_service/ingest/workers.py:26-59 | The same in every reachable state, for any number of workers and any queue bound. |
| IngestProtocol.JobsAreConserved | retrieval_service/ingest/workers.py:34-59 | Created jobs are submitting, queued, at a worker, finished or cancelled, each in one place; the unfinished count is queued plus busy; jobs are dequeued in order, none twice. |
| IngestProtocol.StatusesAreLegal | project_service/rag/engine.py:322-336 | Statuses go pending, running, then completed or failed; a completed job fails only if its cache invalidation raised. |
| IngestProtocol.RaisedJobEndsFailed | project_service/rag/engine.py:322-336 | In every run, a job whose ingest or cache invalidation raises and that is handled to its end has the status failed. |
| IngestProtocol.QueueIsBounded | retrieval_service/ingest/workers.py:26-47 | In every run the queue holds at most `maxsize` jobs if that is positive, and a submission waits exactly when the queue is full. |
| IngestProtocol.StepDecreasesMeasure | retrieval_service/ingest/workers.py:49-59 | Every step other than a creation lowers the measure. |
| IngestProtocol.RunsAreShort | retrieval_service/ingest/workers.py:34-59 | A run that creates n jobs knows exactly n jobs and has at most 9n plus worker-count steps. |
| IngestProtocol.QuietIffAllFinished | retrieval_service/ingest/workers.py:34-59 | No job gets stuck: after any run without shutdown and with a worker, nothing but a submission or a cancellation is possible exactly when every created job has been handled to its end. |
| IngestProtocol.AllJobsEnd | project_service/rag/engine.py:306-336 | Hence, when nothing else can happen, every created job has ended completed, or failed with or without a completion before it. |
| IngestProtocol.OneJobRuns | retrieval_service/ingest/workers.py:34-59 | A run of one worker and one job that ends quiet: the job was pending, running and completed, for any job id and any queue bound. |
| IngestProtocol.StepOnHistory | project_service/rag/engine.py:306-336 | Of all steps only a submission and the status steps of the handler change a history: the first starts one with pending, the others add one status. |
| IngestJobs.MemoryIngestJobStatusRepository.Create | retrieval_service/ingest/jobs.py:34-35 | Stores the given job object under its id and starts its history; every other record stays the same object and every other history as it was. |
| IngestJobs.MemoryIngestJobStatusRepository.Get | retrieval_service/ingest/jobs.py:37-38 | Returns the stored object, which shows the last status of the job's history, and nothing exactly for an unknown job. |
| IngestJobs.MemoryIngestJobStatusRepository.UpdateStatus | retrieval_service/ingest/jobs.py:40-53 | Adds one status to the history of a known job, as the ingest protocol does; changes its record in place and no other; an unknown id changes nothing. |
| IngestJobs.PerformAll | retrieval_service/ingest/jobs.py:30-53 | A new repository that is taken through a whole run of the protocol by `Create` and `UpdateStatus` holds the histories of that run. |
| IngestJobs.PollAfter | retrieval_service/ingest/jobs.py:30-53 | Polling that repository with `Get` answers exactly for created jobs: completed or failed for a finished job, pending for a submitting or queued one, and failed after completed only if the invalidation raised. |
| IngestJobs.PolledStatus | retrieval_service/ingest/jobs.py:37-53 | The last status in the history of any run is of that kind. |
| Cleaning.FindRepeatedEdgeLines | ingestion_service/normalization/cleaning.py:131-150 | Finds exactly the lines that are edge lines of enough paged sections and do not read like body text. |
| Cleaning.EdgeLineIff | ingestion_service/normalization/cleaning.py:153-158 | For a positive edge size the edge lines are exactly the first and the last so many nonempty canonical lines. |
| Cleaning.KeptLinesLemma | ingestion_service/normalization/cleaning.py:172-180 | A line is removed exactly if its canonical form is a repeated line. |
| Cleaning.RemoveRepeatedLines | ingestion_service/normalization/cleaning.py:172-180 | The loop joins the kept lines and counts the removed ones. |
| Cleaning.Clean | ingestion_service/normalization/cleaning.py:34-107 | Kept sections, dropped sections and totals are those of the verdict on each section, in order; a disabled policy returns the input. |
| CleaningLaws.CleanedTextHolds | ingestion_service/normalization/cleaning.py:57-70 | The lines of a prepared section have exactly the visible characters of its text that are no control characters, in order, up to hyphens when wraps are repaired; the cleaned text has exactly those of the lines that are not repeated lines. |
| CleaningLaws.OutputHolds | ingestion_service/normalization/cleaning.py:57-93 | So it is for every section that the cleaner returns. |
| CleaningLaws.NormalTextIsKept | ingestion_service/normalization/cleaning.py:57-70 | A normal text without control characters comes back unchanged if wraps are not repaired and no repeated line is removed. |
| CleaningLaws.ControlCharIsSpace | ingestion_service/normalization/cleaning.py:110-116 | A control character other than newline and tab might as well be a space; a text without any is left alone. |
| CleaningLaws.WrapsBecomeSpaces | ingestion_service/normalization/cleaning.py:127 | Newlines become spaces exactly where the character before ends no sentence and the one behind is no white space. |
| CleaningLaws.WrapsAreRemoved | ingestion_service/normalization/cleaning.py:126 | Exactly the hyphens and newlines between two word characters go; all other characters stay in order. |
| CleaningLaws.KeptInOrder | ingestion_service/normalization/cleaning.py:172-180 | The kept lines are exactly those whose canonical form is no repeated line, in order. |
| CleaningLaws.DroppedIff | ingestion_service/normalization/cleaning.py:72-84 | A section is dropped exactly if its cleaned text is empty and such are to go, or short noise is to go and it scores at least 0.95, or is short and scores at least the limit; the reason names the first that applies. |
| CleaningLaws.DroppedEntry | ingestion_service/normalization/cleaning.py:74-84 | The entry has the section's id and pages, the first 160 characters of the cleaned text and the score. |
| CleaningLaws.KeptEntry | ingestion_service/normalization/cleaning.py:86-93 | A kept section differs only in its text and in the entries that the cleaner adds to the metadata. |
| CleaningLaws.Round4Lemma | ingestion_service/normalization/cleaning.py:89 | The stored score is the nearest multiple of 0.0001, an even one in a tie. |
| CleaningLaws.NoiseScoreIs | ingestion_service/normalization/cleaning.py:183-196 | The score in terms of the numbers of visible, punctuation and alphanumeric characters, each counted by its places. |
| CleaningLaws.PunctuationIs | ingestion_service/normalization/cleaning.py:190 | The punctuation characters are the 32 of ASCII. |
| CleaningLaws.RepeatedIff | ingestion_service/normalization/cleaning.py:131-169 | A line of words is repeated exactly if enough paged sections, counted by their places, have it as an edge line and it has fewer than eight words and at most 80 characters. |
| CleaningLaws.StartPageLemma | ingestion_service/normalization/cleaning.py:211-220 | A section is paged by its number, else by `start_page` and `end_page`, else by its `page_number`. |
| CleaningLaws.NonEmptyInOrder | ingestion_service/normalization/cleaning.py:153-158 | The lines that edge lines are taken from are the nonempty canonical lines of the text, in order. |
| Cleaning.RepairLosesOnlyHyphens | ingestion_service/normalization/cleaning.py:125-128 | Repairing line wraps loses no visible character but hyphens, and keeps the order. |
| Cleaning.RemovalKeepsOtherLines | ingestion_service/normalization/cleaning.py:172-180 | After removal and the final normalisation the text has exactly the visible characters of the kept lines; cutting into lines loses none. |
| Cleaning.NoRepeatedLineRemains | ingestion_service/normalization/cleaning.py:57-70 | With removal on, no cleaned text has a line whose canonical form is repeated, even after the final normalisation. |
| Cleaning.OutputHasNoRepeatedLine | ingestion_service/normalization/cleaning.py:52-107 | Hence no output section has such a line. |
| Cleaning.PartitionInOrder | ingestion_service/normalization/cleaning.py:57-93 | Kept and dropped sections partition the input, each in input order. |
| Cleaning.NoiseScoreBounds | ingestion_service/normalization/cleaning.py:183-196 | The score lies in [0, 1] and is below 0.95 from nine characters on. |
| Cleaning.LongTextIsNeverDropped | ingestion_service/normalization/cleaning.py:199-208 | No text of at least max(`min_text_chars`, 9) characters is dropped, whatever it contains. |
| Cleaning.OnlyShortSectionsAreDropped | ingestion_service/normalization/cleaning.py:57-84 | Every dropped entry is the verdict on an input section whose cleaned text is shorter than that. |
| Cleaning.PunctuationThreshold | ingestion_service/normalization/cleaning.py:183-208 | Nine is tight: pure punctuation reaches the cut-off exactly up to eight characters. |
| Cleaning.ZeroEdgeMeansAllLines | ingestion_service/normalization/cleaning.py:153-158 | With an edge size of zero every line is an edge line, since `lines[-0:]` is the whole list. |
| Lines.CanonicalOfIndented | ingestion_service/normalization/cleaning.py:161-162 | A white space before a line does not change its canonical form. |
| Lines.CanonicalOfTrailing | ingestion_service/normalization/cleaning.py:161-162 | Nor does one behind it. |
| TextLaws.LinesOfEnded | ingestion_service/normalization/cleaning.py:172-180 | Cutting a text into lines undoes ending each line, whichever line break is used. |
| TextLaws.BreaksAre | ingestion_service/normalization/cleaning.py:175 | The characters that end a line, one by one. |
| Lines.NormalizedJoinAvoids | ingestion_service/normalization/cleaning.py:70 | Joining kept lines and normalising the result brings no banned line back. |
| Limiter.AsyncConcurrencyLimiter.constructor | project_service/gateway/limiter.py:15-25 | The limiter starts without leases and meets its invariant. |
| Limiter.AsyncConcurrencyLimiter.Acquire | project_service/gateway/limiter.py:35-52 | Admits exactly when neither cap is reached, adding one lease; a rejection changes nothing; both maps keep counting the live leases. |
| Limiter.AsyncConcurrencyLimiter.Release | project_service/gateway/limiter.py:54-66 | Removes one live lease, with no missing key, and both maps keep counting the live leases. |
| Limiter.CountWithout | project_service/gateway/limiter.py:54-58 | Removing one lease lowers exactly its project's and its user's count by one. |
| Limiter.ProjectCountIsUserSum | project_service/gateway/limiter.py:51-58 | A project's live leases are the sum of its users' live leases. |
| Limiter.AsyncConcurrencyLimiter.ProjectCountIsSum | project_service/gateway/limiter.py:24-25 | At any time the project's stored count is the sum of its stored user counts. |
| Limiter.AsyncConcurrencyLimiter.EmptyWhenAllReleased | project_service/gateway/limiter.py:61-66 | When all leases are released both maps are empty. |
| Versions.VersionManager.ListVersions | project_service/versioning/manager.py:189-212 | Lists exactly the project's versions, each once, youngest first. |
| Versions.VersionManager.CreateNewVersion | project_service/versioning/manager.py:47-79 | The row is inserted or replaced, with its collection name and the time of creation, inactive, and activated on request; the other rows stay; after every transaction at most one version of each project is active. |
| Versions.VersionManager.ActivateVersion | project_service/versioning/manager.py:81-97 | Exactly that version of the project becomes active, every other row and field stays, and the config names it exactly if it accepts it; after every single transaction at most one version of each project is active. |
| Versions.VersionManager.GetActiveVersion | project_service/versioning/manager.py:99-111 | Returns an active version exactly if there is one; for a consistent project it is the configured one. |
| Versions.VersionManager.DeleteExpiredVersions | project_service/versioning/manager.py:126-139 | A row goes exactly if it is one of the project, inactive and created at least the grace period ago; the collections of exactly these rows are reported, youngest first. |
| Versions.NewVersionIsSpared | project_service/versioning/manager.py:47-139 | In every run a created version is still there, with its model and collection, as long as it is not created again and no sweep of the project runs after the grace period. |
| Versions.ActivationMakesConsistent | project_service/versioning/manager.py:81-97 | After activating an existing version the configured version is the active one exactly if the config accepted it or had it already. |
| Versions.StaysConsistentIff | project_service/versioning/manager.py:47-139 | An operation keeps the configured version active exactly if it neither re-creates it without activating it nor activates a blank name. |
| Versions.ConfiguredVersionIsActive | project_service/versioning/manager.py:47-139 | In every run, from the first activation on and while no operation does either, the configured version is the one active row at every operation boundary, so no sweep removes it. |
| Versions.RecreatedVersionIsDeleted | project_service/versioning/manager.py:126-139 | Re-created without activation, the configured version is swept after the grace period while the config still names it. |

## Left out

- Chunking.ChunkDocument: of a chunk's metadata only the page range is modelled, not the section ids, the
  headings and the entries common to a group (`ingestion_service/chunking/section.py:129-143`, `161-180`).
- Digits outside ASCII in `_coerce_int`, and case folding or Unicode normalisation, which the code does not do.
- Chunking.PackUnits: for empty unit texts, which `_split_large_text` never produces, only the partition is promised.
- `max_chars` below 1, for which the cutting loop at `ingestion_service/chunking/section.py:93` does not advance.
- Fusion.Fuse: result sets in which `rrf_k + rank` is zero are excluded, since the code divides by it.
- Ranking.ApplyEntityBoosts: the list of shared entity names in a hit's metadata is kept as a set.
- The reranker, and candidate retrieval itself (embeddings, sparse encoders, vector search, entity extraction).
- Floating-point rounding, in particular ties that rounding creates.
- CachedSearch.CachedSearchIsExact: searches are one step and store writes are atomic; a search that
  reads before an ingest and caches after its invalidation can bring an old answer back.
- `top_k` and `candidate_count` are not part of the settings fingerprint, so the settings of a project
  are fixed during a run; so are collection-wide term statistics: an answer depends on the project,
  the query and the points that the filter admits.
- The SHA-256 digests of the cache keys and the UUIDv5 of a point identity (section 5.5 of RFC 9562)
  are taken to be free of collisions; the strings behind them are modelled.
- The tier-2 response cache, generation, object storage and source fetching.
- Ingest steps in which the job repository itself raises, and cancellation of a submitting caller.
- The locks of the cache and the limiter, and cancellation while waiting for one: each operation is one step.
- Versions.VersionManager.ListVersions: the order of versions created at the same moment is left open, as in the query.
- SQLite itself: tables are maps, a transaction replaces the database at once.
- Error messages, logging and metrics; gRPC, configuration parsing and application wiring.
