/** The tail of a search: entity boosts, the cut to `top_k`, and the chunks that are returned. */
module Ranking {
  import opened Retrieval
  import opened Sorting
  import Fusion
  import FusionLaws
  import QdrantFilters

  /** The query entities that the payload of a hit names as well. */
  function Overlap(hit: Hit, queryKeys: set<string>): set<string> {
    if hit.payload.entityKeys.None? then {}
    else set k | k in hit.payload.entityKeys.value && k in queryKeys
  }

  function Boosted(hit: Hit, queryKeys: set<string>, boost: real): Hit {
    var overlap := Overlap(hit, queryKeys);
    if overlap == {} then hit
    else
      hit.(score := hit.score + boost * |overlap| as real,
           metadata := hit.metadata["base_score" := Score(hit.score)]["entity_overlap" := Keys(overlap)])
  }

  function BoostAll(hits: seq<Hit>, queryKeys: set<string>, boost: real): (boosted: seq<Hit>)
    ensures |boosted| == |hits|
    ensures forall i :: 0 <= i < |hits| ==> boosted[i] == Boosted(hits[i], queryKeys, boost)
  {
    seq(|hits|, i requires 0 <= i < |hits| => Boosted(hits[i], queryKeys, boost))
  }

  function AsItems(hits: seq<Hit>): (items: seq<Scored<Hit>>)
    ensures |items| == |hits|
    ensures forall i :: 0 <= i < |hits| ==> items[i] == Scored(hits[i], hits[i].score)
  {
    seq(|hits|, i requires 0 <= i < |hits| => Scored(hits[i], hits[i].score))
  }

  function HitsOf(items: seq<Scored<Hit>>): (hits: seq<Hit>)
    ensures |hits| == |items|
    ensures forall i :: 0 <= i < |hits| ==> hits[i] == items[i].item
  {
    seq(|items|, i requires 0 <= i < |items| => items[i].item)
  }

  ghost predicate ScoresDescend(hits: seq<Hit>) {
    forall i, j :: 0 <= i < j < |hits| ==> hits[i].score >= hits[j].score
  }

  function SharesExactly(queryKeys: set<string>, n: nat): Scored<Hit> -> bool {
    (x: Scored<Hit>) => |Overlap(x.item, queryKeys)| == n
  }

  /** The hits that share exactly `n` entities with the query, in order. */
  function WithOverlap(hits: seq<Hit>, queryKeys: set<string>, n: nat): seq<Scored<Hit>> {
    Filter(AsItems(hits), SharesExactly(queryKeys, n))
  }

  function Scores(score: real): Scored<Hit> -> bool {
    (x: Scored<Hit>) => x.score == score
  }

  /** The hits of one score, in order. */
  function OfScore(hits: seq<Hit>, score: real): seq<Scored<Hit>> {
    Filter(AsItems(hits), Scores(score))
  }

  lemma {:induction false} ItemsMultiset(items: seq<Scored<Hit>>)
    ensures forall h :: multiset(HitsOf(items))[h] == 0 <==> h !in HitsOf(items)
    ensures items != [] ==> multiset(HitsOf(items)) == multiset(HitsOf(items[..|items| - 1])) + multiset{items[|items| - 1].item}
  {
    if items != [] {
      assert HitsOf(items) == HitsOf(items[..|items| - 1]) + [items[|items| - 1].item];
    }
  }

  lemma {:induction false} HitsOfInsertLast(s: seq<Scored<Hit>>, x: Scored<Hit>)
    ensures multiset(HitsOf(InsertLast(s, x))) == multiset(HitsOf(s)) + multiset{x.item}
  {
    var t := InsertLast(s, x);
    ItemsMultiset(s);
    ItemsMultiset(t);
    if s == [] || s[|s| - 1].score >= x.score {
      assert t[..|t| - 1] == s;
    } else {
      HitsOfInsertLast(s[..|s| - 1], x);
      assert t[..|t| - 1] == InsertLast(s[..|s| - 1], x);
    }
  }

  lemma {:induction false} HitsOfSorted(s: seq<Scored<Hit>>)
    ensures multiset(HitsOf(SortDescending(s))) == multiset(HitsOf(s))
  {
    if s != [] {
      HitsOfSorted(s[..|s| - 1]);
      HitsOfInsertLast(SortDescending(s[..|s| - 1]), s[|s| - 1]);
      ItemsMultiset(s);
    }
  }

  lemma {:induction false} FilterDescends(s: seq<Scored<Hit>>, keep: Scored<Hit> -> bool)
    requires forall i, j :: 0 <= i < j < |s| && keep(s[i]) && keep(s[j]) ==> s[i].score >= s[j].score
    ensures Descending(Filter(s, keep))
    ensures forall x :: x in Filter(s, keep) ==> keep(x) && x in s
  {
    if s != [] {
      var before, last := s[..|s| - 1], s[|s| - 1];
      FilterDescends(before, keep);
      var part := Filter(before, keep);
      if keep(last) {
        forall i | 0 <= i < |part|
          ensures part[i].score >= last.score
        {
          assert part[i] in part;
          var p :| 0 <= p < |before| && before[p] == part[i];
          assert keep(s[p]) && keep(s[|s| - 1]);
        }
      }
    }
  }

  /** The score rises by `boost` for each query entity that is among the payload's entity keys, by
      nothing when the payload names none, and nothing about the payload changes. */
  lemma BoostedLemma(hit: Hit, queryKeys: set<string>, boost: real)
    ensures hit.payload.entityKeys.None? ==> Boosted(hit, queryKeys, boost) == hit
    ensures hit.payload.entityKeys.Some? ==>
              var named := set k | k in hit.payload.entityKeys.value;
              && Boosted(hit, queryKeys, boost).score == hit.score + boost * |queryKeys * named| as real
              && (queryKeys * named == {} ==> Boosted(hit, queryKeys, boost) == hit)
              && (queryKeys * named != {} ==>
                    Boosted(hit, queryKeys, boost).metadata
                    == hit.metadata["base_score" := Score(hit.score)]["entity_overlap" := Keys(queryKeys * named)])
    ensures Boosted(hit, queryKeys, boost).payload == hit.payload
    ensures Boosted(hit, queryKeys, boost).source == hit.source && Boosted(hit, queryKeys, boost).rank == hit.rank
  {
    assert boost * 0.0 == 0.0;
    if hit.payload.entityKeys.Some? {
      var named := set k | k in hit.payload.entityKeys.value;
      assert Overlap(hit, queryKeys) == queryKeys * named;
    }
  }

  lemma BoostedScore(hit: Hit, queryKeys: set<string>, boost: real)
    ensures Boosted(hit, queryKeys, boost).score == hit.score + boost * |Overlap(hit, queryKeys)| as real
    ensures Overlap(Boosted(hit, queryKeys, boost), queryKeys) == Overlap(hit, queryKeys)
  {
    if Overlap(hit, queryKeys) == {} {
      assert boost * 0.0 == 0.0;
    }
  }

  lemma BoostKeepsOrderOfEqualOverlap(hits: seq<Hit>, queryKeys: set<string>, boost: real, n: nat)
    requires ScoresDescend(hits)
    ensures Descending(WithOverlap(BoostAll(hits, queryKeys, boost), queryKeys, n))
  {
    var items, keep := AsItems(BoostAll(hits, queryKeys, boost)), SharesExactly(queryKeys, n);
    forall i, j | 0 <= i < j < |items| && keep(items[i]) && keep(items[j])
      ensures items[i].score >= items[j].score
    {
      BoostedScore(hits[i], queryKeys, boost);
      BoostedScore(hits[j], queryKeys, boost);
      assert |Overlap(hits[i], queryKeys)| == |Overlap(hits[j], queryKeys)| == n;
      assert items[i].score == hits[i].score + boost * n as real;
      assert items[j].score == hits[j].score + boost * n as real;
    }
    FilterDescends(items, keep);
  }

  ghost predicate IsBoosting(hits: seq<Hit>, queryKeys: set<string>, boost: real, ranked: seq<Hit>) {
    if hits == [] || queryKeys == {} || boost <= 0.0 then ranked == hits
    else
      && multiset(ranked) == multiset(BoostAll(hits, queryKeys, boost))
      && ScoresDescend(ranked)
      && (forall score :: OfScore(ranked, score) == OfScore(BoostAll(hits, queryKeys, boost), score))
      && (ScoresDescend(hits) ==>
            forall n: nat :: WithOverlap(ranked, queryKeys, n)
                          == WithOverlap(BoostAll(hits, queryKeys, boost), queryKeys, n))
  }

  /** `apply_entity_boosts`: a permutation of the boosted hits in descending order; hits of equal boosted
      score keep their order, and hits of equal overlap do when the input was sorted. */
  method ApplyEntityBoosts(hits: seq<Hit>, queryKeys: set<string>, boost: real) returns (ranked: seq<Hit>)
    ensures IsBoosting(hits, queryKeys, boost, ranked)
  {
    if hits == [] || queryKeys == {} || boost <= 0.0 {
      return hits;
    }
    var boosted: seq<Hit> := [];
    for i := 0 to |hits|
      invariant boosted == BoostAll(hits, queryKeys, boost)[..i]
    {
      boosted := boosted + [Boosted(hits[i], queryKeys, boost)];
    }
    var items := AsItems(boosted);
    ranked := HitsOf(SortDescending(items));
    SortDescendingLemma(items);
    HitsOfSorted(items);
    assert HitsOf(items) == boosted;
    SortedItems(items, boosted);
    assert boosted == BoostAll(hits, queryKeys, boost);
    forall score: real
      ensures OfScore(ranked, score) == OfScore(boosted, score)
    {
      FilterDescends(items, Scores(score));
      SortKeepsDescendingParts(items, Scores(score));
    }
    if ScoresDescend(hits) {
      forall n: nat
        ensures WithOverlap(ranked, queryKeys, n) == WithOverlap(boosted, queryKeys, n)
      {
        BoostKeepsOrderOfEqualOverlap(hits, queryKeys, boost, n);
        SortKeepsDescendingParts(items, SharesExactly(queryKeys, n));
      }
    }
  }

  /** Sorting keeps each item's score that of its hit. */
  lemma SortedItems(items: seq<Scored<Hit>>, hits: seq<Hit>)
    requires items == AsItems(hits)
    ensures AsItems(HitsOf(SortDescending(items))) == SortDescending(items)
  {
    var sorted := SortDescending(items);
    SortDescendingLemma(items);
    forall i | 0 <= i < |sorted|
      ensures sorted[i] == Scored(sorted[i].item, sorted[i].item.score)
    {
      assert sorted[i] in multiset(items);
    }
  }

  // ---- what a hybrid search returns ----

  datatype Chunk = Chunk(payload: Payload, score: real)

  /** The payload and score of the first `topK` hits, without those whose payload is empty. */
  function TopChunks(hits: seq<Hit>, topK: nat): seq<Chunk> {
    if hits == [] || topK == 0 then []
    else
      (if hits[0].payload.fields == map[] then [] else [Chunk(hits[0].payload, hits[0].score)])
      + TopChunks(hits[1..], topK - 1)
  }

  lemma {:induction false} TopChunksLemma(hits: seq<Hit>, topK: nat, dedupeKey: string)
    ensures |TopChunks(hits, topK)| <= topK
    ensures forall c :: 0 <= c < |TopChunks(hits, topK)| ==>
              exists i :: 0 <= i < |hits| && TopChunks(hits, topK)[c] == Chunk(hits[i].payload, hits[i].score)
    ensures ScoresDescend(hits) ==>
              forall c, d :: 0 <= c < d < |TopChunks(hits, topK)| ==>
                TopChunks(hits, topK)[c].score >= TopChunks(hits, topK)[d].score
    ensures KeysDiffer(hits, dedupeKey) ==>
              forall c, d :: 0 <= c < d < |TopChunks(hits, topK)| ==>
                DedupeKey(TopChunks(hits, topK)[c].payload, dedupeKey) != DedupeKey(TopChunks(hits, topK)[d].payload, dedupeKey)
  {
    if hits != [] && topK > 0 {
      TopChunksLemma(hits[1..], topK - 1, dedupeKey);
    }
  }

  /** `chunks` are exactly the nonempty ones of the first `topK` hits, in order: chunk `c` is made of the
      payload and the score of the hit at `places[c]`. */
  ghost predicate IsCut(hits: seq<Hit>, topK: nat, chunks: seq<Chunk>, places: seq<nat>) {
    && |places| == |chunks|
    && (forall c, d :: 0 <= c < d < |places| ==> places[c] < places[d])
    && (forall i: nat :: i in places <==> i < |hits| && i < topK && hits[i].payload.fields != map[])
    && (forall c :: 0 <= c < |chunks| ==> places[c] < |hits| && chunks[c] == Chunk(hits[places[c]].payload, hits[places[c]].score))
  }

  lemma {:induction false} PlacesFrom(hits: seq<Hit>, topK: nat, start: nat) returns (places: seq<nat>)
    requires start <= |hits| && start <= topK
    ensures |places| == |TopChunks(hits[start..], topK - start)|
    ensures forall c, d :: 0 <= c < d < |places| ==> places[c] < places[d]
    ensures forall i: nat :: i in places <==> start <= i < |hits| && i < topK && hits[i].payload.fields != map[]
    ensures forall c :: 0 <= c < |places| ==>
              && places[c] < |hits|
              && TopChunks(hits[start..], topK - start)[c] == Chunk(hits[places[c]].payload, hits[places[c]].score)
    decreases |hits| - start
  {
    if start == |hits| || start == topK {
      places := [];
    } else {
      var rest := PlacesFrom(hits, topK, start + 1);
      assert hits[start..][1..] == hits[start + 1..] && hits[start..][0] == hits[start];
      assert forall c :: 0 <= c < |rest| ==> rest[c] in rest;
      places := (if hits[start].payload.fields == map[] then [] else [start]) + rest;
    }
  }

  lemma CutOf(hits: seq<Hit>, topK: nat) returns (places: seq<nat>)
    ensures IsCut(hits, topK, TopChunks(hits, topK), places)
  {
    assert hits[0..] == hits;
    places := PlacesFrom(hits, topK, 0);
  }

  function Min(a: int, b: int): int {
    if a <= b then a else b
  }

  ghost predicate NoneEmpty(hits: seq<Hit>) {
    forall i :: 0 <= i < |hits| ==> hits[i].payload.fields != map[]
  }

  /** When no payload is empty, the chunks are simply the first `topK` hits. */
  lemma {:induction false} TopChunksOfFull(hits: seq<Hit>, topK: nat)
    requires NoneEmpty(hits)
    ensures |TopChunks(hits, topK)| == Min(topK, |hits|)
    ensures forall c :: 0 <= c < |TopChunks(hits, topK)| ==> TopChunks(hits, topK)[c] == Chunk(hits[c].payload, hits[c].score)
  {
    if hits != [] && topK > 0 {
      TopChunksOfFull(hits[1..], topK - 1);
    }
  }

  lemma {:induction false} KeysDifferCount(hits: seq<Hit>, dedupeKey: string, hit: Hit)
    requires KeysDiffer(hits, dedupeKey)
    ensures multiset(hits)[hit] <= 1
  {
    if hits != [] {
      var last := |hits| - 1;
      assert hits == hits[..last] + [hits[last]];
      KeysDifferCount(hits[..last], dedupeKey, hit);
      if hits[last] == hit {
        assert hit !in hits[..last];
      }
    }
  }

  lemma TwiceCount(hits: seq<Hit>, i: nat, j: nat)
    requires i < j < |hits| && hits[i] == hits[j]
    ensures multiset(hits)[hits[i]] >= 2
  {
    assert hits == hits[..j] + ([hits[j]] + hits[j + 1..]);
    assert hits[..j][i] == hits[i];
  }

  /** Reordering does not make keys collide. */
  lemma PermutationKeepsKeysApart(hits: seq<Hit>, permuted: seq<Hit>, dedupeKey: string)
    requires multiset(hits) == multiset(permuted) && KeysDiffer(hits, dedupeKey)
    ensures KeysDiffer(permuted, dedupeKey)
  {
    forall i, j | 0 <= i < j < |permuted|
      ensures DedupeKey(permuted[i].payload, dedupeKey) != DedupeKey(permuted[j].payload, dedupeKey)
    {
      assert permuted[i] in multiset(hits) && permuted[j] in multiset(hits);
      var p :| 0 <= p < |hits| && hits[p] == permuted[i];
      var q :| 0 <= q < |hits| && hits[q] == permuted[j];
      if p == q {
        TwiceCount(permuted, i, j);
        KeysDifferCount(hits, dedupeKey, hits[p]);
      }
    }
  }

  ghost predicate AllInScope(f: QdrantFilters.RetrievalFilter, hits: seq<Hit>) {
    forall i :: 0 <= i < |hits| ==> QdrantFilters.InScope(f, hits[i].payload.fields)
  }

  ghost predicate SetsInScope(f: QdrantFilters.RetrievalFilter, resultSets: seq<seq<Hit>>) {
    forall s :: 0 <= s < |resultSets| ==> AllInScope(f, resultSets[s])
  }

  ghost predicate ChunksInScope(f: QdrantFilters.RetrievalFilter, chunks: seq<Chunk>) {
    forall c :: 0 <= c < |chunks| ==> QdrantFilters.InScope(f, chunks[c].payload.fields)
  }

  lemma {:induction false} EntriesInScope(resultSets: seq<seq<Hit>>, config: Fusion.Config, f: QdrantFilters.RetrievalFilter)
    requires Fusion.AllUsable(resultSets, config)
    requires SetsInScope(f, resultSets)
    ensures forall e :: 0 <= e < |Fusion.AllEntries(resultSets, config)| ==>
              QdrantFilters.InScope(f, Fusion.AllEntries(resultSets, config)[e].hit.payload.fields)
  {
    if resultSets != [] {
      var last := |resultSets| - 1;
      EntriesInScope(resultSets[..last], config, f);
      forall i | 0 <= i < |resultSets[last]|
        ensures Fusion.SetEntries(resultSets[last], config)[i].hit == resultSets[last][i]
      {
      }
    }
  }

  /** A fused list is sorted, its keys differ, and it stays in every scope of its inputs. */
  lemma {:induction false} FusedListFacts(resultSets: seq<seq<Hit>>, config: Fusion.Config, limit: int, fused: seq<Hit>)
    requires Fusion.AllUsable(resultSets, config)
    requires Fusion.IsFusion(Fusion.AllEntries(resultSets, config), Fusion.KeysOf(fused, config.dedupeKey), limit, fused)
    ensures ScoresDescend(fused) && KeysDiffer(fused, config.dedupeKey)
    ensures forall f :: SetsInScope(f, resultSets) ==> AllInScope(f, fused)
  {
    var entries, keys := Fusion.AllEntries(resultSets, config), Fusion.KeysOf(fused, config.dedupeKey);
    forall i, j | 0 <= i < j < |fused|
      ensures fused[i].score >= fused[j].score
      ensures DedupeKey(fused[i].payload, config.dedupeKey) != DedupeKey(fused[j].payload, config.dedupeKey)
    {
      assert Fusion.Beats(entries, keys[i], keys[j]) && keys[i] != keys[j];
      assert Fusion.IsFusedHit(entries, keys[i], fused[i], i + 1) && Fusion.IsFusedHit(entries, keys[j], fused[j], j + 1);
    }
    forall f | SetsInScope(f, resultSets)
      ensures AllInScope(f, fused)
    {
      EntriesInScope(resultSets, config, f);
      forall i | 0 <= i < |fused|
        ensures QdrantFilters.InScope(f, fused[i].payload.fields)
      {
        var m := Fusion.RepresentativeIsFirstLongest(entries, keys[i]);
        assert Fusion.IsFusedHit(entries, keys[i], fused[i], i + 1);
        assert fused[i].payload == entries[m].hit.payload;
      }
    }
  }

  /** The payload of a fused hit is that of a hit of some result set. */
  lemma PayloadComesFrom(resultSets: seq<seq<Hit>>, config: Fusion.Config, limit: int, fused: seq<Hit>, p: nat)
    returns (s: nat, i: nat)
    requires Fusion.AllUsable(resultSets, config) && p < |fused|
    requires Fusion.IsFusion(Fusion.AllEntries(resultSets, config), Fusion.KeysOf(fused, config.dedupeKey), limit, fused)
    ensures s < |resultSets| && i < |resultSets[s]| && fused[p].payload == resultSets[s][i].payload
  {
    var entries, keys := Fusion.AllEntries(resultSets, config), Fusion.KeysOf(fused, config.dedupeKey);
    var m := Fusion.RepresentativeIsFirstLongest(entries, keys[p]);
    assert Fusion.IsFusedHit(entries, keys[p], fused[p], p + 1);
    s, i := EntryComesFrom(resultSets, config, m);
  }

  lemma {:induction false} EntryComesFrom(resultSets: seq<seq<Hit>>, config: Fusion.Config, e: nat) returns (s: nat, i: nat)
    requires Fusion.AllUsable(resultSets, config) && e < |Fusion.AllEntries(resultSets, config)|
    ensures s < |resultSets| && i < |resultSets[s]| && Fusion.AllEntries(resultSets, config)[e].hit == resultSets[s][i]
  {
    var last := |resultSets| - 1;
    var before := Fusion.AllEntries(resultSets[..last], config);
    if e < |before| {
      s, i := EntryComesFrom(resultSets[..last], config, e);
    } else {
      s, i := last, e - |before|;
      assert Fusion.SetEntries(resultSets[last], config)[i].hit == resultSets[last][i];
    }
  }

  ghost predicate SetsNotEmpty(resultSets: seq<seq<Hit>>) {
    forall s :: 0 <= s < |resultSets| ==> NoneEmpty(resultSets[s])
  }

  lemma FusedNoneEmpty(resultSets: seq<seq<Hit>>, config: Fusion.Config, limit: int, fused: seq<Hit>)
    requires Fusion.AllUsable(resultSets, config) && SetsNotEmpty(resultSets)
    requires Fusion.IsFusion(Fusion.AllEntries(resultSets, config), Fusion.KeysOf(fused, config.dedupeKey), limit, fused)
    ensures NoneEmpty(fused)
  {
    forall p | 0 <= p < |fused|
      ensures fused[p].payload.fields != map[]
    {
      var s, i := PayloadComesFrom(resultSets, config, limit, fused, p);
    }
  }

  lemma BoostedNoneEmpty(hits: seq<Hit>, queryKeys: set<string>, boost: real, ranked: seq<Hit>)
    requires IsBoosting(hits, queryKeys, boost, ranked) && NoneEmpty(hits)
    ensures NoneEmpty(ranked) && |ranked| == |hits|
  {
    if hits != [] && queryKeys != {} && boost > 0.0 {
      var boosted := BoostAll(hits, queryKeys, boost);
      assert |multiset(ranked)| == |multiset(boosted)|;
      forall i | 0 <= i < |ranked|
        ensures ranked[i].payload.fields != map[]
      {
        assert ranked[i] in multiset(boosted);
        var p :| 0 <= p < |boosted| && boosted[p] == ranked[i];
      }
    }
  }

  /** Boosting keeps all of that. */
  lemma BoostedListFacts(hits: seq<Hit>, queryKeys: set<string>, boost: real, ranked: seq<Hit>, dedupeKey: string)
    requires IsBoosting(hits, queryKeys, boost, ranked) && ScoresDescend(hits) && KeysDiffer(hits, dedupeKey)
    ensures ScoresDescend(ranked) && KeysDiffer(ranked, dedupeKey)
    ensures forall f :: AllInScope(f, hits) ==> AllInScope(f, ranked)
  {
    if hits == [] || queryKeys == {} || boost <= 0.0 {
      return;
    }
    var boosted := BoostAll(hits, queryKeys, boost);
    assert forall i :: 0 <= i < |hits| ==> boosted[i].payload == hits[i].payload;
    PermutationKeepsKeysApart(boosted, ranked, dedupeKey);
    forall f | AllInScope(f, hits)
      ensures AllInScope(f, ranked)
    {
      forall i | 0 <= i < |ranked|
        ensures QdrantFilters.InScope(f, ranked[i].payload.fields)
      {
        assert ranked[i] in multiset(boosted);
        var p :| 0 <= p < |boosted| && boosted[p] == ranked[i];
      }
    }
  }

  /** The hybrid branch of `search` without a reranker: fuse, boost if asked to, cut to `top_k`.
      The chunks are exactly the nonempty ones of the first `topK` ranked hits, in order, best first, no
      two with the same key, and none from outside a scope that all retrievers kept to. */
  method HybridChunks(
    resultSets: seq<seq<Hit>>, config: Fusion.Config, candidateCount: int,
    boosting: bool, queryKeys: set<string>, boost: real, topK: nat)
    returns (chunks: seq<Chunk>, ghost fused: seq<Hit>, ghost ranked: seq<Hit>, ghost places: seq<nat>)
    requires Fusion.AllUsable(resultSets, config)
    ensures Fusion.IsFusion(Fusion.AllEntries(resultSets, config), Fusion.KeysOf(fused, config.dedupeKey),
                            candidateCount, fused)
    ensures if boosting then IsBoosting(fused, queryKeys, boost, ranked) else ranked == fused
    ensures IsCut(ranked, topK, chunks, places)
    ensures NoneEmpty(ranked) ==>
              && |chunks| == Min(topK, |ranked|)
              && forall c :: 0 <= c < |chunks| ==> chunks[c] == Chunk(ranked[c].payload, ranked[c].score)
    ensures SetsNotEmpty(resultSets) ==> NoneEmpty(ranked) && |ranked| == |fused|
    ensures forall c, d :: 0 <= c < d < |chunks| ==> chunks[c].score >= chunks[d].score
    ensures forall c, d :: 0 <= c < d < |chunks| ==>
              DedupeKey(chunks[c].payload, config.dedupeKey) != DedupeKey(chunks[d].payload, config.dedupeKey)
    ensures forall f :: SetsInScope(f, resultSets) ==> ChunksInScope(f, chunks)
  {
    var hits := Fusion.Fuse(resultSets, config, candidateCount);
    fused := hits;
    FusedListFacts(resultSets, config, candidateCount, hits);
    if SetsNotEmpty(resultSets) {
      FusedNoneEmpty(resultSets, config, candidateCount, hits);
    }
    if boosting {
      hits := ApplyEntityBoosts(hits, queryKeys, boost);
      BoostedListFacts(fused, queryKeys, boost, hits, config.dedupeKey);
      if SetsNotEmpty(resultSets) {
        BoostedNoneEmpty(fused, queryKeys, boost, hits);
      }
    }
    ranked := hits;
    chunks := TopChunks(hits, topK);
    places := CutOf(hits, topK);
    TopChunksLemma(hits, topK, config.dedupeKey);
    if NoneEmpty(hits) {
      TopChunksOfFull(hits, topK);
    }
  }

  // ---- from the filter to the chunks ----

  ghost predicate SetsMatch(must: seq<QdrantFilters.Condition>, resultSets: seq<seq<Hit>>) {
    forall s, i :: 0 <= s < |resultSets| && 0 <= i < |resultSets[s]| ==>
      QdrantFilters.Matches(must, resultSets[s][i].payload.fields)
  }

  /** The retrievers return, for any conditions, only hits that meet them, as the store promises. */
  ghost predicate Obeys(retrieve: seq<QdrantFilters.Condition> -> seq<seq<Hit>>) {
    forall must :: SetsMatch(must, retrieve(must))
  }

  /** A hybrid search without a reranker, from its scope filter on: the filter is rendered, the
      retrievers search with it, and their hits are fused, boosted and cut. Whatever they return under
      the conditions they were given, no chunk is from outside the scope; the chunks are the nonempty
      ones of the first `topK` ranked hits, and when no retrieved payload is empty, there are as many as
      distinct keys were retrieved, up to `candidateCount` and `topK`. */
  method HybridSearch(
    filter: QdrantFilters.RetrievalFilter, retrieve: seq<QdrantFilters.Condition> -> seq<seq<Hit>>,
    config: Fusion.Config, candidateCount: int, boosting: bool, queryKeys: set<string>, boost: real, topK: nat)
    returns (chunks: seq<Chunk>, ghost resultSets: seq<seq<Hit>>, ghost fused: seq<Hit>, ghost ranked: seq<Hit>,
             ghost places: seq<nat>)
    requires Obeys(retrieve) && forall must :: Fusion.AllUsable(retrieve(must), config)
    ensures exists must :: (forall fields :: QdrantFilters.Matches(must, fields) <==> QdrantFilters.InScope(filter, fields))
              && resultSets == retrieve(must)
    ensures Fusion.IsFusion(Fusion.AllEntries(resultSets, config), Fusion.KeysOf(fused, config.dedupeKey),
                            candidateCount, fused)
    ensures if boosting then IsBoosting(fused, queryKeys, boost, ranked) else ranked == fused
    ensures IsCut(ranked, topK, chunks, places) && ChunksInScope(filter, chunks)
    ensures SetsNotEmpty(resultSets) && candidateCount >= 0 ==>
              |chunks| == Min(topK, Min(candidateCount, |FusionLaws.KeySet(resultSets, config.dedupeKey)|))
    ensures forall c, d :: 0 <= c < d < |chunks| ==> chunks[c].score >= chunks[d].score
    ensures forall c, d :: 0 <= c < d < |chunks| ==>
              DedupeKey(chunks[c].payload, config.dedupeKey) != DedupeKey(chunks[d].payload, config.dedupeKey)
  {
    var must := QdrantFilters.BuildQdrantFilter(filter);
    var retrieved := retrieve(must);
    resultSets := retrieved;
    assert SetsMatch(must, resultSets);
    assert SetsInScope(filter, resultSets);
    chunks, fused, ranked, places := HybridChunks(retrieved, config, candidateCount, boosting, queryKeys, boost, topK);
    FusionLaws.FusedCount(resultSets, config, candidateCount, fused);
  }
}
