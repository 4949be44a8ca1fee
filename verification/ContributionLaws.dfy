/** Laws of single contributions: what a fused hit says, what one hit gives to its key, and how weighted
    fusion orders hits. */
module ContributionLaws {
  import opened Common
  import opened Retrieval
  import opened Fusion
  import opened FusionLaws
  import opened Separators
  import Text

  // ---- what a fused hit says ----

  /** The name under which a source is stored. */
  function SourceName(source: Source): string {
    match source
    case Bm25 => "bm25"
    case Dense => "dense"
    case Hybrid => "hybrid"
    case MetadataSource => "metadata"
  }

  /** The place of a source name in the alphabet of source names. */
  function NamePlace(name: string): nat {
    if name == "bm25" then 0 else if name == "dense" then 1 else if name == "hybrid" then 2
    else if name == "metadata" then 3 else 4
  }

  /** Names of sources in alphabetical order, all before a given place. */
  ghost predicate AlphabeticalBelow(names: seq<string>, place: nat) {
    && (forall i :: 0 <= i < |names| ==> NamePlace(names[i]) < place)
    && forall i, j :: 0 <= i < j < |names| ==> NamePlace(names[i]) < NamePlace(names[j])
  }

  lemma AlphabeticalSnoc(names: seq<string>, name: string, present: bool)
    requires AlphabeticalBelow(names, NamePlace(name))
    ensures AlphabeticalBelow(names + if present then [name] else [], NamePlace(name) + 1)
  {
  }

  lemma PlacesOfNames()
    ensures NamePlace("bm25") == 0 && NamePlace("dense") == 1 && NamePlace("hybrid") == 2 && NamePlace("metadata") == 3
  {
  }

  lemma NamesAscend(sources: set<Source>)
    ensures AlphabeticalBelow(SortedNames(sources), 4)
  {
    var a := if Bm25 in sources then ["bm25"] else [];
    var b := a + if Dense in sources then ["dense"] else [];
    var c := b + if Hybrid in sources then ["hybrid"] else [];
    PlacesOfNames();
    assert AlphabeticalBelow(a, 1);
    AlphabeticalSnoc(a, "dense", Dense in sources);
    assert AlphabeticalBelow(b, 2);
    AlphabeticalSnoc(b, "hybrid", Hybrid in sources);
    assert AlphabeticalBelow(c, 3);
    AlphabeticalSnoc(c, "metadata", MetadataSource in sources);
  }

  lemma NameIsSorted(sources: set<Source>, source: Source)
    ensures SourceName(source) in SortedNames(sources) <==> source in sources
  {
  }

  /** The names of the sources that gave hits of the key, in alphabetical order. */
  ghost predicate NamesSources(note: Note, entries: seq<Entry>, key: string) {
    && note.Names? && AlphabeticalBelow(note.names, 4)
    && forall source :: SourceName(source) in note.names <==>
         exists e :: 0 <= e < |entries| && entries[e].key == key && entries[e].hit.source == source
  }

  lemma SourcesAreNamed(entries: seq<Entry>, key: string)
    ensures NamesSources(Names(SortedNames(SourcesOf(entries, key))), entries, key)
  {
    var sources := SourcesOf(entries, key);
    NamesAscend(sources);
    forall source: Source
      ensures SourceName(source) in SortedNames(sources) <==>
              exists e :: 0 <= e < |entries| && entries[e].key == key && entries[e].hit.source == source
    {
      NameIsSorted(sources, source);
    }
  }

  /** The fused hit at place `p`: the payload, the raw score and the other metadata are those of the first
      hit with the longest text among the hits of its key; score, rank and sources are those of the key. */
  lemma FusedHitSays(entries: seq<Entry>, keys: seq<string>, limit: int, fused: seq<Hit>, p: nat) returns (m: nat)
    requires IsFusion(entries, keys, limit, fused) && p < |fused|
    ensures FirstLongest(entries, m) && entries[m].key == keys[p] && fused[p].payload == entries[m].hit.payload
    ensures fused[p].score == Total(entries, keys[p]) && fused[p].rank == Some(p + 1) && fused[p].source == Hybrid
    ensures fused[p].metadata.Keys == entries[m].hit.metadata.Keys + {"base_score", "retrieval_sources"}
    ensures fused[p].metadata["base_score"] == Score(entries[m].hit.score)
    ensures NamesSources(fused[p].metadata["retrieval_sources"], entries, keys[p])
    ensures forall k :: k in entries[m].hit.metadata && k != "base_score" && k != "retrieval_sources" ==>
              fused[p].metadata[k] == entries[m].hit.metadata[k]
  {
    m := RepresentativeIsFirstLongest(entries, keys[p]);
    assert IsFusedHit(entries, keys[p], fused[p], p + 1);
    SourcesAreNamed(entries, keys[p]);
  }

  /** The payload's id under `name`, if it is one that counts. */
  predicate HasId(payload: Payload, name: string, id: string) {
    name in payload.fields && payload.fields[name] == Words(id) && id != ""
  }

  predicate HasNoId(payload: Payload, name: string) {
    name in payload.fields ==> payload.fields[name] in {Words(""), Number(0)}
  }

  /** Two hits are merged by the first of the preferred key, `chunk_id` and `payload_id` that both payloads
      have, when they lack the ones before: exactly if these ids are equal. */
  lemma MergedByFirstId(a: Payload, b: Payload, preferred: string, n: nat, ida: string, idb: string)
    requires n < 3 && var names := [preferred, "chunk_id", "payload_id"];
             && (forall i :: 0 <= i < n ==> HasNoId(a, names[i]) && HasNoId(b, names[i]))
             && HasId(a, names[n], ida) && HasId(b, names[n], idb)
    ensures DedupeKey(a, preferred) == DedupeKey(b, preferred) <==> ida == idb
  {
    var names := [preferred, "chunk_id", "payload_id"];
    assert names[0] == preferred && names[1] == "chunk_id" && names[2] == "payload_id";
  }

  /** The place of a chunk in its document, and its text. */
  function PlaceAndText(payload: Payload): seq<string> {
    [Field(payload, "project_id"), Field(payload, "user_id"), Field(payload, "kb_id"), Field(payload, "doc_id"),
     Field(payload, "chunk_index"), Field(payload, "text")]
  }

  /** Without any id, hits are merged exactly if place and text are the same, when no field of the place holds
      the separator. */
  lemma MergedByPlace(a: Payload, b: Payload, preferred: string)
    requires HasNoId(a, preferred) && HasNoId(a, "chunk_id") && HasNoId(a, "payload_id")
    requires HasNoId(b, preferred) && HasNoId(b, "chunk_id") && HasNoId(b, "payload_id")
    requires FreeBut(PlaceAndText(a), 5, '|') && FreeBut(PlaceAndText(b), 5, '|')
    ensures DedupeKey(a, preferred) == DedupeKey(b, preferred) <==> PlaceAndText(a) == PlaceAndText(b)
  {
    if Text.Join("|", PlaceAndText(a)) == Text.Join("|", PlaceAndText(b)) {
      JoinInjectiveBut(PlaceAndText(a), PlaceAndText(b), 5, '|');
    }
  }

  // ---- min-max normalisation ----

  ghost predicate IsBest(hits: seq<Hit>, b: nat) {
    b < |hits| && forall i :: 0 <= i < |hits| ==> hits[i].score <= hits[b].score
  }

  ghost predicate IsWorst(hits: seq<Hit>, w: nat) {
    w < |hits| && forall i :: 0 <= i < |hits| ==> hits[w].score <= hits[i].score
  }

  lemma {:induction false} ExtremesAttained(hits: seq<Hit>) returns (b: nat, w: nat)
    requires hits != []
    ensures b < |hits| && hits[b].score == MaxScore(hits)
    ensures w < |hits| && hits[w].score == MinScore(hits)
  {
    b, w := 0, 0;
    if |hits| > 1 {
      var b', w' := ExtremesAttained(hits[1..]);
      b := if hits[0].score >= hits[b' + 1].score then 0 else b' + 1;
      w := if hits[0].score <= hits[w' + 1].score then 0 else w' + 1;
    }
  }

  lemma ExtremesAre(hits: seq<Hit>, b: nat, w: nat)
    requires IsBest(hits, b) && IsWorst(hits, w)
    ensures MaxScore(hits) == hits[b].score && MinScore(hits) == hits[w].score
  {
    var b', w' := ExtremesAttained(hits);
    ExtremesBound(hits, b);
    ExtremesBound(hits, w);
  }

  lemma UnitScoreProportion(x: real, low: real, high: real)
    requires low < high
    ensures UnitScore(x, low, high) * (high - low) == x - low
  {
  }

  /** Normalised scores divide the way from the worst score to the best in proportion; if all scores
      are the same, each is one. */
  lemma NormalizedIsProportional(hits: seq<Hit>, b: nat, w: nat, i: nat)
    requires IsBest(hits, b) && IsWorst(hits, w) && i < |hits|
    ensures Normalized(hits, i) * (hits[b].score - hits[w].score) == hits[i].score - hits[w].score
    ensures hits[b].score == hits[w].score ==> Normalized(hits, i) == 1.0
  {
    ExtremesAre(hits, b, w);
    if hits[w].score < hits[b].score {
      UnitScoreProportion(hits[i].score, hits[w].score, hits[b].score);
    } else {
      assert hits[b].score - hits[w].score == 0.0 && hits[i].score == hits[w].score;
    }
  }

  lemma ProductOrder(x: real, y: real, d: real)
    requires d > 0.0
    ensures x * d <= y * d <==> x <= y
  {
    if x > y {
      assert (x - y) * d > 0.0;
    } else {
      assert (y - x) * d >= 0.0;
    }
  }

  lemma ProportionKeepsOrder(x: real, y: real, d: real, a: real, b: real, low: real)
    requires d > 0.0 && x * d == a - low && y * d == b - low
    ensures a <= b <==> x <= y
    ensures x == 1.0 <==> a - low == d
    ensures x == 0.0 <==> a == low
  {
    ProductOrder(x, y, d);
    ProductOrder(x, 1.0, d);
    ProductOrder(1.0, x, d);
    ProductOrder(x, 0.0, d);
    ProductOrder(0.0, x, d);
  }

  lemma NormalizedBetween(hits: seq<Hit>, b: nat, w: nat, i: nat, j: nat)
    requires IsBest(hits, b) && IsWorst(hits, w) && hits[w].score != hits[b].score && i < |hits| && j < |hits|
    ensures hits[i].score <= hits[j].score <==> Normalized(hits, i) <= Normalized(hits, j)
    ensures Normalized(hits, i) == 1.0 <==> hits[i].score == hits[b].score
    ensures Normalized(hits, i) == 0.0 <==> hits[i].score == hits[w].score
  {
    NormalizedIsProportional(hits, b, w, i);
    NormalizedIsProportional(hits, b, w, j);
    ProportionKeepsOrder(Normalized(hits, i), Normalized(hits, j), hits[b].score - hits[w].score,
                         hits[i].score, hits[j].score, hits[w].score);
  }

  lemma BestAndWorst(hits: seq<Hit>) returns (b: nat, w: nat)
    requires hits != []
    ensures IsBest(hits, b) && IsWorst(hits, w)
  {
    b, w := ExtremesAttained(hits);
    forall m | 0 <= m < |hits|
      ensures hits[w].score <= hits[m].score <= hits[b].score
    {
      ExtremesBound(hits, m);
    }
  }

  /** In a set of unequal scores, normalisation keeps the order of the scores; the best get one and the
      worst get zero. */
  lemma NormalizedKeepsOrder(hits: seq<Hit>, i: nat, j: nat, k: nat, l: nat)
    requires i < |hits| && j < |hits|
    requires k < |hits| && l < |hits| && hits[k].score != hits[l].score
    ensures hits[i].score <= hits[j].score <==> Normalized(hits, i) <= Normalized(hits, j)
    ensures Normalized(hits, i) == 1.0 <==> IsBest(hits, i)
    ensures Normalized(hits, i) == 0.0 <==> IsWorst(hits, i)
  {
    var b, w := BestAndWorst(hits);
    NormalizedBetween(hits, b, w, i, j);
  }

  // ---- a key that a single hit has ----

  /** Only the hit at `i` of set `s` has its key. */
  ghost predicate IsSole(resultSets: seq<seq<Hit>>, dedupeKey: string, s: nat, i: nat) {
    && s < |resultSets| && i < |resultSets[s]|
    && forall t, j :: 0 <= t < |resultSets| && 0 <= j < |resultSets[t]| && (t != s || j != i) ==>
         DedupeKey(resultSets[t][j].payload, dedupeKey) != DedupeKey(resultSets[s][i].payload, dedupeKey)
  }

  lemma {:induction false} SetTotal(hits: seq<Hit>, config: Config, key: string, i: nat, n: nat)
    requires Usable(hits, config) && n <= |hits|
    requires forall j :: 0 <= j < |hits| && j != i ==> DedupeKey(hits[j].payload, config.dedupeKey) != key
    ensures Total(SetEntries(hits, config)[..n], key)
         == if i < n && DedupeKey(hits[i].payload, config.dedupeKey) == key then SetEntry(hits, i, config).amount else 0.0
  {
    if n > 0 {
      SetTotal(hits, config, key, i, n - 1);
      var entries := SetEntries(hits, config)[..n];
      assert entries[..n - 1] == SetEntries(hits, config)[..n - 1];
      assert entries[n - 1] == SetEntry(hits, n - 1, config);
    }
  }

  lemma {:induction false} SumOfSole(resultSets: seq<seq<Hit>>, config: Config, key: string, s: nat, i: nat)
    requires AllUsable(resultSets, config)
    requires s < |resultSets| ==> i < |resultSets[s]| && DedupeKey(resultSets[s][i].payload, config.dedupeKey) == key
    requires forall t, j :: 0 <= t < |resultSets| && 0 <= j < |resultSets[t]| && (t != s || j != i) ==>
               DedupeKey(resultSets[t][j].payload, config.dedupeKey) != key
    ensures SetSum(resultSets, config, key) == if s < |resultSets| then SetEntry(resultSets[s], i, config).amount else 0.0
  {
    if resultSets != [] {
      var last := |resultSets| - 1;
      SumOfSole(resultSets[..last], config, key, s, i);
      SetTotal(resultSets[last], config, key, if s == last then i else |resultSets[last]|, |resultSets[last]|);
      assert SetEntries(resultSets[last], config)[..|resultSets[last]|] == SetEntries(resultSets[last], config);
    }
  }

  /** The fused score of a key that a single hit has is what that hit contributes. */
  lemma SoleScore(resultSets: seq<seq<Hit>>, config: Config, limit: int, fused: seq<Hit>, s: nat, i: nat, p: nat)
    requires AllUsable(resultSets, config) && IsSole(resultSets, config.dedupeKey, s, i)
    requires IsFusion(AllEntries(resultSets, config), KeysOf(fused, config.dedupeKey), limit, fused) && p < |fused|
    requires DedupeKey(fused[p].payload, config.dedupeKey) == DedupeKey(resultSets[s][i].payload, config.dedupeKey)
    ensures fused[p].score == SetEntry(resultSets[s], i, config).amount
  {
    var key := DedupeKey(resultSets[s][i].payload, config.dedupeKey);
    assert KeysOf(fused, config.dedupeKey)[p] == key;
    assert IsFusedHit(AllEntries(resultSets, config), key, fused[p], p + 1);
    TotalIsSetSum(resultSets, config, key);
    SumOfSole(resultSets, config, key, s, i);
  }

  /** Reciprocal-rank fusion, for such a key: the weight of the hit's own source over `rrf_k` plus its
      rank, which is its place in the set, counted from one, when the hit has no rank or rank zero. */
  lemma SoleReciprocalScore(
    resultSets: seq<seq<Hit>>, config: Config, limit: int, fused: seq<Hit>, s: nat, i: nat, p: nat, rank: int)
    requires config.fusionMethod == "rrf" && AllUsable(resultSets, config) && IsSole(resultSets, config.dedupeKey, s, i)
    requires IsFusion(AllEntries(resultSets, config), KeysOf(fused, config.dedupeKey), limit, fused) && p < |fused|
    requires DedupeKey(fused[p].payload, config.dedupeKey) == DedupeKey(resultSets[s][i].payload, config.dedupeKey)
    requires var given := resultSets[s][i].rank; rank == if given.None? || given.value == 0 then i + 1 else given.value
    ensures config.rrfK + rank != 0
    ensures var source, d := resultSets[s][i].source, (config.rrfK + rank) as real;
            && (source == Dense ==> fused[p].score == config.denseWeight / d)
            && (source == Bm25 ==> fused[p].score == config.bm25Weight / d)
            && (source != Dense && source != Bm25 ==> fused[p].score == 1.0 / d)
  {
    SoleScore(resultSets, config, limit, fused, s, i, p);
    assert Usable(resultSets[s], config);
  }

  lemma WeightedAmount(hits: seq<Hit>, config: Config, i: nat)
    requires config.fusionMethod != "rrf" && i < |hits|
    ensures SetEntry(hits, i, config).amount == SourceWeight(hits[i].source, config) * Normalized(hits, i)
  {
  }

  /** `amount` is the weight that a source has, times `x`. */
  predicate IsShare(amount: real, x: real, source: Source, config: Config) {
    && (source == Dense ==> amount == config.denseWeight * x)
    && (source == Bm25 ==> amount == config.bm25Weight * x)
    && (source != Dense && source != Bm25 ==> amount == x)
  }

  lemma WeightedShare(hits: seq<Hit>, config: Config, i: nat)
    requires config.fusionMethod != "rrf" && i < |hits|
    ensures IsShare(SetEntry(hits, i, config).amount, Normalized(hits, i), hits[i].source, config)
  {
    assert 1.0 * Normalized(hits, i) == Normalized(hits, i);
  }

  /** Weighted fusion, for such a key: the same weight times the normalised score. */
  lemma SoleWeightedScore(
    resultSets: seq<seq<Hit>>, config: Config, limit: int, fused: seq<Hit>, s: nat, i: nat, p: nat)
    requires config.fusionMethod != "rrf" && IsSole(resultSets, config.dedupeKey, s, i)
    requires IsFusion(AllEntries(resultSets, config), KeysOf(fused, config.dedupeKey), limit, fused) && p < |fused|
    requires DedupeKey(fused[p].payload, config.dedupeKey) == DedupeKey(resultSets[s][i].payload, config.dedupeKey)
    ensures IsShare(fused[p].score, Normalized(resultSets[s], i), resultSets[s][i].source, config)
  {
    SoleScore(resultSets, config, limit, fused, s, i, p);
    WeightedShare(resultSets[s], config, i);
  }

  // ---- one set is fused in the order of its scores ----

  ghost predicate OneSource(hits: seq<Hit>, source: Source) {
    forall i :: 0 <= i < |hits| ==> hits[i].source == source
  }

  lemma TotalSnoc(entries: seq<Entry>, e: Entry, key: string)
    ensures Total(entries + [e], key) == Total(entries, key) + if e.key == key then e.amount else 0.0
  {
    assert (entries + [e])[..|entries|] == entries;
  }

  lemma FirstKeysSnoc(entries: seq<Entry>, e: Entry)
    ensures FirstKeys(entries + [e]) == FirstKeys(entries) + if e.key in FirstKeys(entries) then [] else [e.key]
  {
    assert (entries + [e])[..|entries|] == entries;
  }

  lemma {:induction false} KeysInOrder(entries: seq<Entry>)
    requires forall i, j :: 0 <= i < j < |entries| ==> entries[i].key != entries[j].key
    ensures |FirstKeys(entries)| == |entries|
    ensures forall i :: 0 <= i < |entries| ==> FirstKeys(entries)[i] == entries[i].key
  {
    if entries != [] {
      var before, last := entries[..|entries| - 1], entries[|entries| - 1];
      KeysInOrder(before);
      assert forall i :: 0 <= i < |before| ==> FirstKeys(before)[i] == entries[i].key != last.key;
    }
  }

  lemma PositionsInSet(hits: seq<Hit>, config: Config)
    requires Usable(hits, config) && KeysDiffer(hits, config.dedupeKey)
    ensures |FirstKeys(SetEntries(hits, config))| == |hits|
    ensures forall i :: 0 <= i < |hits| ==> FirstKeys(SetEntries(hits, config))[i] == DedupeKey(hits[i].payload, config.dedupeKey)
  {
    forall i | 0 <= i < |hits|
      ensures SetEntries(hits, config)[i].key == DedupeKey(hits[i].payload, config.dedupeKey)
    {
      EntryKey(hits, i, config);
    }
    KeysInOrder(SetEntries(hits, config));
  }

  lemma OneSet(hits: seq<Hit>, config: Config)
    requires Usable(hits, config)
    ensures AllUsable([hits], config) && AllEntries([hits], config) == SetEntries(hits, config)
  {
    assert [hits][..0] == [];
    assert AllEntries([hits], config) == [] + SetEntries(hits, config);
  }

  /** In a fused set with distinct keys, a hit before another contributes more, or as much and was met
      earlier. */
  lemma OneSetOrder(hits: seq<Hit>, config: Config, limit: int, fused: seq<Hit>, p: nat, q: nat, i: nat, j: nat)
    requires Usable(hits, config) && KeysDiffer(hits, config.dedupeKey)
    requires IsFusion(SetEntries(hits, config), KeysOf(fused, config.dedupeKey), limit, fused)
    requires p < q < |fused| && i < |hits| && j < |hits|
    requires DedupeKey(fused[p].payload, config.dedupeKey) == DedupeKey(hits[i].payload, config.dedupeKey)
    requires DedupeKey(fused[q].payload, config.dedupeKey) == DedupeKey(hits[j].payload, config.dedupeKey)
    ensures var x, y := SetEntry(hits, i, config).amount, SetEntry(hits, j, config).amount;
            x > y || (x == y && i < j)
  {
    var entries, keys := SetEntries(hits, config), KeysOf(fused, config.dedupeKey);
    assert Beats(entries, keys[p], keys[q]);
    SetTotal(hits, config, keys[p], i, |hits|);
    SetTotal(hits, config, keys[q], j, |hits|);
    assert entries[..|hits|] == entries;
    PositionsInSet(hits, config);
    FirstKeysDistinct(entries);
    PositionAt(FirstKeys(entries), i);
    PositionAt(FirstKeys(entries), j);
  }

  lemma ScaledOrder(weight: real, x: real, y: real, a: real, b: real)
    requires weight > 0.0 && a == weight * x && b == weight * y
    ensures a > b <==> x > y
  {
    ProductOrder(x, y, weight);
  }

  lemma WeightedOrder(hits: seq<Hit>, config: Config, i: nat, j: nat)
    requires config.fusionMethod != "rrf" && i < |hits| && j < |hits|
    requires hits[i].source == hits[j].source && SourceWeight(hits[i].source, config) > 0.0
    ensures SetEntry(hits, i, config).amount > SetEntry(hits, j, config).amount <==> Normalized(hits, i) > Normalized(hits, j)
  {
    WeightedAmount(hits, config, i);
    WeightedAmount(hits, config, j);
    assert SourceWeight(hits[i].source, config) == SourceWeight(hits[j].source, config);
    ScaledOrder(SourceWeight(hits[i].source, config), Normalized(hits, i), Normalized(hits, j),
                SetEntry(hits, i, config).amount, SetEntry(hits, j, config).amount);
  }

  lemma SmallerScoreIsSmaller(hits: seq<Hit>, i: nat, j: nat)
    requires i < |hits| && j < |hits|
    ensures hits[i].score > hits[j].score <==> Normalized(hits, i) > Normalized(hits, j)
  {
    if hits[i].score != hits[j].score {
      NormalizedKeepsOrder(hits, i, j, i, j);
    }
  }

  /** Weighted fusion of one set with distinct keys, one source and a positive weight ranks the hits by
      their raw scores, best first, and equal ones in the order of the set. */
  lemma WeightedOneSetByScore(
    hits: seq<Hit>, source: Source, config: Config, limit: int, fused: seq<Hit>, p: nat, q: nat, i: nat, j: nat)
    requires config.fusionMethod != "rrf" && KeysDiffer(hits, config.dedupeKey) && OneSource(hits, source)
    requires SourceWeight(source, config) > 0.0
    requires IsFusion(AllEntries([hits], config), KeysOf(fused, config.dedupeKey), limit, fused)
    requires p < q < |fused| && i < |hits| && j < |hits|
    requires DedupeKey(fused[p].payload, config.dedupeKey) == DedupeKey(hits[i].payload, config.dedupeKey)
    requires DedupeKey(fused[q].payload, config.dedupeKey) == DedupeKey(hits[j].payload, config.dedupeKey)
    ensures hits[i].score > hits[j].score || (hits[i].score == hits[j].score && i < j)
  {
    OneSet(hits, config);
    OneSetOrder(hits, config, limit, fused, p, q, i, j);
    WeightedOrder(hits, config, i, j);
    WeightedOrder(hits, config, j, i);
    SmallerScoreIsSmaller(hits, i, j);
    SmallerScoreIsSmaller(hits, j, i);
  }

  // ---- raising one score ----

  /** The result sets with the raw score of one hit replaced. */
  function WithScore(resultSets: seq<seq<Hit>>, s: nat, i: nat, score: real): seq<seq<Hit>>
    requires s < |resultSets| && i < |resultSets[s]|
  {
    resultSets[s := resultSets[s][i := resultSets[s][i].(score := score)]]
  }

  /** Moving both ends of the range up does not move a score between them up. */
  lemma FractionShrinks(x: real, low: real, high: real, low': real, high': real)
    requires low <= low' <= x <= high <= high' && low < high && low' < high'
    ensures UnitScore(x, low', high') <= UnitScore(x, low, high)
  {
    var n, m := UnitScore(x, low, high), UnitScore(x, low', high');
    UnitScoreProportion(x, low, high);
    UnitScoreProportion(x, low', high');
    WeightedNotBelow(x - low, high - low', high' - low');
    assert (x - low) * (high - low') - (x - low') * (high - low) == (high - x) * (low' - low);
    WeightedNotBelow(high - x, 0.0, low' - low);
    CrossMultiply(m, x - low', high' - low', n, x - low, high - low);
  }

  lemma CrossMultiply(m: real, a: real, c: real, n: real, b: real, d: real)
    requires c > 0.0 && d > 0.0 && m * c == a && n * d == b && a * d <= b * c
    ensures m <= n
  {
    assert (m * c) * d == m * (c * d) && (n * d) * c == n * (c * d);
    assert c * d > 0.0;
    ProductOrder(m, n, c * d);
  }

  /** What raising the score at `i` does to the ends of the range. */
  lemma RaisedEnds(hits: seq<Hit>, raised: seq<Hit>, i: nat)
    requires i < |hits| == |raised| && raised == hits[i := hits[i].(score := raised[i].score)]
    requires hits[i].score <= raised[i].score
    ensures MinScore(hits) <= MinScore(raised) && MaxScore(hits) <= MaxScore(raised)
    ensures raised[i].score < MaxScore(raised) ==> MaxScore(raised) == MaxScore(hits)
    ensures MinScore(hits) < hits[i].score ==> MinScore(raised) == MinScore(hits)
    ensures MinScore(raised) == MaxScore(raised) ==> forall j :: 0 <= j < |hits| && j != i ==> hits[j].score == MaxScore(hits)
  {
    var b, w := ExtremesAttained(hits);
    var b', w' := ExtremesAttained(raised);
    ExtremesBound(hits, b');
    ExtremesBound(hits, w');
    ExtremesBound(raised, b);
    ExtremesBound(raised, w);
    forall j | 0 <= j < |hits| && j != i && MinScore(raised) == MaxScore(raised)
      ensures hits[j].score == MaxScore(hits)
    {
      ExtremesBound(raised, j);
      ExtremesBound(hits, j);
      ExtremesBound(raised, i);
    }
  }

  lemma OthersDoNotRise(hits: seq<Hit>, raised: seq<Hit>, i: nat, j: nat)
    requires i < |hits| == |raised| && raised == hits[i := hits[i].(score := raised[i].score)]
    requires hits[i].score <= raised[i].score && j < |hits| && j != i
    ensures Normalized(raised, j) <= Normalized(hits, j)
  {
    RaisedEnds(hits, raised, i);
    ExtremesBound(hits, j);
    ExtremesBound(raised, j);
    NormalizedInUnit(raised, j);
    var low, high, low', high' := MinScore(hits), MaxScore(hits), MinScore(raised), MaxScore(raised);
    if low < high && low' < high' {
      FractionShrinks(hits[j].score, low, high, low', high');
    } else if low < high {
      assert hits[j].score - low == high - low;
      BestIsOne(hits[j].score, low, high);
    }
  }

  lemma BestIsOne(x: real, low: real, high: real)
    requires x == high && low <= high
    ensures UnitScore(x, low, high) == 1.0
  {
    if low < high {
      UnitScoreProportion(x, low, high);
      ProductOrder(UnitScore(x, low, high), 1.0, high - low);
      ProductOrder(1.0, UnitScore(x, low, high), high - low);
    }
  }

  lemma RaisedDoesNotFall(hits: seq<Hit>, raised: seq<Hit>, i: nat)
    requires i < |hits| == |raised| && raised == hits[i := hits[i].(score := raised[i].score)]
    requires hits[i].score <= raised[i].score
    ensures Normalized(hits, i) <= Normalized(raised, i)
  {
    RaisedEnds(hits, raised, i);
    ExtremesBound(hits, i);
    ExtremesBound(raised, i);
    NormalizedInUnit(hits, i);
    NormalizedInUnit(raised, i);
    var low, high := MinScore(hits), MaxScore(hits);
    if raised[i].score == MaxScore(raised) {
      BestIsOne(raised[i].score, MinScore(raised), MaxScore(raised));
    } else if low == hits[i].score {
      WorstIsZero(hits[i].score, low, high);
    } else {
      HigherIsHigher(hits[i].score, raised[i].score, low, high);
    }
  }

  lemma WorstIsZero(x: real, low: real, high: real)
    requires x == low < high
    ensures UnitScore(x, low, high) == 0.0
  {
  }

  lemma HigherIsHigher(x: real, y: real, low: real, high: real)
    requires x <= y && low < high
    ensures UnitScore(x, low, high) <= UnitScore(y, low, high)
  {
    UnitScoreProportion(x, low, high);
    UnitScoreProportion(y, low, high);
    ProductOrder(UnitScore(x, low, high), UnitScore(y, low, high), high - low);
  }

  lemma WeightedNotBelow(weight: real, x: real, y: real)
    requires weight >= 0.0 && x <= y
    ensures weight * x <= weight * y
  {
    assert weight * (y - x) >= 0.0;
  }

  lemma ProductsOrder(weight: real, x: real, y: real, a: real, b: real)
    requires weight >= 0.0 && x <= y && a == weight * x && b == weight * y
    ensures a <= b
  {
    WeightedNotBelow(weight, x, y);
  }

  ghost predicate OnlyOfItsKey(hits: seq<Hit>, dedupeKey: string, i: nat)
    requires i < |hits|
  {
    forall j :: 0 <= j < |hits| && j != i ==> DedupeKey(hits[j].payload, dedupeKey) != DedupeKey(hits[i].payload, dedupeKey)
  }

  /** Hits of one source and a nonnegative weight contribute in the order of their normalised scores. */
  lemma WeightedAmountsOrder(hits: seq<Hit>, others: seq<Hit>, j: nat, config: Config)
    requires config.fusionMethod != "rrf" && j < |hits| == |others| && hits[j].source == others[j].source
    requires SourceWeight(hits[j].source, config) >= 0.0 && Normalized(hits, j) <= Normalized(others, j)
    ensures SetEntry(hits, j, config).amount <= SetEntry(others, j, config).amount
  {
    WeightedAmount(hits, config, j);
    WeightedAmount(others, config, j);
    ProductsOrder(SourceWeight(hits[j].source, config), Normalized(hits, j), Normalized(others, j),
                  SetEntry(hits, j, config).amount, SetEntry(others, j, config).amount);
  }

  lemma RaisedAmount(hits: seq<Hit>, raised: seq<Hit>, i: nat, j: nat, config: Config)
    requires i < |hits| == |raised| && raised == hits[i := hits[i].(score := raised[i].score)] && j < |hits|
    requires hits[i].score <= raised[i].score && config.fusionMethod != "rrf"
    requires SourceWeight(hits[j].source, config) >= 0.0
    ensures if j == i then SetEntry(hits, j, config).amount <= SetEntry(raised, j, config).amount
            else SetEntry(hits, j, config).amount >= SetEntry(raised, j, config).amount
  {
    if j == i {
      RaisedDoesNotFall(hits, raised, i);
      WeightedAmountsOrder(hits, raised, j, config);
    } else {
      OthersDoNotRise(hits, raised, i, j);
      WeightedAmountsOrder(raised, hits, j, config);
    }
  }

  lemma RaisedSet(hits: seq<Hit>, raised: seq<Hit>, i: nat, config: Config)
    requires i < |hits| == |raised| && raised == hits[i := hits[i].(score := raised[i].score)]
    requires hits[i].score <= raised[i].score && config.fusionMethod != "rrf"
    requires OnlyOfItsKey(hits, config.dedupeKey, i)
    requires forall j :: 0 <= j < |hits| ==> SourceWeight(hits[j].source, config) >= 0.0
    ensures Raises(SetEntries(hits, config), SetEntries(raised, config), DedupeKey(hits[i].payload, config.dedupeKey))
  {
    var key := DedupeKey(hits[i].payload, config.dedupeKey);
    var entries, others := SetEntries(hits, config), SetEntries(raised, config);
    forall j | 0 <= j < |hits|
      ensures entries[j].key == others[j].key
      ensures if entries[j].key == key then entries[j].amount <= others[j].amount
              else entries[j].amount >= others[j].amount
    {
      RaisedAmount(hits, raised, i, j, config);
      EntryKey(hits, j, config);
      EntryKey(raised, j, config);
    }
  }

  lemma EntryKey(hits: seq<Hit>, j: nat, config: Config)
    requires Usable(hits, config) && j < |hits|
    ensures SetEntries(hits, config)[j].key == DedupeKey(hits[j].payload, config.dedupeKey)
    ensures SetEntries(hits, config)[j].amount == SetEntry(hits, j, config).amount
  {
  }

  /** Weighted fusion: raising the raw score of one hit never worsens the place of its key, if the weights
      in its set are nonnegative and no other hit of the set has its key. Although the range of the set
      moves with the score, no other hit gains by it. */
  lemma {:induction false} BetterScoreNeverHurts(
    resultSets: seq<seq<Hit>>, s: nat, i: nat, score: real, config: Config, limit: int,
    fused: seq<Hit>, otherFused: seq<Hit>)
    requires s < |resultSets| && i < |resultSets[s]| && resultSets[s][i].score <= score
    requires config.fusionMethod != "rrf" && OnlyOfItsKey(resultSets[s], config.dedupeKey, i)
    requires forall j :: 0 <= j < |resultSets[s]| ==> SourceWeight(resultSets[s][j].source, config) >= 0.0
    requires IsFusion(AllEntries(resultSets, config), KeysOf(fused, config.dedupeKey), limit, fused)
    requires IsFusion(AllEntries(WithScore(resultSets, s, i, score), config),
                      KeysOf(otherFused, config.dedupeKey), limit, otherFused)
    ensures NeverLater(DedupeKey(resultSets[s][i].payload, config.dedupeKey), fused, otherFused, config.dedupeKey)
  {
    var changed := WithScore(resultSets, s, i, score);
    var key := DedupeKey(resultSets[s][i].payload, config.dedupeKey);
    RaisedSet(resultSets[s], changed[s], i, config);
    RaisesOneOfMany(resultSets, changed, s, config, key);
    RaisedIsNeverLater(AllEntries(resultSets, config), fused, AllEntries(changed, config), otherFused,
                       config.dedupeKey, limit, key);
  }

  /** Three hits of one key and one of another, with these raw scores. */
  function FourHits(k: Payload, m: Payload, score: real): seq<Hit> {
    [Hit(k, score, Dense, None, map[]), Hit(k, 6.0, Dense, None, map[]), Hit(k, 6.0, Dense, None, map[]),
     Hit(m, 10.0, Dense, None, map[])]
  }

  lemma FourExtremes(k: Payload, m: Payload, score: real)
    requires score <= 6.0
    ensures MinScore(FourHits(k, m, score)) == score && MaxScore(FourHits(k, m, score)) == 10.0
  {
    assert IsBest(FourHits(k, m, score), 3) && IsWorst(FourHits(k, m, score), 0);
    ExtremesAre(FourHits(k, m, score), 3, 0);
  }

  lemma FourTotal(a: Entry, c: Entry, d: Entry, b: Entry, key: string)
    requires a.key == c.key == d.key != b.key && (key == a.key || key == b.key)
    ensures Total([a, c, d, b], key) == if key == a.key then a.amount + c.amount + d.amount else b.amount
  {
    TotalSnoc([], a, key);
    TotalSnoc([a], c, key);
    TotalSnoc([a, c], d, key);
    TotalSnoc([a, c, d], b, key);
    assert [] + [a] == [a] && [a] + [c] == [a, c] && [a, c] + [d] == [a, c, d] && [a, c, d] + [b] == [a, c, d, b];
  }

  lemma FourKeys(a: Entry, c: Entry, d: Entry, b: Entry)
    requires a.key == c.key == d.key != b.key
    ensures FirstKeys([a, c, d, b]) == [a.key, b.key]
  {
    FirstKeysSnoc([], a);
    FirstKeysSnoc([a], c);
    FirstKeysSnoc([a, c], d);
    FirstKeysSnoc([a, c, d], b);
    assert [] + [a] == [a] && [a] + [c] == [a, c] && [a, c] + [d] == [a, c, d] && [a, c, d] + [b] == [a, c, d, b];
  }

  lemma FourTotals(k: Payload, m: Payload, score: real, config: Config)
    requires config.fusionMethod != "rrf" && config.denseWeight == 1.0 && score <= 6.0
    requires DedupeKey(k, config.dedupeKey) != DedupeKey(m, config.dedupeKey)
    ensures var entries := AllEntries([FourHits(k, m, score)], config);
            && Total(entries, DedupeKey(k, config.dedupeKey)) == 2.0 * ((6.0 - score) / (10.0 - score))
            && Total(entries, DedupeKey(m, config.dedupeKey)) == 1.0
            && FirstKeys(entries) == [DedupeKey(k, config.dedupeKey), DedupeKey(m, config.dedupeKey)]
  {
    var hits := FourHits(k, m, score);
    OneSet(hits, config);
    FourExtremes(k, m, score);
    var x := (6.0 - score) / (10.0 - score);
    var a, b := Entry(DedupeKey(k, config.dedupeKey), 0.0, hits[0]), Entry(DedupeKey(m, config.dedupeKey), 1.0, hits[3]);
    var c, d := Entry(a.key, x, hits[1]), Entry(a.key, x, hits[2]);
    BestIsOne(10.0, score, 10.0);
    WorstIsZero(score, score, 10.0);
    assert WeightedEntry(hits, 0, config) == a && WeightedEntry(hits, 3, config) == b;
    assert WeightedEntry(hits, 1, config) == c && WeightedEntry(hits, 2, config) == d;
    assert SetEntries(hits, config) == [a, c, d, b];
    FourTotal(a, c, d, b, a.key);
    FourTotal(a, c, d, b, b.key);
    FourKeys(a, c, d, b);
  }

  lemma FourHitsRaised(k: Payload, m: Payload)
    ensures WithScore([FourHits(k, m, 0.0)], 0, 0, 6.0) == [FourHits(k, m, 6.0)]
  {
    var sets, hits, changed := [FourHits(k, m, 0.0)], FourHits(k, m, 0.0), FourHits(k, m, 6.0);
    assert hits[0 := hits[0].(score := 6.0)] == changed;
    assert sets[0] == hits && sets[0 := changed] == [changed];
  }

  /** With several hits of its key in the set, raising one of them can hurt the key: raising the worst
      one takes the distance to it away from the others. */
  lemma BetterScoreCanHurt(k: Payload, m: Payload, config: Config, fused: seq<Hit>, otherFused: seq<Hit>)
    requires config.fusionMethod != "rrf" && config.denseWeight == 1.0
    requires DedupeKey(k, config.dedupeKey) != DedupeKey(m, config.dedupeKey)
    requires IsFusion(AllEntries([FourHits(k, m, 0.0)], config), KeysOf(fused, config.dedupeKey), 2, fused)
    requires IsFusion(AllEntries(WithScore([FourHits(k, m, 0.0)], 0, 0, 6.0), config),
                      KeysOf(otherFused, config.dedupeKey), 2, otherFused)
    ensures !NeverLater(DedupeKey(k, config.dedupeKey), fused, otherFused, config.dedupeKey)
  {
    var hits, changed := FourHits(k, m, 0.0), FourHits(k, m, 6.0);
    FourHitsRaised(k, m);
    FourTotals(k, m, 0.0, config);
    FourTotals(k, m, 6.0, config);
    var first, second := DedupeKey(k, config.dedupeKey), DedupeKey(m, config.dedupeKey);
    TopIs(AllEntries([hits], config), config.dedupeKey, fused, first, second);
    TopIs(AllEntries([changed], config), config.dedupeKey, otherFused, second, first);
    FirstIsNotNoLater(fused, otherFused, config.dedupeKey, first, second);
  }

  /** The key with more points comes first. */
  lemma TopIs(entries: seq<Entry>, dedupeKey: string, fused: seq<Hit>, first: string, second: string)
    requires IsFusion(entries, KeysOf(fused, dedupeKey), 2, fused) && first != second
    requires FirstKeys(entries) == [first, second] || FirstKeys(entries) == [second, first]
    requires Total(entries, first) > Total(entries, second)
    ensures |fused| == 2 && KeysOf(fused, dedupeKey) == [first, second]
  {
    var keys := KeysOf(fused, dedupeKey);
    FusionKeysDiffer(entries, keys, 2, fused);
    assert keys[0] in FirstKeys(entries) && keys[1] in FirstKeys(entries);
    assert Beats(entries, keys[0], keys[1]);
  }
}
