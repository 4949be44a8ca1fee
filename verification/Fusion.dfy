/** Candidate fusion: merge the result sets of independent retrievers into one ranked list. */
module Fusion {
  import opened Common
  import opened Retrieval
  import opened Sorting

  datatype Config = Config(
    fusionMethod: string, denseWeight: real, bm25Weight: real, rrfK: int, dedupeKey: string)

  function SourceWeight(source: Source, config: Config): real {
    match source
    case Bm25 => config.bm25Weight
    case Dense => config.denseWeight
    case _ => 1.0
  }

  // ---- what one hit contributes to the score of its key ----

  datatype Entry = Entry(key: string, amount: real, hit: Hit)

  /** `hit.rank or index + 1` */
  function RankOf(hit: Hit, index: nat): int {
    if hit.rank.Some? && hit.rank.value != 0 then hit.rank.value else index + 1
  }

  /** No rank makes the reciprocal-rank denominator zero (the code divides by it). */
  predicate RanksUsable(hits: seq<Hit>, config: Config) {
    forall i :: 0 <= i < |hits| ==> config.rrfK + RankOf(hits[i], i) != 0
  }

  function RrfEntry(hits: seq<Hit>, i: nat, config: Config): Entry
    requires i < |hits| && RanksUsable(hits, config)
  {
    Entry(DedupeKey(hits[i].payload, config.dedupeKey),
          SourceWeight(hits[i].source, config) / (config.rrfK + RankOf(hits[i], i)) as real,
          hits[i])
  }

  function MinScore(hits: seq<Hit>): real
    requires hits != []
  {
    if |hits| == 1 then hits[0].score
    else var rest := MinScore(hits[1..]); if hits[0].score <= rest then hits[0].score else rest
  }

  function MaxScore(hits: seq<Hit>): real
    requires hits != []
  {
    if |hits| == 1 then hits[0].score
    else var rest := MaxScore(hits[1..]); if hits[0].score >= rest then hits[0].score else rest
  }

  function UnitScore(x: real, low: real, high: real): real {
    if high == low then 1.0 else (x - low) / (high - low)
  }

  /** One element of `_min_max_normalize(hits)`. */
  function Normalized(hits: seq<Hit>, i: nat): real
    requires i < |hits|
  {
    UnitScore(hits[i].score, MinScore(hits), MaxScore(hits))
  }

  function WeightedEntry(hits: seq<Hit>, i: nat, config: Config): Entry
    requires i < |hits|
  {
    Entry(DedupeKey(hits[i].payload, config.dedupeKey),
          SourceWeight(hits[i].source, config) * Normalized(hits, i),
          hits[i])
  }

  predicate Usable(hits: seq<Hit>, config: Config) {
    config.fusionMethod == "rrf" ==> RanksUsable(hits, config)
  }

  predicate AllUsable(resultSets: seq<seq<Hit>>, config: Config) {
    forall s :: 0 <= s < |resultSets| ==> Usable(resultSets[s], config)
  }

  function SetEntry(hits: seq<Hit>, i: nat, config: Config): Entry
    requires i < |hits| && Usable(hits, config)
  {
    if config.fusionMethod == "rrf" then RrfEntry(hits, i, config) else WeightedEntry(hits, i, config)
  }

  function SetEntries(hits: seq<Hit>, config: Config): (entries: seq<Entry>)
    requires Usable(hits, config)
    ensures |entries| == |hits|
  {
    seq(|hits|, i requires 0 <= i < |hits| => SetEntry(hits, i, config))
  }

  /** All contributions, set after set. */
  function AllEntries(resultSets: seq<seq<Hit>>, config: Config): seq<Entry>
    requires AllUsable(resultSets, config)
  {
    if resultSets == [] then []
    else AllEntries(resultSets[..|resultSets| - 1], config) + SetEntries(resultSets[|resultSets| - 1], config)
  }

  // ---- the declarative reading of a list of contributions ----

  function Total(entries: seq<Entry>, key: string): real {
    if entries == [] then 0.0
    else
      var last := entries[|entries| - 1];
      Total(entries[..|entries| - 1], key) + if last.key == key then last.amount else 0.0
  }

  /** The distinct keys in the order in which they are first met. */
  function FirstKeys(entries: seq<Entry>): seq<string> {
    if entries == [] then []
    else
      var before := FirstKeys(entries[..|entries| - 1]);
      var key := entries[|entries| - 1].key;
      if key in before then before else before + [key]
  }

  lemma {:induction false} FirstKeysDistinct(entries: seq<Entry>)
    ensures Distinct(FirstKeys(entries))
  {
    if entries != [] {
      FirstKeysDistinct(entries[..|entries| - 1]);
    }
  }

  /** The keys are those of the entries. */
  lemma {:induction false} FirstKeysAreKeys(entries: seq<Entry>, key: string)
    ensures key in FirstKeys(entries) <==> exists i :: 0 <= i < |entries| && entries[i].key == key
  {
    if entries != [] {
      FirstKeysAreKeys(entries[..|entries| - 1], key);
      assert entries == entries[..|entries| - 1] + [entries[|entries| - 1]];
    }
  }

  function SourcesOf(entries: seq<Entry>, key: string): set<Source> {
    set i | 0 <= i < |entries| && entries[i].key == key :: entries[i].hit.source
  }

  /** Entry `m` is the first among the entries of its key with the longest text. */
  ghost predicate FirstLongest(entries: seq<Entry>, m: nat) {
    && m < |entries|
    && (forall j :: 0 <= j < m && entries[j].key == entries[m].key ==>
          TextLength(entries[j].hit) < TextLength(entries[m].hit))
    && (forall j :: m < j < |entries| && entries[j].key == entries[m].key ==>
          TextLength(entries[j].hit) <= TextLength(entries[m].hit))
  }

  /** The hit that stands for a key: the first one with the longest text. */
  function Representative(entries: seq<Entry>, key: string): Option<Hit> {
    if entries == [] then None
    else
      var before, last := Representative(entries[..|entries| - 1], key), entries[|entries| - 1];
      if last.key == key && (before.None? || TextLength(last.hit) > TextLength(before.value)) then Some(last.hit)
      else before
  }

  lemma {:induction false} RepresentativeIsFirstLongest(entries: seq<Entry>, key: string) returns (m: nat)
    requires key in FirstKeys(entries)
    ensures FirstLongest(entries, m) && entries[m].key == key
    ensures Representative(entries, key) == Some(entries[m].hit)
  {
    var before, last := entries[..|entries| - 1], entries[|entries| - 1];
    assert entries == before + [last];
    if key in FirstKeys(before) {
      m := RepresentativeIsFirstLongest(before, key);
      if last.key == key && TextLength(last.hit) > TextLength(before[m].hit) {
        m := |before|;
      }
    } else {
      NoEntries(before, key);
      forall j | 0 <= j < |before|
        ensures before[j].key != key
      {
        FirstKeysAreKeys(before, key);
      }
      m := |before|;
    }
  }

  function Position(keys: seq<string>, key: string): int {
    if keys == [] || keys[0] == key then 0 else 1 + Position(keys[1..], key)
  }

  lemma {:induction false} PositionAt(keys: seq<string>, i: nat)
    requires Distinct(keys) && i < |keys|
    ensures Position(keys, keys[i]) == i
  {
    if i > 0 {
      PositionAt(keys[1..], i - 1);
    }
  }

  /** `a` is ranked before `b`: more points, or as many and met earlier. */
  ghost predicate Beats(entries: seq<Entry>, a: string, b: string) {
    || Total(entries, a) > Total(entries, b)
    || (Total(entries, a) == Total(entries, b)
        && Position(FirstKeys(entries), a) < Position(FirstKeys(entries), b))
  }

  /** How many elements `list[:limit]` keeps. */
  function Kept(length: nat, limit: int): (n: nat)
    ensures n <= length
  {
    if limit >= length then length
    else if limit >= 0 then limit
    else if length + limit >= 0 then length + limit
    else 0
  }

  /** `sorted(sources)`: the source names in alphabetical order. */
  function SortedNames(sources: set<Source>): seq<string> {
    (if Bm25 in sources then ["bm25"] else [])
    + (if Dense in sources then ["dense"] else [])
    + (if Hybrid in sources then ["hybrid"] else [])
    + (if MetadataSource in sources then ["metadata"] else [])
  }

  function FusedHit(hit: Hit, score: real, rank: nat, sources: set<Source>): Hit {
    hit.(score := score, source := Hybrid, rank := Some(rank),
         metadata := hit.metadata["base_score" := Score(hit.score)]["retrieval_sources" := Names(SortedNames(sources))])
  }

  ghost predicate IsFusedHit(entries: seq<Entry>, key: string, fused: Hit, rank: nat) {
    && Representative(entries, key).Some?
    && fused == FusedHit(Representative(entries, key).value, Total(entries, key), rank, SourcesOf(entries, key))
  }

  /** What fusion promises: `fused` lists the best keys, each once, in ranking order; every key
      that is left out is beaten by every key that is kept. `keys` names the key of each hit. */
  ghost predicate IsFusion(entries: seq<Entry>, keys: seq<string>, limit: int, fused: seq<Hit>) {
    && |fused| == |keys| == Kept(|FirstKeys(entries)|, limit)
    && (forall i :: 0 <= i < |keys| ==> keys[i] in FirstKeys(entries))
    && (forall i :: 0 <= i < |keys| ==> IsFusedHit(entries, keys[i], fused[i], i + 1))
    && (forall i, j :: 0 <= i < j < |keys| ==> Beats(entries, keys[i], keys[j]))
    && (forall i, k :: 0 <= i < |keys| && k in FirstKeys(entries) && k !in keys ==> Beats(entries, keys[i], k))
  }

  function KeysOf(hits: seq<Hit>, dedupeKey: string): (keys: seq<string>)
    ensures |keys| == |hits|
  {
    seq(|hits|, i requires 0 <= i < |hits| => DedupeKey(hits[i].payload, dedupeKey))
  }

  // ---- the accumulating loops ----

  /** The three dictionaries `scores`, `sources` and `merged`; `order` is the insertion order
      of `scores`. */
  datatype Table = Table(
    order: seq<string>, scores: map<string, real>, sources: map<string, set<Source>>, merged: map<string, Hit>)

  ghost predicate SameKeys(table: Table) {
    forall k :: && (k in table.scores <==> k in table.order)
                && (k in table.sources <==> k in table.order)
                && (k in table.merged <==> k in table.order)
  }

  ghost predicate RowIsRight(table: Table, entries: seq<Entry>, k: string)
    requires SameKeys(table) && k in table.order
  {
    && table.scores[k] == Total(entries, k)
    && table.sources[k] == SourcesOf(entries, k)
    && Representative(entries, k) == Some(table.merged[k])
  }

  ghost predicate Tabulates(table: Table, entries: seq<Entry>) {
    && table.order == FirstKeys(entries)
    && SameKeys(table)
    && forall k :: k in table.order ==> RowIsRight(table, entries, k)
  }

  /** The body of both loops, once key and amount are known. */
  function Record(table: Table, key: string, amount: real, hit: Hit): Table {
    Table(
      if key in table.scores then table.order else table.order + [key],
      table.scores[key := (if key in table.scores then table.scores[key] else 0.0) + amount],
      table.sources[key := (if key in table.sources then table.sources[key] else {}) + {hit.source}],
      if key !in table.merged || TextLength(hit) > TextLength(table.merged[key]) then table.merged[key := hit]
      else table.merged)
  }

  lemma SourcesOfAppend(entries: seq<Entry>, e: Entry, key: string)
    ensures SourcesOf(entries + [e], key) == SourcesOf(entries, key) + if e.key == key then {e.hit.source} else {}
  {
    var longer := entries + [e];
    assert forall i :: 0 <= i < |entries| ==> longer[i] == entries[i];
    assert longer[|entries|] == e;
    forall s | s in SourcesOf(entries, key)
      ensures s in SourcesOf(longer, key)
    {
      var i :| 0 <= i < |entries| && entries[i].key == key && entries[i].hit.source == s;
      assert longer[i] == entries[i];
    }
  }

  lemma RecordRow(table: Table, entries: seq<Entry>, e: Entry, k: string)
    requires Tabulates(table, entries)
    requires SameKeys(Record(table, e.key, e.amount, e.hit)) && (k in table.order || k == e.key)
    ensures k in Record(table, e.key, e.amount, e.hit).order
    ensures RowIsRight(Record(table, e.key, e.amount, e.hit), entries + [e], k)
  {
    var longer := entries + [e];
    assert longer[..|longer| - 1] == entries;
    SourcesOfAppend(entries, e, k);
    if k in table.order {
      assert RowIsRight(table, entries, k);
    } else {
      NoEntries(entries, k);
    }
  }

  lemma RecordLemma(table: Table, entries: seq<Entry>, e: Entry)
    requires Tabulates(table, entries)
    ensures Tabulates(Record(table, e.key, e.amount, e.hit), entries + [e])
  {
    var next := Record(table, e.key, e.amount, e.hit);
    assert (entries + [e])[..|entries|] == entries;
    assert SameKeys(next);
    forall k | k in next.order
      ensures RowIsRight(next, entries + [e], k)
    {
      RecordRow(table, entries, e, k);
    }
  }

  lemma {:induction false} NoEntries(entries: seq<Entry>, key: string)
    requires key !in FirstKeys(entries)
    ensures Total(entries, key) == 0.0 && SourcesOf(entries, key) == {} && Representative(entries, key) == None
  {
    if entries != [] {
      NoEntries(entries[..|entries| - 1], key);
    }
  }

  const EMPTY_TABLE := Table([], map[], map[], map[])

  /** The table after one turn of the loop for each entry. */
  function RecordAll(table: Table, entries: seq<Entry>): Table {
    if entries == [] then table
    else
      var last := entries[|entries| - 1];
      Record(RecordAll(table, entries[..|entries| - 1]), last.key, last.amount, last.hit)
  }

  lemma RecordAllStep(table: Table, entries: seq<Entry>, i: nat)
    requires i < |entries|
    ensures RecordAll(table, entries[..i + 1])
         == Record(RecordAll(table, entries[..i]), entries[i].key, entries[i].amount, entries[i].hit)
  {
    assert entries[..i + 1][..i] == entries[..i];
  }

  lemma {:induction false} RecordAllAppend(table: Table, a: seq<Entry>, b: seq<Entry>)
    ensures RecordAll(table, a + b) == RecordAll(RecordAll(table, a), b)
  {
    if b == [] {
      assert a + b == a;
    } else {
      assert (a + b)[..|a + b| - 1] == a + b[..|b| - 1];
      RecordAllAppend(table, a, b[..|b| - 1]);
    }
  }

  /** The loops compute the declarative reading of the entries. */
  lemma {:induction false} RecordAllTabulates(entries: seq<Entry>)
    ensures Tabulates(RecordAll(EMPTY_TABLE, entries), entries)
  {
    if entries != [] {
      var before, last := entries[..|entries| - 1], entries[|entries| - 1];
      RecordAllTabulates(before);
      RecordLemma(RecordAll(EMPTY_TABLE, before), before, last);
      assert before + [last] == entries;
    }
  }

  lemma AllEntriesStep(resultSets: seq<seq<Hit>>, s: nat, config: Config)
    requires AllUsable(resultSets, config) && s < |resultSets|
    ensures AllEntries(resultSets[..s + 1], config)
         == AllEntries(resultSets[..s], config) + SetEntries(resultSets[s], config)
  {
    assert resultSets[..s + 1][..s] == resultSets[..s];
  }

  method RrfSet(table: Table, hits: seq<Hit>, config: Config) returns (next: Table)
    requires config.fusionMethod == "rrf" && Usable(hits, config)
    ensures next == RecordAll(table, SetEntries(hits, config))
  {
    next := table;
    for index := 0 to |hits|
      invariant next == RecordAll(table, SetEntries(hits, config)[..index])
    {
      var entry := RrfEntry(hits, index, config);
      RecordAllStep(table, SetEntries(hits, config), index);
      next := Record(next, entry.key, entry.amount, entry.hit);
    }
    assert SetEntries(hits, config)[..|hits|] == SetEntries(hits, config);
  }

  method RrfTable(resultSets: seq<seq<Hit>>, config: Config) returns (table: Table)
    requires config.fusionMethod == "rrf" && AllUsable(resultSets, config)
    ensures Tabulates(table, AllEntries(resultSets, config))
  {
    table := EMPTY_TABLE;
    for s := 0 to |resultSets|
      invariant table == RecordAll(EMPTY_TABLE, AllEntries(resultSets[..s], config))
    {
      AllEntriesStep(resultSets, s, config);
      RecordAllAppend(EMPTY_TABLE, AllEntries(resultSets[..s], config), SetEntries(resultSets[s], config));
      table := RrfSet(table, resultSets[s], config);
    }
    assert resultSets[..|resultSets|] == resultSets;
    RecordAllTabulates(AllEntries(resultSets, config));
  }

  method WeightedSet(table: Table, hits: seq<Hit>, config: Config) returns (next: Table)
    requires config.fusionMethod != "rrf" && Usable(hits, config)
    ensures next == RecordAll(table, SetEntries(hits, config))
  {
    next := table;
    for index := 0 to |hits|
      invariant next == RecordAll(table, SetEntries(hits, config)[..index])
    {
      var entry := WeightedEntry(hits, index, config);
      RecordAllStep(table, SetEntries(hits, config), index);
      next := Record(next, entry.key, entry.amount, entry.hit);
    }
    assert SetEntries(hits, config)[..|hits|] == SetEntries(hits, config);
  }

  method WeightedTable(resultSets: seq<seq<Hit>>, config: Config) returns (table: Table)
    requires config.fusionMethod != "rrf" && AllUsable(resultSets, config)
    ensures Tabulates(table, AllEntries(resultSets, config))
  {
    table := EMPTY_TABLE;
    for s := 0 to |resultSets|
      invariant table == RecordAll(EMPTY_TABLE, AllEntries(resultSets[..s], config))
    {
      AllEntriesStep(resultSets, s, config);
      RecordAllAppend(EMPTY_TABLE, AllEntries(resultSets[..s], config), SetEntries(resultSets[s], config));
      table := WeightedSet(table, resultSets[s], config);
    }
    assert resultSets[..|resultSets|] == resultSets;
    RecordAllTabulates(AllEntries(resultSets, config));
  }

  // ---- ranking ----

  function ScoreItems(table: Table): (items: seq<Scored<string>>)
    requires forall k :: k in table.order ==> k in table.scores
    ensures |items| == |table.order|
    ensures forall i :: 0 <= i < |items| ==> items[i] == Scored(table.order[i], table.scores[table.order[i]])
  {
    seq(|table.order|, i requires 0 <= i < |table.order| => Scored(table.order[i], table.scores[table.order[i]]))
  }

  /** The sorted items are the keys with their totals, each key once, in ranking order. */
  ghost predicate IsRanking(ranked: seq<Scored<string>>, entries: seq<Entry>) {
    && |ranked| == |FirstKeys(entries)|
    && (forall i :: 0 <= i < |ranked| ==>
          ranked[i].item in FirstKeys(entries) && ranked[i].score == Total(entries, ranked[i].item))
    && (forall i, j :: 0 <= i < j < |ranked| ==> Beats(entries, ranked[i].item, ranked[j].item))
    && (forall p :: 0 <= p < |FirstKeys(entries)| ==>
          exists i :: 0 <= i < |ranked| && ranked[i].item == FirstKeys(entries)[p])
  }

  lemma ItemsArePlaced(table: Table, entries: seq<Entry>, position: string -> int)
    requires Tabulates(table, entries) && position == ((key: string) => Position(table.order, key))
    ensures forall i :: 0 <= i < |ScoreItems(table)| ==> position(ScoreItems(table)[i].item) == i
  {
    FirstKeysDistinct(entries);
    forall i | 0 <= i < |table.order|
      ensures position(table.order[i]) == i
    {
      PositionAt(table.order, i);
    }
  }

  lemma RankedAreTotals(table: Table, entries: seq<Entry>, i: nat)
    requires Tabulates(table, entries) && i < |SortDescending(ScoreItems(table))|
    ensures var item := SortDescending(ScoreItems(table))[i];
            item.item in FirstKeys(entries) && item.score == Total(entries, item.item)
  {
    var items := ScoreItems(table);
    SortDescendingLemma(items);
    assert SortDescending(items)[i] in multiset(items);
  }

  lemma EveryKeyIsRanked(table: Table, p: nat) returns (i: nat)
    requires SameKeys(table) && p < |table.order|
    ensures i < |SortDescending(ScoreItems(table))| && SortDescending(ScoreItems(table))[i].item == table.order[p]
  {
    var items := ScoreItems(table);
    SortDescendingLemma(items);
    assert items[p] in multiset(SortDescending(items));
    i :| 0 <= i < |SortDescending(items)| && SortDescending(items)[i] == items[p];
  }

  lemma RankedLemma(table: Table, entries: seq<Entry>)
    requires Tabulates(table, entries)
    ensures IsRanking(SortDescending(ScoreItems(table)), entries)
  {
    var items := ScoreItems(table);
    var ranked := SortDescending(items);
    var position := (key: string) => Position(table.order, key);
    ItemsArePlaced(table, entries, position);
    SortIsAhead(items, position);
    SortDescendingLemma(items);
    forall i | 0 <= i < |ranked|
      ensures ranked[i].item in FirstKeys(entries) && ranked[i].score == Total(entries, ranked[i].item)
    {
      RankedAreTotals(table, entries, i);
    }
    forall i, j | 0 <= i < j < |ranked|
      ensures Beats(entries, ranked[i].item, ranked[j].item)
    {
    }
    forall p | 0 <= p < |FirstKeys(entries)|
      ensures exists i :: 0 <= i < |ranked| && ranked[i].item == FirstKeys(entries)[p]
    {
      var i := EveryKeyIsRanked(table, p);
    }
  }

  function Items(ranked: seq<Scored<string>>): (keys: seq<string>)
    ensures |keys| == |ranked| && forall i :: 0 <= i < |keys| ==> keys[i] == ranked[i].item
  {
    seq(|ranked|, i requires 0 <= i < |ranked| => ranked[i].item)
  }

  function RowHit(table: Table, key: string, score: real, rank: nat): Hit
    requires SameKeys(table) && key in table.order
  {
    FusedHit(table.merged[key], score, rank, table.sources[key])
  }

  method BuildHits(table: Table, ranked: seq<Scored<string>>) returns (fused: seq<Hit>)
    requires SameKeys(table) && forall i :: 0 <= i < |ranked| ==> ranked[i].item in table.order
    ensures |fused| == |ranked|
    ensures forall i :: 0 <= i < |ranked| ==> fused[i] == RowHit(table, ranked[i].item, ranked[i].score, i + 1)
  {
    fused := [];
    for i := 0 to |ranked|
      invariant |fused| == i
      invariant forall j :: 0 <= j < i ==> fused[j] == RowHit(table, ranked[j].item, ranked[j].score, j + 1)
    {
      fused := fused + [RowHit(table, ranked[i].item, ranked[i].score, i + 1)];
    }
  }

  lemma HitsAreFused(table: Table, entries: seq<Entry>, keys: seq<string>, fused: seq<Hit>)
    requires Tabulates(table, entries) && |fused| == |keys|
    requires forall i :: 0 <= i < |keys| ==> keys[i] in table.order
    requires forall i :: 0 <= i < |keys| ==> fused[i] == RowHit(table, keys[i], Total(entries, keys[i]), i + 1)
    ensures forall i :: 0 <= i < |keys| ==> IsFusedHit(entries, keys[i], fused[i], i + 1)
  {
    forall i | 0 <= i < |keys|
      ensures IsFusedHit(entries, keys[i], fused[i], i + 1)
    {
    }
  }

  lemma OmittedAreBeaten(ranked: seq<Scored<string>>, entries: seq<Entry>, keys: seq<string>)
    requires IsRanking(ranked, entries) && |keys| <= |ranked|
    requires forall i :: 0 <= i < |keys| ==> keys[i] == ranked[i].item
    ensures forall i, k :: 0 <= i < |keys| && k in FirstKeys(entries) && k !in keys ==> Beats(entries, keys[i], k)
  {
    forall i, k | 0 <= i < |keys| && k in FirstKeys(entries) && k !in keys
      ensures Beats(entries, keys[i], k)
    {
      var p :| 0 <= p < |FirstKeys(entries)| && FirstKeys(entries)[p] == k;
      var j :| 0 <= j < |ranked| && ranked[j].item == k;
    }
  }

  ghost predicate WellKeyed(entries: seq<Entry>, dedupeKey: string) {
    forall i :: 0 <= i < |entries| ==> entries[i].key == DedupeKey(entries[i].hit.payload, dedupeKey)
  }

  lemma {:induction false} AllEntriesWellKeyed(resultSets: seq<seq<Hit>>, config: Config)
    requires AllUsable(resultSets, config)
    ensures WellKeyed(AllEntries(resultSets, config), config.dedupeKey)
  {
    if resultSets != [] {
      AllEntriesWellKeyed(resultSets[..|resultSets| - 1], config);
    }
  }

  /** In a fusion of well-keyed entries the key of each hit is its own dedupe key. */
  lemma FusionKeys(entries: seq<Entry>, dedupeKey: string, keys: seq<string>, limit: int, fused: seq<Hit>)
    requires WellKeyed(entries, dedupeKey) && IsFusion(entries, keys, limit, fused)
    ensures keys == KeysOf(fused, dedupeKey)
  {
    forall i | 0 <= i < |keys|
      ensures keys[i] == KeysOf(fused, dedupeKey)[i]
    {
      assert IsFusedHit(entries, keys[i], fused[i], i + 1);
      var m := RepresentativeIsFirstLongest(entries, keys[i]);
      assert entries[m].hit.payload == fused[i].payload;
    }
  }

  lemma {:induction false} CutIsFusion(
    table: Table, entries: seq<Entry>, limit: int, dedupeKey: string, ranked: seq<Scored<string>>, fused: seq<Hit>)
    requires Tabulates(table, entries) && WellKeyed(entries, dedupeKey)
    requires IsRanking(ranked, entries) && |fused| == Kept(|ranked|, limit)
    requires forall i :: 0 <= i < |fused| ==> fused[i] == RowHit(table, ranked[i].item, ranked[i].score, i + 1)
    ensures IsFusion(entries, KeysOf(fused, dedupeKey), limit, fused)
  {
    var keys := Items(ranked[..|fused|]);
    HitsAreFused(table, entries, keys, fused);
    OmittedAreBeaten(ranked, entries, keys);
    assert IsFusion(entries, keys, limit, fused);
    FusionKeys(entries, dedupeKey, keys, limit, fused);
  }

  /** The tail of both fusion methods: sort, cut to the limit and build the fused hits. */
  method Ranked(table: Table, ghost entries: seq<Entry>, limit: int, ghost dedupeKey: string) returns (fused: seq<Hit>)
    requires Tabulates(table, entries) && WellKeyed(entries, dedupeKey)
    ensures IsFusion(entries, KeysOf(fused, dedupeKey), limit, fused)
  {
    var ranked := SortDescending(ScoreItems(table));
    RankedLemma(table, entries);
    fused := BuildHits(table, ranked[..Kept(|ranked|, limit)]);
    CutIsFusion(table, entries, limit, dedupeKey, ranked, fused);
  }

  /** `CandidateFusion.fuse` with `_rrf` and `_weighted`: the fused list is the declarative
      ranking of all contributions. */
  method Fuse(resultSets: seq<seq<Hit>>, config: Config, limit: int) returns (fused: seq<Hit>)
    requires AllUsable(resultSets, config)
    ensures IsFusion(AllEntries(resultSets, config), KeysOf(fused, config.dedupeKey), limit, fused)
  {
    var table: Table;
    if config.fusionMethod != "rrf" {
      table := WeightedTable(resultSets, config);
    } else {
      table := RrfTable(resultSets, config);
    }
    AllEntriesWellKeyed(resultSets, config);
    fused := Ranked(table, AllEntries(resultSets, config), limit, config.dedupeKey);
  }
}
