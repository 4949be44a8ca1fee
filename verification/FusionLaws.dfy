/** Laws of candidate fusion, for every pair of outputs that meet the contract of `Fusion.Fuse`. */
module FusionLaws {
  import opened Common
  import opened Retrieval
  import opened Fusion

  // ---- counting in ranked lists ----

  function Members(keys: seq<string>, n: nat): set<string>
    requires n <= |keys|
  {
    set i | 0 <= i < n :: keys[i]
  }

  lemma {:induction false} DistinctCount(keys: seq<string>, n: nat)
    requires Distinct(keys) && n <= |keys|
    ensures |Members(keys, n)| == n
  {
    if n > 0 {
      DistinctCount(keys, n - 1);
      assert keys[n - 1] !in Members(keys, n - 1);
      assert Members(keys, n) == Members(keys, n - 1) + {keys[n - 1]};
    }
  }

  lemma TooManyKeys(keys: seq<string>, n: nat, others: seq<string>, m: nat)
    requires Distinct(keys) && Distinct(others) && n <= |keys| && m <= |others|
    requires Members(keys, n) <= Members(others, m)
    ensures n <= m
  {
    DistinctCount(keys, n);
    DistinctCount(others, m);
    SubsetCount(Members(keys, n), Members(others, m));
  }

  /** Whoever stands before `i`, or is met at an index up to `i` without being the key, beats it. */
  lemma BehindIsBeaten(entries: seq<Entry>, keys: seq<string>, limit: int, fused: seq<Hit>, i: nat, key: string)
    requires IsFusion(entries, keys, limit, fused) && i < |keys|
    requires key in FirstKeys(entries) && key !in Members(keys, i + 1)
    ensures forall j :: 0 <= j <= i ==> Beats(entries, keys[j], key)
  {
    forall j | 0 <= j <= i
      ensures Beats(entries, keys[j], key)
    {
      if key in keys {
        var l :| 0 <= l < |keys| && keys[l] == key;
        assert l > i;
      }
    }
  }

  ghost predicate SameKeySet(entries: seq<Entry>, others: seq<Entry>) {
    forall k :: k in FirstKeys(entries) <==> k in FirstKeys(others)
  }

  lemma SameKeyCount(entries: seq<Entry>, others: seq<Entry>)
    requires SameKeySet(entries, others)
    ensures |FirstKeys(entries)| == |FirstKeys(others)|
  {
    var a, b := FirstKeys(entries), FirstKeys(others);
    FirstKeysDistinct(entries);
    FirstKeysDistinct(others);
    assert forall k :: k in a <==> k in Members(a, |a|);
    assert forall k :: k in b <==> k in Members(b, |b|);
    TooManyKeys(a, |a|, b, |b|);
    TooManyKeys(b, |b|, a, |a|);
  }

  lemma BeaterStandsBefore(entries: seq<Entry>, keys: seq<string>, limit: int, fused: seq<Hit>, i: nat, key: string)
    requires IsFusion(entries, keys, limit, fused) && i < |keys|
    requires key in FirstKeys(entries) && Beats(entries, key, keys[i])
    ensures key in Members(keys, i)
  {
    if key in keys {
      var l :| 0 <= l < |keys| && keys[l] == key;
      assert l > i ==> Beats(entries, keys[i], keys[l]);
    }
  }

  /** A key that nobody new beats does not fall: its place in the second list is no later. */
  lemma KeyDoesNotFall(
    entries: seq<Entry>, keys: seq<string>, fused: seq<Hit>,
    others: seq<Entry>, otherKeys: seq<string>, otherFused: seq<Hit>, limit: int, i: nat)
    requires IsFusion(entries, keys, limit, fused) && IsFusion(others, otherKeys, limit, otherFused)
    requires SameKeySet(entries, others) && i < |keys|
    requires forall a :: a in FirstKeys(entries) && Beats(others, a, keys[i]) ==> Beats(entries, a, keys[i])
    ensures i < |otherKeys| && keys[i] in Members(otherKeys, i + 1)
  {
    var key := keys[i];
    SameKeyCount(entries, others);
    if key !in Members(otherKeys, i + 1) {
      BehindIsBeaten(others, otherKeys, limit, otherFused, i, key);
      forall j | 0 <= j <= i
        ensures otherKeys[j] in Members(keys, i)
      {
        assert Beats(others, otherKeys[j], key);
        BeaterStandsBefore(entries, keys, limit, fused, i, otherKeys[j]);
      }
      assert Members(otherKeys, i + 1) <= Members(keys, i);
      TooManyKeys(otherKeys, i + 1, keys, i);
    }
  }

  // ---- fused scores do not depend on the order of the result sets ----

  lemma HigherStandsBefore(entries: seq<Entry>, keys: seq<string>, limit: int, fused: seq<Hit>, i: nat, key: string)
    requires IsFusion(entries, keys, limit, fused) && i < |keys|
    requires key in FirstKeys(entries) && Total(entries, key) > Total(entries, keys[i])
    ensures key in Members(keys, i)
  {
    BeaterStandsBefore(entries, keys, limit, fused, i, key);
  }

  lemma {:induction false} ScoreNotAbove(
    entries: seq<Entry>, keys: seq<string>, fused: seq<Hit>,
    others: seq<Entry>, otherKeys: seq<string>, otherFused: seq<Hit>, limit: int, i: nat)
    requires IsFusion(entries, keys, limit, fused) && IsFusion(others, otherKeys, limit, otherFused)
    requires SameKeySet(entries, others) && i < |keys| == |otherKeys|
    requires forall k :: Total(entries, k) == Total(others, k)
    ensures Total(entries, keys[i]) <= Total(others, otherKeys[i])
  {
    if Total(entries, keys[i]) > Total(others, otherKeys[i]) {
      forall j | 0 <= j <= i
        ensures keys[j] in Members(otherKeys, i)
      {
        HigherStandsBefore(others, otherKeys, limit, otherFused, i, keys[j]);
      }
      assert Members(keys, i + 1) <= Members(otherKeys, i);
      TooManyKeys(keys, i + 1, otherKeys, i);
    }
  }

  lemma {:induction false} TotalAppend(a: seq<Entry>, b: seq<Entry>, key: string)
    ensures Total(a + b, key) == Total(a, key) + Total(b, key)
  {
    if b == [] {
      assert a + b == a;
    } else {
      assert (a + b)[..|a + b| - 1] == a + b[..|b| - 1];
      TotalAppend(a, b[..|b| - 1], key);
    }
  }

  /** The sum of what the single result sets give to a key. */
  function SetSum(resultSets: seq<seq<Hit>>, config: Config, key: string): real
    requires AllUsable(resultSets, config)
  {
    if resultSets == [] then 0.0
    else SetSum(resultSets[..|resultSets| - 1], config, key)
         + Total(SetEntries(resultSets[|resultSets| - 1], config), key)
  }

  lemma {:induction false} TotalIsSetSum(resultSets: seq<seq<Hit>>, config: Config, key: string)
    requires AllUsable(resultSets, config)
    ensures Total(AllEntries(resultSets, config), key) == SetSum(resultSets, config, key)
  {
    if resultSets != [] {
      var before, last := resultSets[..|resultSets| - 1], resultSets[|resultSets| - 1];
      TotalIsSetSum(before, config, key);
      TotalAppend(AllEntries(before, config), SetEntries(last, config), key);
    }
  }

  lemma UsableAppend(a: seq<seq<Hit>>, b: seq<seq<Hit>>, config: Config)
    ensures AllUsable(a + b, config) <==> AllUsable(a, config) && AllUsable(b, config)
  {
    assert forall s :: 0 <= s < |a| ==> (a + b)[s] == a[s];
    assert forall s :: 0 <= s < |b| ==> (a + b)[|a| + s] == b[s];
  }

  lemma {:induction false} SetSumAppend(a: seq<seq<Hit>>, b: seq<seq<Hit>>, config: Config, key: string)
    requires AllUsable(a + b, config) && AllUsable(a, config) && AllUsable(b, config)
    ensures SetSum(a + b, config, key) == SetSum(a, config, key) + SetSum(b, config, key)
  {
    if b == [] {
      assert a + b == a;
    } else {
      var before := b[..|b| - 1];
      assert (a + b)[..|a + b| - 1] == a + before;
      UsableAppend(a, before, config);
      SetSumAppend(a, before, config, key);
    }
  }

  lemma {:induction false} SetSumWithout(resultSets: seq<seq<Hit>>, config: Config, key: string, s: nat)
    requires AllUsable(resultSets, config) && s < |resultSets|
    ensures AllUsable(resultSets[..s] + resultSets[s + 1..], config)
    ensures SetSum(resultSets, config, key)
         == SetSum(resultSets[..s] + resultSets[s + 1..], config, key) + Total(SetEntries(resultSets[s], config), key)
  {
    var a, one, b := resultSets[..s], [resultSets[s]], resultSets[s + 1..];
    assert resultSets == a + (one + b);
    UsableAppend(a, one + b, config);
    UsableAppend(one, b, config);
    UsableAppend(a, b, config);
    SetSumAppend(a, b, config, key);
    SetSumAppend(a, one + b, config, key);
    SetSumAppend(one, b, config, key);
    assert one[..0] == [] && SetSum(one, config, key) == Total(SetEntries(resultSets[s], config), key);
  }

  lemma WithoutIsPermutation<T>(s: seq<T>, t: seq<T>, i: nat)
    requires s != [] && multiset(s) == multiset(t) && i < |t| && t[i] == s[|s| - 1]
    ensures multiset(s[..|s| - 1]) == multiset(t[..i] + t[i + 1..])
  {
    assert s == s[..|s| - 1] + [s[|s| - 1]];
    assert t == t[..i] + ([t[i]] + t[i + 1..]);
    assert multiset(t) == multiset(t[..i]) + multiset{t[i]} + multiset(t[i + 1..]);
    assert multiset(s[..|s| - 1]) == multiset(s) - multiset{t[i]} == multiset(t[..i]) + multiset(t[i + 1..]);
  }

  lemma {:induction false} SetSumPermutation(
    resultSets: seq<seq<Hit>>, permuted: seq<seq<Hit>>, config: Config, key: string)
    requires multiset(resultSets) == multiset(permuted)
    requires AllUsable(resultSets, config) && AllUsable(permuted, config)
    ensures SetSum(resultSets, config, key) == SetSum(permuted, config, key)
    decreases |resultSets|
  {
    if resultSets == [] {
      assert |multiset(permuted)| == 0;
    } else {
      var last := resultSets[|resultSets| - 1];
      assert last in multiset(permuted);
      var i :| 0 <= i < |permuted| && permuted[i] == last;
      WithoutIsPermutation(resultSets, permuted, i);
      SetSumWithout(permuted, config, key, i);
      SetSumPermutation(resultSets[..|resultSets| - 1], permuted[..i] + permuted[i + 1..], config, key);
    }
  }

  ghost predicate HasKey(resultSets: seq<seq<Hit>>, dedupeKey: string, key: string) {
    exists s, i :: 0 <= s < |resultSets| && 0 <= i < |resultSets[s]| && DedupeKey(resultSets[s][i].payload, dedupeKey) == key
  }

  lemma {:induction false} FirstKeysAppend(a: seq<Entry>, b: seq<Entry>, key: string)
    ensures key in FirstKeys(a + b) <==> key in FirstKeys(a) || key in FirstKeys(b)
  {
    if b == [] {
      assert a + b == a;
    } else {
      assert (a + b)[..|a + b| - 1] == a + b[..|b| - 1];
      FirstKeysAppend(a, b[..|b| - 1], key);
    }
  }

  lemma KeysOfSet(hits: seq<Hit>, config: Config, key: string)
    requires Usable(hits, config)
    ensures key in FirstKeys(SetEntries(hits, config)) <==>
            exists i :: 0 <= i < |hits| && DedupeKey(hits[i].payload, config.dedupeKey) == key
  {
    var own := SetEntries(hits, config);
    FirstKeysAreKeys(own, key);
    assert forall i :: 0 <= i < |hits| ==> own[i].key == DedupeKey(hits[i].payload, config.dedupeKey);
  }

  lemma HasKeyAppend(resultSets: seq<seq<Hit>>, last: seq<Hit>, dedupeKey: string, key: string)
    ensures HasKey(resultSets + [last], dedupeKey, key) <==>
            HasKey(resultSets, dedupeKey, key) || exists i :: 0 <= i < |last| && DedupeKey(last[i].payload, dedupeKey) == key
  {
    var longer := resultSets + [last];
    if HasKey(resultSets, dedupeKey, key) {
      var s, i :| 0 <= s < |resultSets| && 0 <= i < |resultSets[s]| && DedupeKey(resultSets[s][i].payload, dedupeKey) == key;
      assert longer[s] == resultSets[s];
    }
    assert longer[|resultSets|] == last;
    if i :| 0 <= i < |last| && DedupeKey(last[i].payload, dedupeKey) == key {
      assert DedupeKey(longer[|resultSets|][i].payload, dedupeKey) == key;
    }
    if HasKey(longer, dedupeKey, key) {
      var s, i :| 0 <= s < |longer| && 0 <= i < |longer[s]| && DedupeKey(longer[s][i].payload, dedupeKey) == key;
      assert s < |resultSets| ==> resultSets[s] == longer[s];
    }
  }

  lemma {:induction false} KeysOfAllEntries(resultSets: seq<seq<Hit>>, config: Config, key: string)
    requires AllUsable(resultSets, config)
    ensures key in FirstKeys(AllEntries(resultSets, config)) <==> HasKey(resultSets, config.dedupeKey, key)
  {
    if resultSets != [] {
      var before, last := resultSets[..|resultSets| - 1], resultSets[|resultSets| - 1];
      var own := SetEntries(last, config);
      KeysOfAllEntries(before, config, key);
      FirstKeysAppend(AllEntries(before, config), own, key);
      KeysOfSet(last, config, key);
      assert resultSets == before + [last];
      HasKeyAppend(before, last, config.dedupeKey, key);
    }
  }

  lemma HasKeyPermutation(resultSets: seq<seq<Hit>>, permuted: seq<seq<Hit>>, dedupeKey: string, key: string)
    requires multiset(resultSets) == multiset(permuted) && HasKey(resultSets, dedupeKey, key)
    ensures HasKey(permuted, dedupeKey, key)
  {
    var s, i :| 0 <= s < |resultSets| && 0 <= i < |resultSets[s]| && DedupeKey(resultSets[s][i].payload, dedupeKey) == key;
    assert resultSets[s] in multiset(permuted);
    var t :| 0 <= t < |permuted| && permuted[t] == resultSets[s];
    assert DedupeKey(permuted[t][i].payload, dedupeKey) == key;
  }

  /** The distinct keys of all hits. */
  function KeySet(resultSets: seq<seq<Hit>>, dedupeKey: string): set<string> {
    set s, i | 0 <= s < |resultSets| && 0 <= i < |resultSets[s]| :: DedupeKey(resultSets[s][i].payload, dedupeKey)
  }

  lemma KeySetCount(resultSets: seq<seq<Hit>>, config: Config)
    requires AllUsable(resultSets, config)
    ensures |KeySet(resultSets, config.dedupeKey)| == |FirstKeys(AllEntries(resultSets, config))|
  {
    var keys := FirstKeys(AllEntries(resultSets, config));
    forall key: string
      ensures key in KeySet(resultSets, config.dedupeKey) <==> key in Members(keys, |keys|)
    {
      KeysOfAllEntries(resultSets, config, key);
    }
    FirstKeysDistinct(AllEntries(resultSets, config));
    DistinctCount(keys, |keys|);
    assert KeySet(resultSets, config.dedupeKey) == Members(keys, |keys|);
  }

  /** How many hits are fused: one for each distinct key, up to `limit`; a negative limit leaves out
      that many. */
  lemma FusedCount(resultSets: seq<seq<Hit>>, config: Config, limit: int, fused: seq<Hit>)
    requires AllUsable(resultSets, config)
    requires IsFusion(AllEntries(resultSets, config), KeysOf(fused, config.dedupeKey), limit, fused)
    ensures var n := |KeySet(resultSets, config.dedupeKey)|;
            && (limit >= 0 ==> |fused| <= limit && |fused| <= n && (|fused| == limit || |fused| == n))
            && (limit < 0 && n + limit >= 0 ==> |fused| == n + limit)
            && (limit < 0 && n + limit < 0 ==> fused == [])
  {
    KeySetCount(resultSets, config);
  }

  /** The set of keys and their totals do not depend on the order of the result sets. */
  lemma {:induction false} PermutationKeepsTotals(resultSets: seq<seq<Hit>>, permuted: seq<seq<Hit>>, config: Config)
    requires multiset(resultSets) == multiset(permuted)
    requires AllUsable(resultSets, config) && AllUsable(permuted, config)
    ensures SameKeySet(AllEntries(resultSets, config), AllEntries(permuted, config))
    ensures forall k :: Total(AllEntries(resultSets, config), k) == Total(AllEntries(permuted, config), k)
  {
    forall k: string
      ensures k in FirstKeys(AllEntries(resultSets, config)) <==> k in FirstKeys(AllEntries(permuted, config))
    {
      KeysOfAllEntries(resultSets, config, k);
      KeysOfAllEntries(permuted, config, k);
      if HasKey(resultSets, config.dedupeKey, k) {
        HasKeyPermutation(resultSets, permuted, config.dedupeKey, k);
      }
      if HasKey(permuted, config.dedupeKey, k) {
        HasKeyPermutation(permuted, resultSets, config.dedupeKey, k);
      }
    }
    forall k: string
      ensures Total(AllEntries(resultSets, config), k) == Total(AllEntries(permuted, config), k)
    {
      TotalIsSetSum(resultSets, config, k);
      TotalIsSetSum(permuted, config, k);
      SetSumPermutation(resultSets, permuted, config, k);
    }
  }

  ghost predicate TotalsDiffer(entries: seq<Entry>) {
    forall a, b :: a in FirstKeys(entries) && b in FirstKeys(entries) && a != b ==> Total(entries, a) != Total(entries, b)
  }

  /** Order independence: permuting the result sets leaves the sequence of fused scores
      unchanged, and the sequence of keys too when no two keys have the same total. */
  lemma FusionIsOrderIndependent(
    resultSets: seq<seq<Hit>>, permuted: seq<seq<Hit>>, config: Config, limit: int,
    fused: seq<Hit>, otherFused: seq<Hit>)
    requires multiset(resultSets) == multiset(permuted)
    requires AllUsable(resultSets, config) && AllUsable(permuted, config)
    requires IsFusion(AllEntries(resultSets, config), KeysOf(fused, config.dedupeKey), limit, fused)
    requires IsFusion(AllEntries(permuted, config), KeysOf(otherFused, config.dedupeKey), limit, otherFused)
    ensures |fused| == |otherFused|
    ensures forall i :: 0 <= i < |fused| ==> fused[i].score == otherFused[i].score
    ensures TotalsDiffer(AllEntries(resultSets, config)) ==>
              KeysOf(fused, config.dedupeKey) == KeysOf(otherFused, config.dedupeKey)
  {
    var entries, others := AllEntries(resultSets, config), AllEntries(permuted, config);
    var keys, otherKeys := KeysOf(fused, config.dedupeKey), KeysOf(otherFused, config.dedupeKey);
    PermutationKeepsTotals(resultSets, permuted, config);
    SameKeyCount(entries, others);
    forall i | 0 <= i < |keys|
      ensures fused[i].score == otherFused[i].score == Total(entries, keys[i]) == Total(entries, otherKeys[i])
    {
      ScoreNotAbove(entries, keys, fused, others, otherKeys, otherFused, limit, i);
      ScoreNotAbove(others, otherKeys, otherFused, entries, keys, fused, limit, i);
      assert IsFusedHit(entries, keys[i], fused[i], i + 1);
      assert IsFusedHit(others, otherKeys[i], otherFused[i], i + 1);
    }
  }

  // ---- pairs of inputs that differ in one place ----

  /** The same keys; in the second list the entries of `key` have no fewer points and all others no more. */
  ghost predicate Raises(entries: seq<Entry>, others: seq<Entry>, key: string) {
    && |entries| == |others|
    && forall i :: 0 <= i < |entries| ==>
         && entries[i].key == others[i].key
         && (if entries[i].key == key then entries[i].amount <= others[i].amount
             else entries[i].amount >= others[i].amount)
  }

  lemma {:induction false} RaisesTotals(entries: seq<Entry>, others: seq<Entry>, key: string)
    requires Raises(entries, others, key)
    ensures FirstKeys(entries) == FirstKeys(others)
    ensures Total(entries, key) <= Total(others, key)
    ensures forall k :: k != key ==> Total(entries, k) >= Total(others, k)
  {
    if entries != [] {
      RaisesTotals(entries[..|entries| - 1], others[..|others| - 1], key);
    }
  }

  lemma RaisesAppend(a: seq<Entry>, b: seq<Entry>, c: seq<Entry>, d: seq<Entry>, key: string)
    requires Raises(a, b, key) && Raises(c, d, key)
    ensures Raises(a + c, b + d, key)
  {
  }

  lemma {:induction false} RaisesAllEntries(
    resultSets: seq<seq<Hit>>, changed: seq<seq<Hit>>, config: Config, key: string)
    requires |resultSets| == |changed| && AllUsable(resultSets, config) && AllUsable(changed, config)
    requires forall s :: 0 <= s < |resultSets| ==>
               Raises(SetEntries(resultSets[s], config), SetEntries(changed[s], config), key)
    ensures Raises(AllEntries(resultSets, config), AllEntries(changed, config), key)
  {
    if resultSets != [] {
      var last := |resultSets| - 1;
      assert Raises(SetEntries(resultSets[last], config), SetEntries(changed[last], config), key);
      RaisesAllEntries(resultSets[..last], changed[..last], config, key);
      RaisesAppend(AllEntries(resultSets[..last], config), AllEntries(changed[..last], config),
                   SetEntries(resultSets[last], config), SetEntries(changed[last], config), key);
    }
  }

  /** When replacing the denominator `high` by the smaller `low` does not lower `weight` over it: the
      weight is positive and the denominators are on the same side of zero, or it is negative and they
      are not. */
  predicate SmallerDenominatorHelps(weight: real, low: int, high: int) {
    weight == 0.0 || low == high || (weight > 0.0 <==> !(low < 0 < high))
  }

  lemma SmallerDenominator(weight: real, low: int, high: int)
    requires low <= high && low != 0 && high != 0
    ensures weight / high as real <= weight / low as real <==> SmallerDenominatorHelps(weight, low, high)
  {
  }

  /** The result sets with the explicit rank of one hit replaced. */
  function WithRank(resultSets: seq<seq<Hit>>, s: nat, i: nat, rank: int): seq<seq<Hit>>
    requires s < |resultSets| && i < |resultSets[s]|
  {
    resultSets[s := resultSets[s][i := resultSets[s][i].(rank := Some(rank))]]
  }

  /** The replaced hit's own contribution does not fall, or does not rise. */
  lemma RankChangesAmount(hits: seq<Hit>, changed: seq<Hit>, i: nat, rank: int, better: int, config: Config)
    requires i < |hits| == |changed| && changed == hits[i := hits[i].(rank := Some(better))]
    requires hits[i].rank == Some(rank) && 1 <= better <= rank && config.fusionMethod == "rrf"
    requires RanksUsable(hits, config) && RanksUsable(changed, config)
    ensures if SmallerDenominatorHelps(SourceWeight(hits[i].source, config), config.rrfK + better, config.rrfK + rank)
            then RrfEntry(hits, i, config).amount <= RrfEntry(changed, i, config).amount
            else RrfEntry(changed, i, config).amount <= RrfEntry(hits, i, config).amount
  {
    assert RankOf(hits[i], i) == rank && RankOf(changed[i], i) == better;
    SmallerDenominator(SourceWeight(hits[i].source, config), config.rrfK + better, config.rrfK + rank);
  }

  predicate RankHelps(hit: Hit, better: int, config: Config) {
    hit.rank.Some? ==>
      SmallerDenominatorHelps(SourceWeight(hit.source, config), config.rrfK + better, config.rrfK + hit.rank.value)
  }

  lemma {:induction false} RankChanges(resultSets: seq<seq<Hit>>, s: nat, i: nat, rank: int, better: int, config: Config)
    requires s < |resultSets| && i < |resultSets[s]| && resultSets[s][i].rank == Some(rank)
    requires 1 <= better <= rank && config.fusionMethod == "rrf"
    requires AllUsable(resultSets, config) && AllUsable(WithRank(resultSets, s, i, better), config)
    ensures var key := DedupeKey(resultSets[s][i].payload, config.dedupeKey);
            var entries, others := AllEntries(resultSets, config), AllEntries(WithRank(resultSets, s, i, better), config);
            if RankHelps(resultSets[s][i], better, config) then Raises(entries, others, key) else Raises(others, entries, key)
  {
    var changed := WithRank(resultSets, s, i, better);
    var key := DedupeKey(resultSets[s][i].payload, config.dedupeKey);
    assert Usable(resultSets[s], config) && Usable(changed[s], config);
    RankChangesAmount(resultSets[s], changed[s], i, rank, better, config);
    if RankHelps(resultSets[s][i], better, config) {
      RaisesOneOfMany(resultSets, changed, s, config, key);
    } else {
      RaisesOneOfMany(changed, resultSets, s, config, key);
    }
  }

  lemma {:induction false} RaisesOneOfMany(resultSets: seq<seq<Hit>>, changed: seq<seq<Hit>>, s: nat, config: Config, key: string)
    requires s < |resultSets| == |changed| && changed == resultSets[s := changed[s]]
    requires AllUsable(resultSets, config) && AllUsable(changed, config)
    requires Raises(SetEntries(resultSets[s], config), SetEntries(changed[s], config), key)
    ensures Raises(AllEntries(resultSets, config), AllEntries(changed, config), key)
  {
    forall t | 0 <= t < |resultSets|
      ensures Raises(SetEntries(resultSets[t], config), SetEntries(changed[t], config), key)
    {
      assert t != s ==> changed[t] == resultSets[t];
    }
    RaisesAllEntries(resultSets, changed, config, key);
  }

  lemma RaisedKeyDoesNotFall(
    entries: seq<Entry>, keys: seq<string>, fused: seq<Hit>,
    others: seq<Entry>, otherKeys: seq<string>, otherFused: seq<Hit>, limit: int, p: nat)
    requires IsFusion(entries, keys, limit, fused) && IsFusion(others, otherKeys, limit, otherFused)
    requires p < |keys| && Raises(entries, others, keys[p])
    ensures exists q :: 0 <= q <= p && q < |otherKeys| && otherKeys[q] == keys[p]
  {
    RaisesTotals(entries, others, keys[p]);
    KeyDoesNotFall(entries, keys, fused, others, otherKeys, otherFused, limit, p);
  }

  /** The place `p` of `fused` has a key that stands at `p` or before in `others`. */
  ghost predicate StandsNoLater(fused: seq<Hit>, p: nat, others: seq<Hit>, dedupeKey: string)
    requires p < |fused|
  {
    exists q :: 0 <= q <= p && q < |others|
      && DedupeKey(others[q].payload, dedupeKey) == DedupeKey(fused[p].payload, dedupeKey)
  }

  lemma RaisedStandsNoLater(
    entries: seq<Entry>, fused: seq<Hit>, others: seq<Entry>, otherFused: seq<Hit>, dedupeKey: string, limit: int, p: nat)
    requires IsFusion(entries, KeysOf(fused, dedupeKey), limit, fused)
    requires IsFusion(others, KeysOf(otherFused, dedupeKey), limit, otherFused)
    requires p < |fused| && Raises(entries, others, DedupeKey(fused[p].payload, dedupeKey))
    ensures StandsNoLater(fused, p, otherFused, dedupeKey)
  {
    var keys, otherKeys := KeysOf(fused, dedupeKey), KeysOf(otherFused, dedupeKey);
    RaisedKeyDoesNotFall(entries, keys, fused, others, otherKeys, otherFused, limit, p);
    var q :| 0 <= q <= p && q < |otherKeys| && otherKeys[q] == keys[p];
    assert DedupeKey(otherFused[q].payload, dedupeKey) == otherKeys[q];
  }

  /** Wherever the key stands in `fused`, it stands no later in `others`. */
  ghost predicate NeverLater(key: string, fused: seq<Hit>, others: seq<Hit>, dedupeKey: string) {
    forall p :: 0 <= p < |fused| && DedupeKey(fused[p].payload, dedupeKey) == key ==> StandsNoLater(fused, p, others, dedupeKey)
  }

  lemma RaisedIsNeverLater(
    entries: seq<Entry>, fused: seq<Hit>, others: seq<Entry>, otherFused: seq<Hit>, dedupeKey: string, limit: int, key: string)
    requires IsFusion(entries, KeysOf(fused, dedupeKey), limit, fused)
    requires IsFusion(others, KeysOf(otherFused, dedupeKey), limit, otherFused)
    requires Raises(entries, others, key)
    ensures NeverLater(key, fused, otherFused, dedupeKey)
  {
    forall p | 0 <= p < |fused| && DedupeKey(fused[p].payload, dedupeKey) == key
      ensures StandsNoLater(fused, p, otherFused, dedupeKey)
    {
      RaisedStandsNoLater(entries, fused, others, otherFused, dedupeKey, limit, p);
    }
  }

  /** What lowering one hit's explicit positive rank does to its key. If the smaller denominator helps,
      as it does for every nonnegative weight when both denominators are positive, the key never falls;
      and if not, it never rises. */
  lemma {:induction false} BetterRankNeverHurts(
    resultSets: seq<seq<Hit>>, s: nat, i: nat, rank: int, better: int, config: Config, limit: int,
    fused: seq<Hit>, otherFused: seq<Hit>)
    requires s < |resultSets| && i < |resultSets[s]| && resultSets[s][i].rank == Some(rank)
    requires 1 <= better <= rank && config.fusionMethod == "rrf"
    requires AllUsable(resultSets, config) && AllUsable(WithRank(resultSets, s, i, better), config)
    requires IsFusion(AllEntries(resultSets, config), KeysOf(fused, config.dedupeKey), limit, fused)
    requires IsFusion(AllEntries(WithRank(resultSets, s, i, better), config),
                      KeysOf(otherFused, config.dedupeKey), limit, otherFused)
    ensures var key := DedupeKey(resultSets[s][i].payload, config.dedupeKey);
            if RankHelps(resultSets[s][i], better, config) then NeverLater(key, fused, otherFused, config.dedupeKey)
            else NeverLater(key, otherFused, fused, config.dedupeKey)
  {
    var key := DedupeKey(resultSets[s][i].payload, config.dedupeKey);
    var entries, others := AllEntries(resultSets, config), AllEntries(WithRank(resultSets, s, i, better), config);
    RankChanges(resultSets, s, i, rank, better, config);
    if RankHelps(resultSets[s][i], better, config) {
      RaisedIsNeverLater(entries, fused, others, otherFused, config.dedupeKey, limit, key);
    } else {
      RaisedIsNeverLater(others, otherFused, entries, fused, config.dedupeKey, limit, key);
    }
  }

  lemma TwoEntries(a: Entry, b: Entry)
    requires a.key != b.key
    ensures FirstKeys([a, b]) == [a.key, b.key]
    ensures Total([a, b], a.key) == a.amount && Total([a, b], b.key) == b.amount
  {
    assert [a, b][..1] == [a] && [a][..0] == [];
    assert FirstKeys([a]) == [a.key];
    assert Total([a], a.key) == a.amount && Total([a], b.key) == 0.0;
  }

  /** Two keys are ranked by their points, and the first one first if these are equal. */
  lemma TwoRanked(a: Entry, b: Entry, keys: seq<string>, fused: seq<Hit>)
    requires a.key != b.key && IsFusion([a, b], keys, 2, fused)
    ensures keys == if a.amount >= b.amount then [a.key, b.key] else [b.key, a.key]
  {
    TwoEntries(a, b);
    FusionKeysDiffer([a, b], keys, 2, fused);
    assert keys[0] in [a.key, b.key] && keys[1] in [a.key, b.key];
    assert Position([a.key, b.key], a.key) == 0 && Position([a.key, b.key], b.key) == 1;
    assert Beats([a, b], keys[0], keys[1]);
  }

  lemma FusionKeysDiffer(entries: seq<Entry>, keys: seq<string>, limit: int, fused: seq<Hit>)
    requires IsFusion(entries, keys, limit, fused) && |keys| == 2
    ensures keys[0] != keys[1]
  {
    assert Beats(entries, keys[0], keys[1]);
  }

  /** The condition is exact: for any weight and any ranks at which the smaller denominator does not
      help, the key of a hit that ties with another one falls from the first place to the second when its
      rank is lowered. */
  lemma BetterRankCanHurt(a: Hit, b: Hit, rank: int, better: int, config: Config, fused: seq<Hit>, otherFused: seq<Hit>)
    requires config.fusionMethod == "rrf" && a.rank == Some(rank) && b.rank == Some(rank) && a.source == b.source
    requires DedupeKey(a.payload, config.dedupeKey) != DedupeKey(b.payload, config.dedupeKey)
    requires 1 <= better <= rank && !RankHelps(a, better, config)
    requires AllUsable([[a, b]], config) && AllUsable(WithRank([[a, b]], 0, 0, better), config)
    requires IsFusion(AllEntries([[a, b]], config), KeysOf(fused, config.dedupeKey), 2, fused)
    requires IsFusion(AllEntries(WithRank([[a, b]], 0, 0, better), config), KeysOf(otherFused, config.dedupeKey), 2, otherFused)
    ensures !NeverLater(DedupeKey(a.payload, config.dedupeKey), fused, otherFused, config.dedupeKey)
  {
    var hits, changed := [a, b], [a.(rank := Some(better)), b];
    assert [hits][0] == hits && hits[0 := hits[0].(rank := Some(better))] == changed && [hits][0 := changed] == [changed];
    assert Usable([hits][0], config) && Usable([changed][0], config);
    OneSetEntries(hits, config);
    OneSetEntries(changed, config);
    TiedAmounts(a, b, rank, better, config);
    var x, y, z := RrfEntry(hits, 0, config), RrfEntry(hits, 1, config), RrfEntry(changed, 0, config);
    TwoRanked(x, y, KeysOf(fused, config.dedupeKey), fused);
    TwoRanked(z, y, KeysOf(otherFused, config.dedupeKey), otherFused);
    FirstIsNotNoLater(fused, otherFused, config.dedupeKey, x.key, y.key);
  }

  /** Two hits of one source and rank contribute alike, and more than the first with the lower rank. */
  lemma TiedAmounts(a: Hit, b: Hit, rank: int, better: int, config: Config)
    requires a.rank == Some(rank) && b.rank == Some(rank) && a.source == b.source
    requires 1 <= better <= rank && !RankHelps(a, better, config)
    requires RanksUsable([a, b], config) && RanksUsable([a.(rank := Some(better)), b], config)
    ensures var hits, changed := [a, b], [a.(rank := Some(better)), b];
            && RrfEntry(hits, 0, config).amount == RrfEntry(hits, 1, config).amount
            && RrfEntry(changed, 1, config) == RrfEntry(hits, 1, config)
            && RrfEntry(changed, 0, config).amount < RrfEntry(hits, 1, config).amount
  {
    var hits, changed := [a, b], [a.(rank := Some(better)), b];
    assert config.rrfK + RankOf(hits[0], 0) != 0 && config.rrfK + RankOf(changed[0], 0) != 0;
    SmallerDenominator(SourceWeight(a.source, config), config.rrfK + better, config.rrfK + rank);
  }

  lemma FirstIsNotNoLater(fused: seq<Hit>, others: seq<Hit>, dedupeKey: string, first: string, second: string)
    requires |fused| == |others| == 2 && first != second
    requires KeysOf(fused, dedupeKey) == [first, second] && KeysOf(others, dedupeKey) == [second, first]
    ensures !NeverLater(first, fused, others, dedupeKey)
  {
    assert KeysOf(fused, dedupeKey)[0] == first && KeysOf(others, dedupeKey)[0] == second;
    assert !StandsNoLater(fused, 0, others, dedupeKey);
  }

  lemma OneSetEntries(hits: seq<Hit>, config: Config)
    requires |hits| == 2 && config.fusionMethod == "rrf" && RanksUsable(hits, config)
    ensures AllUsable([hits], config) && AllEntries([hits], config) == [RrfEntry(hits, 0, config), RrfEntry(hits, 1, config)]
  {
    assert [hits][..0] == [];
    assert AllEntries([hits], config) == [] + SetEntries(hits, config);
  }

  /** The same entries but for the raw scores of the hits. */
  ghost predicate Similar(entries: seq<Entry>, others: seq<Entry>) {
    && |entries| == |others|
    && forall i :: 0 <= i < |entries| ==>
         && entries[i].key == others[i].key && entries[i].amount == others[i].amount
         && others[i].hit == entries[i].hit.(score := others[i].hit.score)
  }

  lemma {:induction false} SimilarTotals(entries: seq<Entry>, others: seq<Entry>, key: string)
    requires Similar(entries, others)
    ensures FirstKeys(entries) == FirstKeys(others)
    ensures Total(entries, key) == Total(others, key)
    ensures Representative(entries, key).Some? <==> Representative(others, key).Some?
    ensures Representative(entries, key).Some? ==>
              Representative(others, key).value
              == Representative(entries, key).value.(score := Representative(others, key).value.score)
  {
    if entries != [] {
      SimilarTotals(entries[..|entries| - 1], others[..|others| - 1], key);
    }
  }

  lemma SimilarSources(entries: seq<Entry>, others: seq<Entry>, key: string)
    requires Similar(entries, others)
    ensures SourcesOf(entries, key) == SourcesOf(others, key)
  {
    assert forall i :: 0 <= i < |entries| ==> entries[i].hit.source == others[i].hit.source;
  }

  lemma {:induction false} SimilarAllEntries(resultSets: seq<seq<Hit>>, changed: seq<seq<Hit>>, config: Config)
    requires |resultSets| == |changed| && AllUsable(resultSets, config) && AllUsable(changed, config)
    requires forall s :: 0 <= s < |resultSets| ==> Similar(SetEntries(resultSets[s], config), SetEntries(changed[s], config))
    ensures Similar(AllEntries(resultSets, config), AllEntries(changed, config))
  {
    if resultSets != [] {
      SimilarAllEntries(resultSets[..|resultSets| - 1], changed[..|changed| - 1], config);
    }
  }

  lemma SimilarBeats(entries: seq<Entry>, others: seq<Entry>, a: string, b: string)
    requires Similar(entries, others)
    ensures Beats(entries, a, b) <==> Beats(others, a, b)
  {
    SimilarTotals(entries, others, a);
    SimilarTotals(entries, others, b);
  }

  /** Similar entries are fused alike, but for the raw score kept as `base_score`. */
  lemma SimilarFusion(
    entries: seq<Entry>, keys: seq<string>, fused: seq<Hit>,
    others: seq<Entry>, otherKeys: seq<string>, otherFused: seq<Hit>, limit: int)
    requires IsFusion(entries, keys, limit, fused) && IsFusion(others, otherKeys, limit, otherFused)
    requires Similar(entries, others)
    ensures keys == otherKeys
    ensures forall i :: 0 <= i < |keys| ==> SameButBaseScore(fused[i], otherFused[i])
  {
    SimilarTotals(entries, others, "");
    forall a, b: string
      ensures Beats(entries, a, b) <==> Beats(others, a, b)
    {
      SimilarBeats(entries, others, a, b);
    }
    forall i | 0 <= i < |keys|
      ensures keys[i] == otherKeys[i]
    {
      SamePlace(entries, keys, fused, others, otherKeys, otherFused, limit, i);
    }
    forall i | 0 <= i < |keys|
      ensures SameButBaseScore(fused[i], otherFused[i])
    {
      SimilarTotals(entries, others, keys[i]);
      SimilarSources(entries, others, keys[i]);
      assert IsFusedHit(entries, keys[i], fused[i], i + 1) && IsFusedHit(others, keys[i], otherFused[i], i + 1);
    }
  }

  lemma SamePlace(
    entries: seq<Entry>, keys: seq<string>, fused: seq<Hit>,
    others: seq<Entry>, otherKeys: seq<string>, otherFused: seq<Hit>, limit: int, i: nat)
    requires IsFusion(entries, keys, limit, fused) && IsFusion(others, otherKeys, limit, otherFused)
    requires SameKeySet(entries, others) && Distinct(keys) && i < |keys|
    requires forall a, b :: Beats(entries, a, b) <==> Beats(others, a, b)
    ensures i < |otherKeys| && keys[i] == otherKeys[i]
  {
    KeyDoesNotFall(entries, keys, fused, others, otherKeys, otherFused, limit, i);
    var q :| 0 <= q < i + 1 && otherKeys[q] == keys[i];
    KeyDoesNotFall(others, otherKeys, otherFused, entries, keys, fused, limit, q);
    var r :| 0 <= r < q + 1 && keys[r] == otherKeys[q];
    assert r == i;
  }

  ghost predicate SameButBaseScore(a: Hit, b: Hit) {
    && a.payload == b.payload && a.score == b.score && a.source == b.source && a.rank == b.rank
    && a.metadata - {"base_score"} == b.metadata - {"base_score"}
  }

  // ---- weighted fusion is free of scale ----

  /** Every raw score `x` becomes `f(x)`. */
  function Rescaled(hits: seq<Hit>, f: real -> real): (rescaled: seq<Hit>)
    ensures |rescaled| == |hits|
    ensures forall i :: 0 <= i < |hits| ==> rescaled[i] == hits[i].(score := f(hits[i].score))
  {
    seq(|hits|, i requires 0 <= i < |hits| => hits[i].(score := f(hits[i].score)))
  }

  ghost predicate Increasing(f: real -> real) {
    forall x, y :: x <= y <==> f(x) <= f(y)
  }

  lemma {:induction false} RescaledExtremes(hits: seq<Hit>, f: real -> real)
    requires hits != [] && Increasing(f)
    ensures MinScore(Rescaled(hits, f)) == f(MinScore(hits))
    ensures MaxScore(Rescaled(hits, f)) == f(MaxScore(hits))
  {
    if |hits| > 1 {
      RescaledExtremes(hits[1..], f);
      assert Rescaled(hits, f)[1..] == Rescaled(hits[1..], f);
    }
  }

  ghost predicate IsAffine(f: real -> real, a: real, b: real) {
    forall x :: f(x) == a * x + b
  }

  /** Rescaling by `f` does not show after min-max normalisation. */
  ghost predicate UnseenByUnitScore(f: real -> real) {
    forall x, low, high :: UnitScore(f(x), f(low), f(high)) == UnitScore(x, low, high)
  }

  lemma {:induction false} AffineIsUnseen(f: real -> real, a: real, b: real)
    requires a > 0.0 && IsAffine(f, a, b)
    ensures Increasing(f) && UnseenByUnitScore(f)
  {
    forall x, y
      ensures x <= y <==> f(x) <= f(y)
    {
      assert f(x) == a * x + b && f(y) == a * y + b;
    }
    forall x, low, high
      ensures UnitScore(f(x), f(low), f(high)) == UnitScore(x, low, high)
    {
      assert f(x) == a * x + b && f(low) == a * low + b && f(high) == a * high + b;
    }
  }

  lemma NormalizedIsScaleFree(hits: seq<Hit>, f: real -> real, i: nat)
    requires Increasing(f) && UnseenByUnitScore(f) && i < |hits|
    ensures Normalized(Rescaled(hits, f), i) == Normalized(hits, i)
  {
    RescaledExtremes(hits, f);
  }

  /** Scale freedom: replacing one retriever's raw scores `s` by `a * s + b` with positive `a`
      leaves every fused key, payload, score, rank and source list unchanged. */
  lemma WeightedFusionIsScaleFree(
    resultSets: seq<seq<Hit>>, s: nat, f: real -> real, a: real, b: real, config: Config, limit: int,
    fused: seq<Hit>, otherFused: seq<Hit>)
    requires s < |resultSets| && config.fusionMethod != "rrf"
    requires a > 0.0 && IsAffine(f, a, b)
    requires IsFusion(AllEntries(resultSets, config), KeysOf(fused, config.dedupeKey), limit, fused)
    requires IsFusion(AllEntries(resultSets[s := Rescaled(resultSets[s], f)], config),
                      KeysOf(otherFused, config.dedupeKey), limit, otherFused)
    ensures KeysOf(fused, config.dedupeKey) == KeysOf(otherFused, config.dedupeKey)
    ensures forall i :: 0 <= i < |fused| ==> SameButBaseScore(fused[i], otherFused[i])
  {
    var changed := resultSets[s := Rescaled(resultSets[s], f)];
    forall t | 0 <= t < |resultSets|
      ensures Similar(SetEntries(resultSets[t], config), SetEntries(changed[t], config))
    {
      if t == s {
        RescaledIsSimilar(resultSets[s], f, a, b, config);
      }
    }
    SimilarAllEntries(resultSets, changed, config);
    SimilarFusion(AllEntries(resultSets, config), KeysOf(fused, config.dedupeKey), fused,
                  AllEntries(changed, config), KeysOf(otherFused, config.dedupeKey), otherFused, limit);
  }

  lemma RescaledIsSimilar(hits: seq<Hit>, f: real -> real, a: real, b: real, config: Config)
    requires a > 0.0 && IsAffine(f, a, b) && config.fusionMethod != "rrf"
    ensures Similar(SetEntries(hits, config), SetEntries(Rescaled(hits, f), config))
  {
    AffineIsUnseen(f, a, b);
    forall i | 0 <= i < |hits|
      ensures WeightedEntry(hits, i, config).amount == WeightedEntry(Rescaled(hits, f), i, config).amount
    {
      NormalizedIsScaleFree(hits, f, i);
    }
  }

  // ---- weighted scores are bounded ----

  lemma {:induction false} ExtremesBound(hits: seq<Hit>, i: nat)
    requires i < |hits|
    ensures MinScore(hits) <= hits[i].score <= MaxScore(hits)
  {
    if |hits| > 1 {
      ExtremesBound(hits[1..], if i > 0 then i - 1 else 0);
    }
  }

  lemma NormalizedInUnit(hits: seq<Hit>, i: nat)
    requires i < |hits|
    ensures 0.0 <= Normalized(hits, i) <= 1.0
  {
    ExtremesBound(hits, i);
    var low, high, x := MinScore(hits), MaxScore(hits), hits[i].score;
    if high != low {
      FractionInUnit(x, low, high);
    }
  }

  lemma FractionInUnit(x: real, low: real, high: real)
    requires low <= x <= high && low < high
    ensures 0.0 <= (x - low) / (high - low) <= 1.0
  {
    var q, d := (x - low) / (high - low), high - low;
    assert d * q == x - low;
  }

  function Sum(weights: seq<real>): real {
    if weights == [] then 0.0 else Sum(weights[..|weights| - 1]) + weights[|weights| - 1]
  }

  ghost predicate WeightsWithin(hits: seq<Hit>, config: Config, weight: real) {
    && weight >= 0.0
    && forall i :: 0 <= i < |hits| ==> 0.0 <= SourceWeight(hits[i].source, config) <= weight
  }

  lemma EntryBound(hits: seq<Hit>, config: Config, weight: real, i: nat)
    requires config.fusionMethod != "rrf" && WeightsWithin(hits, config, weight) && i < |hits|
    ensures SetEntries(hits, config)[i].key == DedupeKey(hits[i].payload, config.dedupeKey)
    ensures 0.0 <= SetEntries(hits, config)[i].amount <= weight
  {
    NormalizedInUnit(hits, i);
    ProductBound(SourceWeight(hits[i].source, config), Normalized(hits, i), weight);
    assert SetEntries(hits, config)[i] == WeightedEntry(hits, i, config);
  }

  lemma {:induction false} OneSetBound(hits: seq<Hit>, config: Config, weight: real, key: string, n: nat)
    requires config.fusionMethod != "rrf" && KeysDiffer(hits, config.dedupeKey) && WeightsWithin(hits, config, weight)
    requires n <= |hits|
    ensures 0.0 <= Total(SetEntries(hits, config)[..n], key) <= weight
    ensures (forall i :: 0 <= i < n ==> DedupeKey(hits[i].payload, config.dedupeKey) != key) ==>
              Total(SetEntries(hits, config)[..n], key) == 0.0
  {
    if n > 0 {
      OneSetBound(hits, config, weight, key, n - 1);
      EntryBound(hits, config, weight, n - 1);
      var entries := SetEntries(hits, config)[..n];
      assert entries[..n - 1] == SetEntries(hits, config)[..n - 1];
    }
  }

  lemma ProductBound(w: real, x: real, weight: real)
    requires 0.0 <= w <= weight && 0.0 <= x <= 1.0
    ensures 0.0 <= w * x <= weight
  {
    assert w * (1.0 - x) >= 0.0;
  }

  lemma {:induction false} TotalBound(resultSets: seq<seq<Hit>>, weights: seq<real>, config: Config, key: string)
    requires config.fusionMethod != "rrf" && |weights| == |resultSets|
    requires forall s :: 0 <= s < |resultSets| ==>
               KeysDiffer(resultSets[s], config.dedupeKey) && WeightsWithin(resultSets[s], config, weights[s])
    ensures 0.0 <= SetSum(resultSets, config, key) <= Sum(weights)
  {
    if resultSets != [] {
      var last := |resultSets| - 1;
      TotalBound(resultSets[..last], weights[..last], config, key);
      OneSetBound(resultSets[last], config, weights[last], key, |resultSets[last]|);
      assert SetEntries(resultSets[last], config)[..|resultSets[last]|] == SetEntries(resultSets[last], config);
    }
  }

  /** Without duplicate keys inside a result set and with nonnegative weights, each weighted
      fused score lies between zero and the sum of the set weights. */
  lemma {:induction false} WeightedScoresAreBounded(
    resultSets: seq<seq<Hit>>, weights: seq<real>, config: Config, limit: int, fused: seq<Hit>, i: nat)
    requires config.fusionMethod != "rrf" && |weights| == |resultSets|
    requires forall s :: 0 <= s < |resultSets| ==>
               KeysDiffer(resultSets[s], config.dedupeKey) && WeightsWithin(resultSets[s], config, weights[s])
    requires IsFusion(AllEntries(resultSets, config), KeysOf(fused, config.dedupeKey), limit, fused) && i < |fused|
    ensures 0.0 <= fused[i].score <= Sum(weights)
  {
    var key := KeysOf(fused, config.dedupeKey)[i];
    TotalIsSetSum(resultSets, config, key);
    TotalBound(resultSets, weights, config, key);
    assert IsFusedHit(AllEntries(resultSets, config), key, fused[i], i + 1);
  }
}
