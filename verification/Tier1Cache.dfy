/** The in-memory retrieval cache: per project an LRU store with a time to live. */
module Tier1Cache {
  import opened Common

  datatype Slot<+V> = Slot(expiry: real, value: V)

  /** An `OrderedDict`: its keys in order, oldest first, and what they map to. */
  datatype Store<+V> = Store(keys: seq<string>, slots: map<string, Slot<V>>)

  ghost predicate ValidStore<V>(store: Store<V>) {
    Distinct(store.keys) && forall k :: k in store.slots <==> k in store.keys
  }

  function Without(keys: seq<string>, key: string): seq<string> {
    if keys == [] then []
    else (if keys[0] == key then [] else [keys[0]]) + Without(keys[1..], key)
  }

  /** `del store[key]` */
  function Delete<V>(store: Store<V>, key: string): Store<V> {
    Store(Without(store.keys, key), store.slots - {key})
  }

  /** `store.move_to_end(key)` */
  function MoveToEnd<V>(store: Store<V>, key: string): Store<V> {
    store.(keys := Without(store.keys, key) + [key])
  }

  /** `store[key] = slot` for a key that is not in the store */
  function PutLast<V>(store: Store<V>, key: string, slot: Slot<V>): Store<V> {
    Store(store.keys + [key], store.slots[key := slot])
  }

  // ---- what the operations do, as functions of the stores of all projects ----

  /** What a lookup at time `now` returns. */
  function Lookup<V>(stores: map<string, Store<V>>, project: string, key: string, now: real): Option<V> {
    if project in stores && key in stores[project].slots && stores[project].slots[key].expiry >= now
    then Some(stores[project].slots[key].value)
    else None
  }

  /** A hit becomes the youngest entry; an expired entry is deleted; a miss changes nothing. */
  function AfterGet<V>(stores: map<string, Store<V>>, project: string, key: string, now: real): map<string, Store<V>> {
    if project !in stores || key !in stores[project].slots then stores
    else if stores[project].slots[key].expiry < now then stores[project := Delete(stores[project], key)]
    else stores[project := MoveToEnd(stores[project], key)]
  }

  /** An old entry of the key, or else the oldest entry of a full store, makes room. */
  function MadeRoom<V>(store: Store<V>, key: string, maxEntries: nat): Store<V> {
    if key in store.slots then Delete(store, key)
    else if |store.keys| >= maxEntries && store.keys != [] then Delete(store, store.keys[0])
    else store
  }

  function StoreOf<V>(stores: map<string, Store<V>>, project: string): Store<V> {
    if project in stores then stores[project] else Store([], map[])
  }

  function AfterSet<V>(
    stores: map<string, Store<V>>, project: string, key: string, value: V, now: real, maxEntries: nat, ttl: real)
    : map<string, Store<V>>
  {
    stores[project := PutLast(MadeRoom(StoreOf(stores, project), key, maxEntries), key, Slot(now + ttl, value))]
  }

  function LiveKeys<V>(keys: seq<string>, slots: map<string, Slot<V>>, now: real): seq<string> {
    if keys == [] then []
    else
      (if keys[0] in slots && slots[keys[0]].expiry < now then [] else [keys[0]]) + LiveKeys(keys[1..], slots, now)
  }

  function LiveStore<V>(store: Store<V>, now: real): Store<V> {
    Store(LiveKeys(store.keys, store.slots, now),
          map k | k in store.slots && !(store.slots[k].expiry < now) :: store.slots[k])
  }

  /** Expired entries go, and so do the stores that this leaves empty. */
  function AfterClear<V>(stores: map<string, Store<V>>, now: real): map<string, Store<V>> {
    map p | p in stores && LiveStore(stores[p], now).keys != [] :: LiveStore(stores[p], now)
  }

  // ---- facts about ordered dictionaries ----

  lemma {:induction false} WithoutLemma(keys: seq<string>, key: string)
    ensures forall k :: k in Without(keys, key) <==> k in keys && k != key
    ensures Distinct(keys) ==> Distinct(Without(keys, key))
    ensures Distinct(keys) ==> |Without(keys, key)| == |keys| - if key in keys then 1 else 0
    ensures key !in keys ==> Without(keys, key) == keys
  {
    if keys != [] {
      WithoutLemma(keys[1..], key);
      assert keys == [keys[0]] + keys[1..];
      assert Distinct(keys) ==> Distinct(keys[1..]) && keys[0] !in keys[1..];
    }
  }

  lemma {:induction false} LiveKeysLemma<V>(keys: seq<string>, slots: map<string, Slot<V>>, now: real)
    ensures forall k :: k in LiveKeys(keys, slots, now) <==> k in keys && !(k in slots && slots[k].expiry < now)
    ensures Distinct(keys) ==> Distinct(LiveKeys(keys, slots, now))
    ensures |LiveKeys(keys, slots, now)| <= |keys|
  {
    if keys != [] {
      LiveKeysLemma(keys[1..], slots, now);
      assert keys == [keys[0]] + keys[1..];
      assert Distinct(keys) ==> Distinct(keys[1..]) && keys[0] !in keys[1..];
    }
  }

  ghost predicate Bounded<V>(stores: map<string, Store<V>>, maxEntries: nat) {
    forall p :: p in stores ==> ValidStore(stores[p]) && |stores[p].keys| <= maxEntries
  }

  lemma BoundedAfterGet<V>(stores: map<string, Store<V>>, project: string, key: string, now: real, maxEntries: nat)
    requires Bounded(stores, maxEntries)
    ensures Bounded(AfterGet(stores, project, key, now), maxEntries)
  {
    if project in stores {
      WithoutLemma(stores[project].keys, key);
    }
  }

  lemma BoundedAfterSet<V>(
    stores: map<string, Store<V>>, project: string, key: string, value: V, now: real, maxEntries: nat, ttl: real)
    requires Bounded(stores, maxEntries) && maxEntries >= 1
    ensures Bounded(AfterSet(stores, project, key, value, now, maxEntries, ttl), maxEntries)
  {
    RoomIsMade(StoreOf(stores, project), key, maxEntries);
  }

  lemma RoomIsMade<V>(store: Store<V>, key: string, maxEntries: nat)
    requires ValidStore(store) && |store.keys| <= maxEntries && maxEntries >= 1
    ensures var room := MadeRoom(store, key, maxEntries);
            ValidStore(room) && key !in room.keys && |room.keys| < maxEntries
  {
    WithoutLemma(store.keys, key);
    if store.keys != [] {
      WithoutLemma(store.keys, store.keys[0]);
    }
  }

  lemma BoundedAfterClear<V>(stores: map<string, Store<V>>, now: real, maxEntries: nat)
    requires Bounded(stores, maxEntries)
    ensures Bounded(AfterClear(stores, now), maxEntries)
  {
    forall p | p in stores
      ensures ValidStore(LiveStore(stores[p], now)) && |LiveStore(stores[p], now).keys| <= maxEntries
    {
      LiveKeysLemma(stores[p].keys, stores[p].slots, now);
    }
  }

  /** `clear_expired` changes no lookup made at that moment or later. */
  lemma ClearChangesNoLookup<V>(
    stores: map<string, Store<V>>, now: real, maxEntries: nat, project: string, key: string, later: real)
    requires Bounded(stores, maxEntries) && later >= now
    ensures Lookup(AfterClear(stores, now), project, key, later) == Lookup(stores, project, key, later)
  {
    if project in stores {
      LiveKeysLemma(stores[project].keys, stores[project].slots, now);
    }
  }

  // ---- counting entries ----

  ghost function Pairs<V>(stores: map<string, Store<V>>): set<(string, string)> {
    set p, k | p in stores && k in stores[p].slots :: (p, k)
  }

  lemma {:induction false} PairCount(project: string, keys: set<string>)
    ensures |set k | k in keys :: (project, k)| == |keys|
  {
    if keys != {} {
      var k :| k in keys;
      PairCount(project, keys - {k});
      assert (set j | j in keys :: (project, j)) == (set j | j in keys - {k} :: (project, j)) + {(project, k)};
    }
  }

  lemma PairsOfOneProject<V>(stores: map<string, Store<V>>, project: string)
    requires project in stores
    ensures |Pairs(stores)| == |Pairs(stores - {project})| + |stores[project].slots.Keys|
  {
    var own := set k | k in stores[project].slots.Keys :: (project, k);
    PairCount(project, stores[project].slots.Keys);
    var others := Pairs(stores - {project});
    forall p, k | (p, k) in Pairs(stores)
      ensures (p, k) in others || (p, k) in own
    {
    }
    assert Pairs(stores) == others + own && others !! own;
  }

  lemma {:induction false} KeysCount(keys: seq<string>, slots: set<string>)
    requires Distinct(keys) && forall k :: k in slots <==> k in keys
    ensures |slots| == |keys|
  {
    if keys == [] {
      assert slots == {};
    } else {
      KeysCount(keys[1..], slots - {keys[0]});
    }
  }

  lemma SweepCount<V>(stores: map<string, Store<V>>, project: string, now: real)
    requires project in stores && ValidStore(stores[project])
    ensures ValidStore(LiveStore(stores[project], now))
    ensures |Pairs(stores)| - |Pairs(stores[project := LiveStore(stores[project], now)])|
         == |stores[project].keys| - |LiveStore(stores[project], now).keys|
  {
    var store, live := stores[project], LiveStore(stores[project], now);
    LiveKeysLemma(store.keys, store.slots, now);
    PairsOfOneProject(stores, project);
    PairsOfOneProject(stores[project := live], project);
    assert stores[project := live] - {project} == stores - {project};
    KeysCount(store.keys, store.slots.Keys);
    KeysCount(live.keys, live.slots.Keys);
  }

  // ---- the cache ----

  class Tier1MemoryCache<V> {
    const maxEntries: nat
    const ttl: real
    var stores: map<string, Store<V>>

    /** No project holds more than `maxEntries` entries, and no key twice. */
    ghost predicate Valid()
      reads this
    {
      maxEntries >= 1 && Bounded(stores, maxEntries)
    }

    constructor (maxEntries: nat, ttl: real)
      requires maxEntries >= 1
      ensures Valid() && stores == map[] && this.maxEntries == maxEntries && this.ttl == ttl
    {
      this.maxEntries := maxEntries;
      this.ttl := ttl;
      stores := map[];
    }

    method Get(project: string, key: string, now: real) returns (value: Option<V>)
      requires Valid()
      modifies this
      ensures Valid()
      ensures value == Lookup(old(stores), project, key, now)
      ensures stores == AfterGet(old(stores), project, key, now)
    {
      BoundedAfterGet(stores, project, key, now, maxEntries);
      if project !in stores || key !in stores[project].slots {
        return None;
      }
      var slot := stores[project].slots[key];
      if slot.expiry < now {
        stores := stores[project := Delete(stores[project], key)];
        return None;
      }
      stores := stores[project := MoveToEnd(stores[project], key)];
      return Some(slot.value);
    }

    method Set(project: string, key: string, value: V, now: real)
      requires Valid()
      modifies this
      ensures Valid()
      ensures stores == AfterSet(old(stores), project, key, value, now, maxEntries, ttl)
    {
      BoundedAfterSet(stores, project, key, value, now, maxEntries, ttl);
      if project !in stores {
        stores := stores[project := Store([], map[])];
      }
      var store := stores[project];
      if key in store.slots {
        store := Delete(store, key);
      } else if |store.keys| >= maxEntries {
        store := Delete(store, store.keys[0]);
      }
      var expiry := now + ttl;
      stores := stores[project := PutLast(store, key, Slot(expiry, value))];
    }

    method InvalidateProject(project: string)
      requires Valid()
      modifies this
      ensures Valid() && stores == old(stores) - {project}
    {
      stores := stores - {project};
    }

    /** Drops the expired entries and returns how many there were. */
    method ClearExpired(now: real) returns (removed: nat)
      requires Valid()
      modifies this
      ensures Valid() && stores == AfterClear(old(stores), now)
      ensures removed == |Pairs(old(stores))| - |Pairs(stores)|
    {
      removed := 0;
      BoundedAfterClear(stores, now, maxEntries);
      ghost var before := stores;
      var empty: set<string> := {};
      var todo := stores.Keys;
      SweptAll(before, now, maxEntries);
      while todo != {}
        invariant todo <= before.Keys
        invariant stores == SweptExcept(before, todo, now)
        invariant empty == Emptied(before, todo, now)
        invariant |Pairs(before)| == |Pairs(stores)| + removed
      {
        var project :| project in todo;
        SweptExceptStep(before, todo, project, now);
        SweepCount(stores, project, now);
        var live, count := Sweep(stores[project], now);
        stores := stores[project := live];
        removed := removed + count;
        if live.keys == [] {
          empty := empty + {project};
        }
        todo := todo - {project};
      }
      stores := stores - empty;
    }
  }

  /** The stores while they are being swept: those in `todo` are still untouched. */
  ghost function SweptExcept<V>(before: map<string, Store<V>>, todo: set<string>, now: real): map<string, Store<V>> {
    map p | p in before :: if p in todo then before[p] else LiveStore(before[p], now)
  }

  ghost function Emptied<V>(before: map<string, Store<V>>, todo: set<string>, now: real): set<string> {
    set p | p in before && p !in todo && LiveStore(before[p], now).keys == []
  }

  lemma SweptExceptStep<V>(before: map<string, Store<V>>, todo: set<string>, project: string, now: real)
    requires project in todo && todo <= before.Keys
    ensures SweptExcept(before, todo, now)[project] == before[project]
    ensures SweptExcept(before, todo - {project}, now)
         == SweptExcept(before, todo, now)[project := LiveStore(before[project], now)]
    ensures Emptied(before, todo - {project}, now)
         == Emptied(before, todo, now) + if LiveStore(before[project], now).keys == [] then {project} else {}
  {
  }

  lemma SweptAll<V>(before: map<string, Store<V>>, now: real, maxEntries: nat)
    requires Bounded(before, maxEntries)
    ensures SweptExcept(before, {}, now) - Emptied(before, {}, now) == AfterClear(before, now)
    ensures Pairs(AfterClear(before, now)) == Pairs(SweptExcept(before, {}, now))
    ensures SweptExcept(before, before.Keys, now) == before && Emptied(before, before.Keys, now) == {}
  {
    forall p | p in before
      ensures LiveStore(before[p], now).keys == [] ==> LiveStore(before[p], now).slots == map[]
    {
      LiveKeysLemma(before[p].keys, before[p].slots, now);
    }
  }

  /** The keys of one store whose entries have expired, in order of age. */
  method ExpiredKeys<V>(store: Store<V>, now: real) returns (expired: seq<string>)
    requires ValidStore(store)
    ensures Distinct(expired)
    ensures forall k :: k in expired <==> k in store.slots && store.slots[k].expiry < now
  {
    expired := [];
    for i := 0 to |store.keys|
      invariant Distinct(expired)
      invariant forall k :: k in expired <==> k in store.keys[..i] && store.slots[k].expiry < now
    {
      if store.slots[store.keys[i]].expiry < now {
        expired := expired + [store.keys[i]];
      }
    }
    assert store.keys[..|store.keys|] == store.keys;
  }

  /** The expired keys of one store are listed first and deleted then. */
  method Sweep<V>(store: Store<V>, now: real) returns (live: Store<V>, count: nat)
    requires ValidStore(store)
    ensures live == LiveStore(store, now) && count == |store.keys| - |live.keys|
  {
    var expired := ExpiredKeys(store, now);
    live := store;
    for i := 0 to |expired|
      invariant live == DeleteAll(store, expired[..i])
    {
      assert expired[..i + 1][..i] == expired[..i];
      live := Delete(live, expired[i]);
    }
    count := |expired|;
    assert expired[..|expired|] == expired;
    DeleteAllIsLive(store, expired, now);
  }

  function DeleteAll<V>(store: Store<V>, gone: seq<string>): Store<V> {
    if gone == [] then store else Delete(DeleteAll(store, gone[..|gone| - 1]), gone[|gone| - 1])
  }

  lemma {:induction false} DeleteAllLemma<V>(store: Store<V>, gone: seq<string>)
    ensures DeleteAll(store, gone).keys == KeysNotIn(store.keys, gone)
    ensures forall k :: k in DeleteAll(store, gone).slots <==> k in store.slots && k !in gone
    ensures forall k :: k in DeleteAll(store, gone).slots ==> DeleteAll(store, gone).slots[k] == store.slots[k]
  {
    if gone == [] {
      KeysNotInStep(store.keys, [], "");
    } else {
      var before, last := gone[..|gone| - 1], gone[|gone| - 1];
      assert gone == before + [last];
      DeleteAllLemma(store, before);
      KeysNotInStep(store.keys, before, last);
    }
  }

  lemma {:induction false} KeysNotInCount(keys: seq<string>, gone: seq<string>)
    requires Distinct(keys) && Distinct(gone) && forall k :: k in gone ==> k in keys
    ensures Distinct(KeysNotIn(keys, gone)) && |KeysNotIn(keys, gone)| == |keys| - |gone|
    ensures forall k :: k in KeysNotIn(keys, gone) <==> k in keys && k !in gone
  {
    if gone == [] {
      KeysNotInStep(keys, [], "");
    } else {
      var before, last := gone[..|gone| - 1], gone[|gone| - 1];
      assert gone == before + [last];
      KeysNotInCount(keys, before);
      KeysNotInStep(keys, before, last);
      WithoutLemma(KeysNotIn(keys, before), last);
    }
  }

  lemma {:induction false} DeleteAllIsLive<V>(store: Store<V>, expired: seq<string>, now: real)
    requires ValidStore(store) && Distinct(expired)
    requires forall k :: k in expired <==> k in store.slots && store.slots[k].expiry < now
    ensures DeleteAll(store, expired) == LiveStore(store, now)
    ensures |LiveStore(store, now).keys| == |store.keys| - |expired|
  {
    DeleteAllLemma(store, expired);
    KeysNotInCount(store.keys, expired);
    KeysNotInIsLive(store.keys, store.slots, expired, now);
    SlotsAreLive(store, DeleteAll(store, expired).slots, expired, now);
  }

  lemma SlotsAreLive<V>(store: Store<V>, slots: map<string, Slot<V>>, expired: seq<string>, now: real)
    requires forall k :: k in expired <==> k in store.slots && store.slots[k].expiry < now
    requires forall k :: k in slots <==> k in store.slots && k !in expired
    requires forall k :: k in slots ==> slots[k] == store.slots[k]
    ensures slots == LiveStore(store, now).slots
  {
  }

  ghost function KeysNotIn(keys: seq<string>, gone: seq<string>): seq<string> {
    if keys == [] then []
    else (if keys[0] in gone then [] else [keys[0]]) + KeysNotIn(keys[1..], gone)
  }

  lemma {:induction false} KeysNotInStep(keys: seq<string>, gone: seq<string>, key: string)
    ensures KeysNotIn(keys, []) == keys
    ensures KeysNotIn(keys, gone + [key]) == Without(KeysNotIn(keys, gone), key)
  {
    if keys != [] {
      KeysNotInStep(keys[1..], gone, key);
      var rest := KeysNotIn(keys[1..], gone);
      assert [] + rest == rest && ([keys[0]] + rest)[1..] == rest;
    }
  }

  lemma {:induction false} KeysNotInIsLive<V>(keys: seq<string>, slots: map<string, Slot<V>>, gone: seq<string>, now: real)
    requires forall k :: k in keys ==> (k in gone <==> k in slots && slots[k].expiry < now)
    ensures KeysNotIn(keys, gone) == LiveKeys(keys, slots, now)
  {
    if keys != [] {
      KeysNotInIsLive(keys[1..], slots, gone, now);
    }
  }
}
