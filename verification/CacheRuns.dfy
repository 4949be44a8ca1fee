/** The tier-1 cache over whole runs: what a lookup can return, and what it must return. */
module CacheRuns {
  import opened Common
  import opened Tier1Cache

  datatype Event<+V> =
    | Get(project: string, key: string, now: real)
    | Set(project: string, key: string, value: V, now: real)
    | Invalidate(project: string)
    | ClearExpired(now: real)

  datatype Limits = Limits(maxEntries: nat, ttl: real)

  function Step<V>(stores: map<string, Store<V>>, e: Event<V>, limits: Limits): map<string, Store<V>> {
    match e
    case Get(p, k, now) => AfterGet(stores, p, k, now)
    case Set(p, k, v, now) => AfterSet(stores, p, k, v, now, limits.maxEntries, limits.ttl)
    case Invalidate(p) => stores - {p}
    case ClearExpired(now) => AfterClear(stores, now)
  }

  /** The stores after a run that starts with an empty cache. */
  function Run<V>(events: seq<Event<V>>, limits: Limits): map<string, Store<V>> {
    if events == [] then map[] else Step(Run(events[..|events| - 1], limits), events[|events| - 1], limits)
  }

  lemma {:induction false} RunIsBounded<V>(events: seq<Event<V>>, limits: Limits)
    requires limits.maxEntries >= 1
    ensures Bounded(Run(events, limits), limits.maxEntries)
  {
    if events != [] {
      var before := Run(events[..|events| - 1], limits);
      RunIsBounded(events[..|events| - 1], limits);
      match events[|events| - 1]
      case Get(p, k, now) => BoundedAfterGet(before, p, k, now, limits.maxEntries);
      case Set(p, k, v, now) => BoundedAfterSet(before, p, k, v, now, limits.maxEntries, limits.ttl);
      case Invalidate(p) =>
      case ClearExpired(now) => BoundedAfterClear(before, now, limits.maxEntries);
    }
  }

  // ---- the simple map that the cache approximates ----

  /** The value last written for a key and when, unless the project was invalidated since. */
  function LastWrite<V>(events: seq<Event<V>>, project: string, key: string): Option<(V, real)> {
    if events == [] then None
    else
      match events[|events| - 1]
      case Set(p, k, v, now) =>
        if p == project && k == key then Some((v, now)) else LastWrite(events[..|events| - 1], project, key)
      case Invalidate(p) => if p == project then None else LastWrite(events[..|events| - 1], project, key)
      case _ => LastWrite(events[..|events| - 1], project, key)
  }

  /** `LastWrite` names the last `Set` of the key, with no invalidation after it. */
  lemma {:induction false} LastWriteIsLast<V>(events: seq<Event<V>>, project: string, key: string) returns (i: nat)
    requires LastWrite(events, project, key).Some?
    ensures i < |events| && events[i].Set? && events[i].project == project && events[i].key == key
    ensures LastWrite(events, project, key) == Some((events[i].value, events[i].now))
    ensures forall j :: i < j < |events| ==>
              && !(events[j].Set? && events[j].project == project && events[j].key == key)
              && !(events[j].Invalidate? && events[j].project == project)
  {
    var last := |events| - 1;
    if events[last].Set? && events[last].project == project && events[last].key == key {
      i := last;
    } else {
      i := LastWriteIsLast(events[..last], project, key);
    }
  }

  /** Every stored entry is the last write of its key, with the expiry that belongs to it. */
  ghost predicate Backed<V>(events: seq<Event<V>>, limits: Limits, stores: map<string, Store<V>>) {
    forall p, k :: p in stores && k in stores[p].slots ==>
      && LastWrite(events, p, k).Some?
      && stores[p].slots[k] == Slot(LastWrite(events, p, k).value.1 + limits.ttl, LastWrite(events, p, k).value.0)
  }

  lemma {:induction false} RunIsBacked<V>(events: seq<Event<V>>, limits: Limits)
    ensures Backed(events, limits, Run(events, limits))
  {
    if events != [] {
      var before, e := events[..|events| - 1], events[|events| - 1];
      var stores := Run(before, limits);
      RunIsBacked(before, limits);
      forall p, k | p in Step(stores, e, limits) && k in Step(stores, e, limits)[p].slots
        ensures (e.Set? && p == e.project && k == e.key)
                || (p in stores && k in stores[p].slots && stores[p].slots[k] == Step(stores, e, limits)[p].slots[k])
      {
      }
    }
  }

  /** Soundness: whatever a lookup returns in any run is the value of the last `Set` of that key,
      the project was not invalidated since, and no more than the time to live has passed. */
  lemma GetIsSound<V>(events: seq<Event<V>>, limits: Limits, project: string, key: string, now: real) returns (i: nat)
    requires Lookup(Run(events, limits), project, key, now).Some?
    ensures i < |events| && events[i].Set? && events[i].project == project && events[i].key == key
    ensures Lookup(Run(events, limits), project, key, now) == Some(events[i].value)
    ensures now <= events[i].now + limits.ttl
    ensures forall j :: i < j < |events| ==>
              && !(events[j].Set? && events[j].project == project && events[j].key == key)
              && !(events[j].Invalidate? && events[j].project == project)
  {
    RunIsBacked(events, limits);
    i := LastWriteIsLast(events, project, key);
  }

  // ---- retention ----

  /** A `Set` or a hit of the key itself leaves no rival, one of another key of the project adds it. */
  function NextRivals<V>(stores: map<string, Store<V>>, project: string, key: string, rivals: set<string>, e: Event<V>): set<string> {
    match e
    case Set(p, k, _, _) => if p != project then rivals else if k == key then {} else rivals + {k}
    case Get(p, k, now) =>
      if p != project || Lookup(stores, p, k, now).None? then rivals else if k == key then {} else rivals + {k}
    case _ => rivals
  }

  /** The other keys of the project that were set or hit since `key` was last touched. */
  function Rivals<V>(events: seq<Event<V>>, limits: Limits, project: string, key: string): set<string> {
    if events == [] then {}
    else
      NextRivals(Run(events[..|events| - 1], limits), project, key,
                 Rivals(events[..|events| - 1], limits, project, key), events[|events| - 1])
  }

  /** All events of the run happened by `now`. */
  ghost predicate By<V>(events: seq<Event<V>>, now: real) {
    forall i :: 0 <= i < |events| && !events[i].Invalidate? ==> events[i].now <= now
  }

  /** The keys younger than `key`. */
  function Younger(keys: seq<string>, key: string): seq<string> {
    if keys == [] then [] else if keys[0] == key then keys[1..] else Younger(keys[1..], key)
  }

  lemma {:induction false} YoungerOfWithout(keys: seq<string>, key: string, other: string)
    requires other != key
    ensures forall k :: k in Younger(Without(keys, other), key) ==> k in Younger(keys, key)
  {
    if keys != [] {
      if keys[0] == key {
        WithoutLemma(keys[1..], other);
      } else {
        YoungerOfWithout(keys[1..], key, other);
      }
      var rest := Without(keys[1..], other);
      assert ([keys[0]] + rest)[1..] == rest && [] + rest == rest;
    }
  }

  lemma {:induction false} YoungerOfAppend(keys: seq<string>, key: string, other: string)
    requires key in keys
    ensures Younger(keys + [other], key) == Younger(keys, key) + [other]
  {
    assert (keys + [other])[1..] == keys[1..] + [other];
    if keys[0] != key {
      YoungerOfAppend(keys[1..], key, other);
    }
  }

  lemma {:induction false} YoungestHasNoYounger(keys: seq<string>, key: string)
    requires key !in keys
    ensures Younger(keys + [key], key) == []
  {
    if keys != [] {
      assert (keys + [key])[1..] == keys[1..] + [key];
      YoungestHasNoYounger(keys[1..], key);
    }
  }

  lemma {:induction false} YoungerOfLive<V>(keys: seq<string>, slots: map<string, Slot<V>>, now: real, key: string)
    requires key in slots && slots[key].expiry >= now
    ensures forall k :: k in Younger(LiveKeys(keys, slots, now), key) ==> k in Younger(keys, key)
  {
    if keys != [] {
      if keys[0] == key {
        LiveKeysLemma(keys[1..], slots, now);
      } else {
        YoungerOfLive(keys[1..], slots, now, key);
      }
      var rest := LiveKeys(keys[1..], slots, now);
      assert ([keys[0]] + rest)[1..] == rest && [] + rest == rest;
    }
  }

  /** The entry is there with this value and expiry, and only rivals are younger. */
  ghost predicate Kept<V>(stores: map<string, Store<V>>, project: string, key: string, slot: Slot<V>, rivals: set<string>) {
    && project in stores && key in stores[project].slots && stores[project].slots[key] == slot
    && forall k :: k in Younger(stores[project].keys, key) ==> k in rivals
  }

  ghost predicate Absent<V>(stores: map<string, Store<V>>, project: string, key: string) {
    project !in stores || key !in stores[project].slots
  }

  /** The entry is still kept, unless as many rivals as the store holds have pushed it out. */
  ghost predicate KeptOrPushedOut<V>(
    stores: map<string, Store<V>>, project: string, key: string, slot: Slot<V>, rivals: set<string>, limits: Limits)
  {
    || Kept(stores, project, key, slot, rivals)
    || (Absent(stores, project, key) && |rivals| >= limits.maxEntries)
  }

  lemma KeptAfterOtherSet<V>(
    stores: map<string, Store<V>>, project: string, key: string, slot: Slot<V>, rivals: set<string>,
    other: string, value: V, now: real, limits: Limits)
    requires Bounded(stores, limits.maxEntries) && limits.maxEntries >= 1
    requires Kept(stores, project, key, slot, rivals) && other != key
    ensures KeptOrPushedOut(AfterSet(stores, project, other, value, now, limits.maxEntries, limits.ttl),
                            project, key, slot, rivals + {other}, limits)
  {
    var store := stores[project];
    var room := MadeRoom(store, other, limits.maxEntries);
    if other in store.slots {
      YoungerOfWithout(store.keys, key, other);
      WithoutLemma(store.keys, other);
    } else if |store.keys| >= limits.maxEntries {
      if store.keys[0] == key {
        FullOfRivals(store.keys, rivals + {other}, limits.maxEntries);
        return;
      }
      YoungerOfWithout(store.keys, key, store.keys[0]);
      WithoutLemma(store.keys, store.keys[0]);
    }
    YoungerOfAppend(room.keys, key, other);
  }

  lemma StillAbsentAfterOtherSet<V>(
    stores: map<string, Store<V>>, project: string, key: string, slot: Slot<V>, rivals: set<string>,
    other: string, value: V, now: real, limits: Limits)
    requires Absent(stores, project, key) && |rivals| >= limits.maxEntries && other != key
    ensures KeptOrPushedOut(AfterSet(stores, project, other, value, now, limits.maxEntries, limits.ttl),
                            project, key, slot, rivals + {other}, limits)
  {
    SubsetCount(rivals, rivals + {other});
  }

  /** If all keys younger than the oldest of `maxEntries` keys are rivals, and so is one absent
      key, there are `maxEntries` rivals. */
  lemma FullOfRivals(keys: seq<string>, rivals: set<string>, maxEntries: nat)
    requires Distinct(keys) && keys != [] && |keys| >= maxEntries
    requires forall k :: k in keys[1..] ==> k in rivals
    requires exists k :: k in rivals && k !in keys[1..]
    ensures |rivals| >= maxEntries
  {
    var young := set k | k in keys[1..];
    KeysCount(keys[1..], young);
    var extra :| extra in rivals && extra !in keys[1..];
    SubsetCount(young + {extra}, rivals);
  }

  lemma JustSet<V>(stores: map<string, Store<V>>, project: string, key: string, value: V, now: real, limits: Limits)
    requires Bounded(stores, limits.maxEntries) && limits.maxEntries >= 1
    ensures Kept(AfterSet(stores, project, key, value, now, limits.maxEntries, limits.ttl),
                 project, key, Slot(now + limits.ttl, value), {})
  {
    var store := StoreOf(stores, project);
    RoomIsMade(store, key, limits.maxEntries);
    YoungestHasNoYounger(MadeRoom(store, key, limits.maxEntries).keys, key);
  }

  /** The rivals after a lookup of `other`. */
  function RivalsAfterGet<V>(stores: map<string, Store<V>>, project: string, key: string, rivals: set<string>, other: string, now: real)
    : set<string>
  {
    if Lookup(stores, project, other, now).None? then rivals else if other == key then {} else rivals + {other}
  }

  lemma KeptAfterGet<V>(
    stores: map<string, Store<V>>, project: string, key: string, slot: Slot<V>, rivals: set<string>,
    other: string, now: real)
    requires Kept(stores, project, key, slot, rivals) && now <= slot.expiry && ValidStore(stores[project])
    ensures Kept(AfterGet(stores, project, other, now), project, key, slot,
                 RivalsAfterGet(stores, project, key, rivals, other, now))
  {
    var keys := stores[project].keys;
    WithoutLemma(keys, other);
    if other == key {
      YoungestHasNoYounger(Without(keys, key), key);
    } else {
      YoungerOfWithout(keys, key, other);
      YoungerOfAppend(Without(keys, other), key, other);
    }
  }

  lemma StillAbsentAfterGet<V>(
    stores: map<string, Store<V>>, project: string, key: string, rivals: set<string>, other: string, now: real, limits: Limits)
    requires Absent(stores, project, key) && |rivals| >= limits.maxEntries
    ensures Absent(AfterGet(stores, project, other, now), project, key)
    ensures |RivalsAfterGet(stores, project, key, rivals, other, now)| >= limits.maxEntries
  {
    SubsetCount(rivals, rivals + {other});
  }

  /** One event other than a `Set` of the key or an invalidation of its project. */
  lemma EventKeeps<V>(
    stores: map<string, Store<V>>, project: string, key: string, slot: Slot<V>, rivals: set<string>, e: Event<V>, limits: Limits)
    requires Bounded(stores, limits.maxEntries) && limits.maxEntries >= 1
    requires KeptOrPushedOut(stores, project, key, slot, rivals, limits)
    requires !(e.Set? && e.project == project && e.key == key) && !(e.Invalidate? && e.project == project)
    requires !e.Invalidate? ==> e.now <= slot.expiry
    ensures KeptOrPushedOut(Step(stores, e, limits), project, key, slot, NextRivals(stores, project, key, rivals, e), limits)
  {
    match e
    case Get(p, k, t) =>
      if p == project {
        if Kept(stores, project, key, slot, rivals) {
          KeptAfterGet(stores, project, key, slot, rivals, k, t);
        } else {
          StillAbsentAfterGet(stores, project, key, rivals, k, t, limits);
        }
      }
    case Set(p, k, v, t) =>
      if p == project {
        if Kept(stores, project, key, slot, rivals) {
          KeptAfterOtherSet(stores, project, key, slot, rivals, k, v, t, limits);
        } else {
          StillAbsentAfterOtherSet(stores, project, key, slot, rivals, k, v, t, limits);
        }
      }
    case Invalidate(p) =>
    case ClearExpired(t) =>
      if Kept(stores, project, key, slot, rivals) {
        LiveKeysLemma(stores[project].keys, stores[project].slots, t);
        YoungerOfLive(stores[project].keys, stores[project].slots, t, key);
      }
  }

  /** Retention, as an invariant of runs: an entry is still there unless enough rivals came. */
  lemma {:induction false} RunKeeps<V>(events: seq<Event<V>>, limits: Limits, project: string, key: string, now: real)
    requires limits.maxEntries >= 1 && By(events, now)
    requires LastWrite(events, project, key).Some? && now <= LastWrite(events, project, key).value.1 + limits.ttl
    ensures var write := LastWrite(events, project, key).value;
            KeptOrPushedOut(Run(events, limits), project, key, Slot(write.1 + limits.ttl, write.0),
                            Rivals(events, limits, project, key), limits)
  {
    var before, e := events[..|events| - 1], events[|events| - 1];
    var stores := Run(before, limits);
    RunIsBounded(before, limits);
    if e.Set? && e.project == project && e.key == key {
      JustSet(stores, project, key, e.value, e.now, limits);
    } else {
      var write := LastWrite(before, project, key).value;
      RunKeeps(before, limits, project, key, now);
      assert !e.Invalidate? ==> e.now <= now;
      EventKeeps(stores, project, key, Slot(write.1 + limits.ttl, write.0), Rivals(before, limits, project, key), e, limits);
    }
  }

  /** Retention over every run: after a `Set` of the key, with no invalidation of the project and no
      later `Set` of the key, and fewer than `maxEntries` other keys of the project set or hit since
      the key was last touched, a lookup within the time to live returns the value. */
  lemma GetRetains<V>(events: seq<Event<V>>, limits: Limits, project: string, key: string, now: real)
    requires limits.maxEntries >= 1 && By(events, now)
    requires LastWrite(events, project, key).Some? && now <= LastWrite(events, project, key).value.1 + limits.ttl
    requires |Rivals(events, limits, project, key)| < limits.maxEntries
    ensures Lookup(Run(events, limits), project, key, now) == Some(LastWrite(events, project, key).value.0)
  {
    RunKeeps(events, limits, project, key, now);
  }
}
