/** Cached search over a changing store: a step system of searches, store writes and cache
    invalidations, and when a cached answer is the one a fresh search would give. */
module CachedSearch {
  import opened Common
  import opened PointStore
  import opened QdrantFilters
  import opened CacheKeys
  import opened Tier1Cache
  import opened Separators
  import CacheRuns

  /** What is fixed during a run: the settings fingerprint of each project, the searches that are
      made, and the answer that retrieval and ranking give for a project, a query and the points its
      filter admits. */
  datatype Engine<!A> = Engine(fingerprint: string -> string, served: Plan -> bool, rank: (string, string, Points) -> A)

  predicate BothServed<A>(engine: Engine<A>, plan: Plan, other: Plan) {
    engine.served(plan) && engine.served(other) && plan.request.projectId == other.request.projectId
  }

  /** Any two searches of a project that are made ask the same thing whenever their keys are equal;
      the fingerprints are hexadecimal digests. */
  ghost predicate Faithful<A>(engine: Engine<A>) {
    && (forall project :: Free(engine.fingerprint(project), '|'))
    && forall plan, other :: BothServed(engine, plan, other) ==> Compatible(plan, other)
  }

  /** For instance, no knowledge base id and no version holds a separator, and no two users with
      otherwise equal searches have clashing ids. */
  lemma WellFormedIsFaithful<A>(engine: Engine<A>)
    requires forall project :: Free(engine.fingerprint(project), '|')
    requires forall plan :: engine.served(plan) ==> WellFormed(plan)
    requires forall plan, other :: BothServed(engine, plan, other) ==> UsersDoNotClash(plan, other)
    ensures Faithful(engine)
  {
    forall plan, other | BothServed(engine, plan, other)
      ensures Compatible(plan, other)
    {
      CompatibleIffUsers(plan, other);
    }
  }

  /** `collections` is the vector store, `cache` the tier-1 cache. `pending` has one entry for each
      ingest or delete that has written to the store and not yet invalidated the cache. */
  datatype State<+A> = State(collections: map<string, Points>, cache: map<string, Store<A>>, pending: multiset<string>)

  datatype Step =
    | Search(plan: Plan, now: real)
    | IngestWrite(project: string, version: string, batch: seq<Point>)
    | DeleteWrite(project: string, version: string, scope: ChunkPayload)
    | Invalidate(project: string)
    | ClearExpired(now: real)
    | DeleteWithoutInvalidation(project: string, version: string, scope: ChunkPayload)

  function CollectionName(project: string, version: string): string {
    "rag_" + project + "_" + version
  }

  /** The versions of a project have collections of their own, and so have projects whose ids hold no
      underscore. */
  lemma CollectionsDiffer(project: string, version: string, other: string, otherVersion: string)
    ensures CollectionName(project, version) == CollectionName(project, otherVersion) <==> version == otherVersion
    ensures Free(project, '_') && Free(other, '_') ==>
              (CollectionName(project, version) == CollectionName(other, otherVersion)
               <==> project == other && version == otherVersion)
  {
    var start := "rag_" + project + "_";
    assert CollectionName(project, version)[|start|..] == version && CollectionName(project, otherVersion)[|start|..] == otherVersion;
    if CollectionName(project, version) == CollectionName(other, otherVersion) && Free(project, '_') && Free(other, '_') {
      assert (project + "_" + version) == CollectionName(project, version)[4..];
      assert (other + "_" + otherVersion) == CollectionName(other, otherVersion)[4..];
      FirstField(project, version, other, otherVersion, '_');
    }
  }

  function KeyOf<A>(engine: Engine<A>, plan: Plan): string {
    SearchKey(plan, engine.fingerprint(plan.request.projectId))
  }

  /** The points that the filter of a search admits. */
  function Visible(points: Points, request: SearchRequest): Points {
    map id | id in points && InScope(FilterOf(request), Rendered(points[id].payload)) :: points[id]
  }

  /** The answer of a search that does not use the cache; a missing collection is an error. */
  function Recompute<A>(engine: Engine<A>, collections: map<string, Points>, plan: Plan): Option<A> {
    var name := CollectionName(plan.request.projectId, plan.version);
    if name !in collections then None
    else Some(engine.rank(plan.request.projectId, plan.request.query, Visible(collections[name], plan.request)))
  }

  /** What `search` returns. */
  function SearchResult<A>(engine: Engine<A>, state: State<A>, plan: Plan, now: real): Option<A> {
    var cached := Lookup(state.cache, plan.request.projectId, KeyOf(engine, plan), now);
    if cached.Some? then cached else Recompute(engine, state.collections, plan)
  }

  /** What `search` does to the cache. */
  function CacheAfterSearch<A>(engine: Engine<A>, state: State<A>, plan: Plan, now: real, limits: CacheRuns.Limits)
    : map<string, Store<A>>
  {
    var project, key := plan.request.projectId, KeyOf(engine, plan);
    var read := AfterGet(state.cache, project, key, now);
    var answer := Recompute(engine, state.collections, plan);
    if Lookup(state.cache, project, key, now).Some? || answer.None? then read
    else AfterSet(read, project, key, answer.value, now, limits.maxEntries, limits.ttl)
  }

  function PointsIn(collections: map<string, Points>, name: string): Points {
    if name in collections then collections[name] else map[]
  }

  function Next<A>(engine: Engine<A>, state: State<A>, step: Step, limits: CacheRuns.Limits): State<A> {
    match step
    case Search(plan, now) => state.(cache := CacheAfterSearch(engine, state, plan, now, limits))
    case IngestWrite(project, version, batch) =>
      var name := CollectionName(project, version);
      state.(collections := if batch == [] then state.collections
                            else state.collections[name := Upserted(PointsIn(state.collections, name), batch)],
             pending := state.pending + multiset{project})
    case DeleteWrite(project, version, scope) =>
      var name := CollectionName(project, version);
      if name !in state.collections then state
      else state.(collections := state.collections[name := WithoutDocument(state.collections[name], scope)],
                  pending := state.pending + multiset{project})
    case Invalidate(project) =>
      state.(cache := state.cache - {project}, pending := state.pending - multiset{project})
    case ClearExpired(now) => state.(cache := AfterClear(state.cache, now))
    case DeleteWithoutInvalidation(project, version, scope) =>
      var name := CollectionName(project, version);
      if name !in state.collections then state
      else state.(collections := state.collections[name := WithoutDocument(state.collections[name], scope)])
  }

  /** The steps of a run without failing deletes. Chunks carry the project of their ingest. */
  predicate Allowed<A>(engine: Engine<A>, state: State<A>, step: Step) {
    match step
    case Search(plan, _) => engine.served(plan)
    case IngestWrite(project, _, batch) => forall i :: 0 <= i < |batch| ==> batch[i].payload.projectId == project
    case DeleteWrite(project, _, scope) => scope.projectId == project
    case Invalidate(project) => project in state.pending
    case ClearExpired(_) => true
    case DeleteWithoutInvalidation(_, _, _) => false
  }

  // ---- the invariant ----

  /** The collection can belong to the project. */
  predicate Houses(name: string, project: string) {
    "rag_" + project + "_" <= name
  }

  ghost predicate CollectionWellKept(name: string, points: Points) {
    KeptById(points) && forall id :: id in points ==> Houses(name, points[id].payload.projectId)
  }

  ghost predicate StoreWellKept(collections: map<string, Points>) {
    forall name :: name in collections ==> CollectionWellKept(name, collections[name])
  }

  /** The entry answers every search that has its key. */
  ghost predicate Right<A(!new)>(engine: Engine<A>, collections: map<string, Points>, project: string, key: string, value: A) {
    forall plan :: engine.served(plan) && plan.request.projectId == project && KeyOf(engine, plan) == key ==>
      Recompute(engine, collections, plan) == Some(value)
  }

  /** Every entry of a project without a pending writer is right. */
  ghost predicate Coherent<A(!new)>(engine: Engine<A>, state: State<A>) {
    forall p, k :: p in state.cache && k in state.cache[p].slots && p !in state.pending ==>
      Right(engine, state.collections, p, k, state.cache[p].slots[k].value)
  }

  ghost predicate Inv<A(!new)>(engine: Engine<A>, state: State<A>) {
    StoreWellKept(state.collections) && Coherent(engine, state)
  }

  lemma EqualKeysEqualAnswers<A>(engine: Engine<A>, collections: map<string, Points>, plan: Plan, other: Plan)
    requires Faithful(engine) && engine.served(plan) && engine.served(other)
    requires plan.request.projectId == other.request.projectId && KeyOf(engine, plan) == KeyOf(engine, other)
    ensures Recompute(engine, collections, plan) == Recompute(engine, collections, other)
  {
    EqualKeysEqualMeaning(plan, other, engine.fingerprint(plan.request.projectId));
    var name := CollectionName(plan.request.projectId, plan.version);
    if name in collections {
      assert Visible(collections[name], plan.request) == Visible(collections[name], other.request);
    }
  }

  lemma SearchKeepsCoherent<A(!new)>(engine: Engine<A>, state: State<A>, plan: Plan, now: real, limits: CacheRuns.Limits)
    requires Faithful(engine) && Coherent(engine, state) && engine.served(plan)
    ensures Coherent(engine, state.(cache := CacheAfterSearch(engine, state, plan, now, limits)))
  {
    var cache := CacheAfterSearch(engine, state, plan, now, limits);
    forall p, k | p in cache && k in cache[p].slots && p !in state.pending
      ensures Right(engine, state.collections, p, k, cache[p].slots[k].value)
    {
      if !(p in state.cache && k in state.cache[p].slots && state.cache[p].slots[k].value == cache[p].slots[k].value) {
        forall other | engine.served(other) && other.request.projectId == p && KeyOf(engine, other) == k
          ensures Recompute(engine, state.collections, other) == Some(cache[p].slots[k].value)
        {
          EqualKeysEqualAnswers(engine, state.collections, plan, other);
        }
      }
    }
  }

  ghost predicate SameOutside(points: Points, after: Points, project: string) {
    forall id ::
      && (id in points && points[id].payload.projectId != project ==> id in after && after[id] == points[id])
      && (id in after && after[id].payload.projectId != project ==> id in points && points[id] == after[id])
  }

  lemma {:induction false} VisibleOutside(points: Points, after: Points, project: string, request: SearchRequest)
    requires SameOutside(points, after, project) && request.projectId != project
    ensures Visible(points, request) == Visible(after, request)
  {
    forall id | id in points && InScope(FilterOf(request), Rendered(points[id].payload))
      ensures id in after && after[id] == points[id]
    {
    }
    forall id | id in after && InScope(FilterOf(request), Rendered(after[id].payload))
      ensures id in points && points[id] == after[id]
    {
    }
  }

  /** A write for one project changes no answer of another project. */
  lemma {:induction false} WriteKeepsOtherAnswers<A>(
    engine: Engine<A>, collections: map<string, Points>, name: string, after: Points, project: string, plan: Plan)
    requires SameOutside(PointsIn(collections, name), after, project) && plan.request.projectId != project
    requires Recompute(engine, collections, plan).Some?
    ensures Recompute(engine, collections[name := after], plan) == Recompute(engine, collections, plan)
  {
    if CollectionName(plan.request.projectId, plan.version) == name {
      VisibleOutside(collections[name], after, project, plan.request);
    }
  }

  lemma {:induction false} WriteKeepsCoherent<A(!new)>(engine: Engine<A>, state: State<A>, name: string, after: Points, project: string)
    requires Coherent(engine, state) && SameOutside(PointsIn(state.collections, name), after, project)
    ensures Coherent(engine, state.(collections := state.collections[name := after],
                                    pending := state.pending + multiset{project}))
  {
    var next := state.(collections := state.collections[name := after], pending := state.pending + multiset{project});
    forall p, k | p in next.cache && k in next.cache[p].slots && p !in next.pending
      ensures Right(engine, next.collections, p, k, next.cache[p].slots[k].value)
    {
      forall plan | engine.served(plan) && plan.request.projectId == p && KeyOf(engine, plan) == k
        ensures Recompute(engine, next.collections, plan) == Some(next.cache[p].slots[k].value)
      {
        assert Right(engine, state.collections, p, k, state.cache[p].slots[k].value);
        WriteKeepsOtherAnswers(engine, state.collections, name, after, project, plan);
      }
    }
  }

  lemma PendingKeepsCoherent<A(!new)>(engine: Engine<A>, state: State<A>, project: string)
    requires Coherent(engine, state)
    ensures Coherent(engine, state.(pending := state.pending + multiset{project}))
  {
  }

  lemma ShorterDoesNotClash(name: string, project: string, other: string)
    requires Houses(name, project) && Houses(name, other) && |project| < |other|
    ensures !PrefixClash(project, other, '|')
  {
    var start := "rag_" + project + "_";
    assert start[4 + |project|] == '_' && name[4 + |project|] == start[4 + |project|];
    assert other[|project|] == '_';
    assert (project + ['|'])[|project|] == '|';
  }

  /** Two projects that share a collection have ids that do not clash: the name goes on with an
      underscore where a clashing id has the separator. */
  lemma SharedCollectionNoClash(name: string, project: string, other: string)
    requires Houses(name, project) && Houses(name, other) && PrefixClash(project, other, '|')
    ensures project == other
  {
    if |project| < |other| {
      ShorterDoesNotClash(name, project, other);
    } else if |other| < |project| {
      ShorterDoesNotClash(name, other, project);
    }
  }

  lemma IngestSameOutside(name: string, points: Points, batch: seq<Point>, project: string)
    requires CollectionWellKept(name, points) && Houses(name, project) && OnlyOf(batch, project)
    ensures SameOutside(points, Upserted(points, batch), project)
    ensures CollectionWellKept(name, Upserted(points, batch))
  {
    forall id: string
      ensures id in points && points[id].payload.projectId != project ==>
                id in Upserted(points, batch) && Upserted(points, batch)[id] == points[id]
      ensures id in Upserted(points, batch) && Upserted(points, batch)[id].payload.projectId != project ==>
                id in points && points[id] == Upserted(points, batch)[id]
    {
      if id in points && PrefixClash(points[id].payload.projectId, project, '|') {
        SharedCollectionNoClash(name, points[id].payload.projectId, project);
      }
      UpsertIsolated(points, batch, project, id);
    }
    UpsertedById(points, batch);
  }

  lemma DeleteSameOutside(name: string, points: Points, scope: ChunkPayload, project: string)
    requires CollectionWellKept(name, points) && scope.projectId == project
    ensures SameOutside(points, WithoutDocument(points, scope), project)
    ensures CollectionWellKept(name, WithoutDocument(points, scope))
  {
    forall id: string
      ensures id in WithoutDocument(points, scope) ==> id in points && points[id] == WithoutDocument(points, scope)[id]
      ensures id in points && points[id].payload.projectId != project ==> id in WithoutDocument(points, scope)
    {
      WithoutDocumentAt(points, scope, id);
    }
  }

  /** Every allowed step keeps the invariant. */
  lemma {:induction false} StepKeepsInv<A(!new)>(engine: Engine<A>, state: State<A>, step: Step, limits: CacheRuns.Limits)
    requires Faithful(engine) && Inv(engine, state) && Allowed(engine, state, step)
    ensures Inv(engine, Next(engine, state, step, limits))
  {
    match step
    case Search(plan, now) =>
      SearchKeepsCoherent(engine, state, plan, now, limits);
    case IngestWrite(project, version, batch) =>
      var name := CollectionName(project, version);
      assert OnlyOf(batch, project) && Houses(name, project);
      IngestSameOutside(name, PointsIn(state.collections, name), batch, project);
      if batch == [] {
        PendingKeepsCoherent(engine, state, project);
      } else {
        WriteKeepsCoherent(engine, state, name, Upserted(PointsIn(state.collections, name), batch), project);
      }
    case DeleteWrite(project, version, scope) =>
      var name := CollectionName(project, version);
      if name in state.collections {
        DeleteSameOutside(name, state.collections[name], scope, project);
        WriteKeepsCoherent(engine, state, name, WithoutDocument(state.collections[name], scope), project);
      }
    case Invalidate(project) =>
    case ClearExpired(now) =>
  }

  // ---- runs ----

  function Run<A>(engine: Engine<A>, steps: seq<Step>, limits: CacheRuns.Limits): State<A> {
    if steps == [] then State(map[], map[], multiset{})
    else Next(engine, Run(engine, steps[..|steps| - 1], limits), steps[|steps| - 1], limits)
  }

  ghost predicate AllowedRun<A>(engine: Engine<A>, steps: seq<Step>, limits: CacheRuns.Limits) {
    forall i :: 0 <= i < |steps| ==> Allowed(engine, Run(engine, steps[..i], limits), steps[i])
  }

  lemma AllowedPrefix<A>(engine: Engine<A>, steps: seq<Step>, limits: CacheRuns.Limits)
    requires steps != [] && AllowedRun(engine, steps, limits)
    ensures AllowedRun(engine, steps[..|steps| - 1], limits)
    ensures Allowed(engine, Run(engine, steps[..|steps| - 1], limits), steps[|steps| - 1])
  {
    var last := |steps| - 1;
    forall i | 0 <= i < last
      ensures Allowed(engine, Run(engine, steps[..last][..i], limits), steps[..last][i])
    {
      assert steps[..last][..i] == steps[..i];
    }
  }

  lemma {:induction false} RunKeepsInv<A(!new)>(engine: Engine<A>, steps: seq<Step>, limits: CacheRuns.Limits)
    requires Faithful(engine) && AllowedRun(engine, steps, limits)
    ensures Inv(engine, Run(engine, steps, limits))
  {
    if steps != [] {
      var last := |steps| - 1;
      AllowedPrefix(engine, steps, limits);
      RunKeepsInv(engine, steps[..last], limits);
      StepKeepsInv(engine, Run(engine, steps[..last], limits), steps[last], limits);
    }
  }

  /** Cached search refines uncached search: after any run, a search of a project that has no
      writer between its store write and its invalidation returns what recomputing would return,
      whether the cache hits or misses, and at any time. */
  lemma {:induction false} CachedSearchIsExact<A(!new)>(
    engine: Engine<A>, steps: seq<Step>, limits: CacheRuns.Limits, plan: Plan, now: real)
    requires Faithful(engine) && AllowedRun(engine, steps, limits) && engine.served(plan)
    requires plan.request.projectId !in Run(engine, steps, limits).pending
    ensures SearchResult(engine, Run(engine, steps, limits), plan, now)
         == Recompute(engine, Run(engine, steps, limits).collections, plan)
  {
    RunKeepsInv(engine, steps, limits);
    var state := Run(engine, steps, limits);
    if Lookup(state.cache, plan.request.projectId, KeyOf(engine, plan), now).Some? {
      assert Right(engine, state.collections, plan.request.projectId, KeyOf(engine, plan),
                   state.cache[plan.request.projectId].slots[KeyOf(engine, plan)].value);
    }
  }

  // ---- what a search sees after a write ----

  lemma VisibleAt(points: Points, request: SearchRequest, id: string)
    ensures id in Visible(points, request) <==> id in points && InScope(FilterOf(request), Rendered(points[id].payload))
    ensures id in Visible(points, request) ==> Visible(points, request)[id] == points[id]
  {
  }

  /** After an ingest and its invalidation, a search of the project is answered from points among which are
      the chunks of the batch that its filter admits: the last one of each id. */
  lemma {:induction false} IngestIsSeen<A>(
    engine: Engine<A>, state: State<A>, limits: CacheRuns.Limits, plan: Plan, now: real, batch: seq<Point>, i: nat)
    requires IsLastOf(Ids(batch), i)
    ensures var project, name := plan.request.projectId, CollectionName(plan.request.projectId, plan.version);
            var written := Next(engine, state, IngestWrite(project, plan.version, batch), limits);
            var after := Next(engine, written, Invalidate(project), limits);
            && after.pending == state.pending
            && SearchResult(engine, after, plan, now)
               == Some(engine.rank(project, plan.request.query, Visible(after.collections[name], plan.request)))
            && (InScope(FilterOf(plan.request), Rendered(batch[i].payload)) ==>
                  Ids(batch)[i] in Visible(after.collections[name], plan.request)
                  && Visible(after.collections[name], plan.request)[Ids(batch)[i]] == batch[i])
  {
    var name := CollectionName(plan.request.projectId, plan.version);
    UpsertedAt(PointsIn(state.collections, name), batch, Ids(batch)[i]);
    VisibleAt(Upserted(PointsIn(state.collections, name), batch), plan.request, Ids(batch)[i]);
  }

  /** After a deletion and its invalidation, a search of the project is answered from points of which none
      belongs to the document, and all others that it saw before are among them. */
  lemma {:induction false} DeleteIsSeen<A>(
    engine: Engine<A>, state: State<A>, limits: CacheRuns.Limits, plan: Plan, now: real, scope: ChunkPayload, id: string)
    requires CollectionName(plan.request.projectId, plan.version) in state.collections
    ensures var project, name := plan.request.projectId, CollectionName(plan.request.projectId, plan.version);
            var written := Next(engine, state, DeleteWrite(project, plan.version, scope), limits);
            var after := Next(engine, written, Invalidate(project), limits);
            && after.pending == state.pending
            && SearchResult(engine, after, plan, now)
               == Some(engine.rank(project, plan.request.query, Visible(after.collections[name], plan.request)))
            && (id in Visible(after.collections[name], plan.request) <==>
                  id in Visible(state.collections[name], plan.request)
                  && !SameDocument(state.collections[name][id].payload, scope))
  {
    VisibleWithoutAt(state.collections[CollectionName(plan.request.projectId, plan.version)], plan.request, scope, id);
  }

  /** The step searches in the project, writes to it or invalidates it. */
  predicate Concerns(step: Step, project: string) {
    match step
    case Search(plan, _) => plan.request.projectId == project
    case IngestWrite(p, _, _) => p == project
    case DeleteWrite(p, _, _) => p == project
    case Invalidate(p) => p == project
    case ClearExpired(_) => false
    case DeleteWithoutInvalidation(p, _, _) => p == project
  }

  lemma SearchKeepsOthers<A>(
    engine: Engine<A>, state: State<A>, plan: Plan, t: real, limits: CacheRuns.Limits, project: string)
    requires plan.request.projectId != project
    ensures project in CacheAfterSearch(engine, state, plan, t, limits) <==> project in state.cache
    ensures project in state.cache ==> CacheAfterSearch(engine, state, plan, t, limits)[project] == state.cache[project]
  {
  }

  /** Steps of other projects leave the cache of a project as it is, and clearing expired entries changes no
      later lookup in it: what was a hit stays one. */
  lemma OtherProjectsKeepCache<A>(
    engine: Engine<A>, state: State<A>, step: Step, limits: CacheRuns.Limits, project: string, key: string, now: real)
    requires !Concerns(step, project)
    requires Bounded(state.cache, limits.maxEntries)
    requires step.ClearExpired? ==> step.now <= now
    ensures Lookup(Next(engine, state, step, limits).cache, project, key, now) == Lookup(state.cache, project, key, now)
  {
    if step.Search? {
      SearchKeepsOthers(engine, state, step.plan, step.now, limits, project);
    } else if step.ClearExpired? {
      ClearChangesNoLookup(state.cache, step.now, limits.maxEntries, project, key, now);
    }
  }

  lemma StepKeepsBounded<A>(engine: Engine<A>, state: State<A>, step: Step, limits: CacheRuns.Limits)
    requires limits.maxEntries >= 1 && Bounded(state.cache, limits.maxEntries)
    ensures Bounded(Next(engine, state, step, limits).cache, limits.maxEntries)
  {
    match step
    case Search(plan, now) =>
      var project, key := plan.request.projectId, KeyOf(engine, plan);
      BoundedAfterGet(state.cache, project, key, now, limits.maxEntries);
      var answer := Recompute(engine, state.collections, plan);
      if answer.Some? {
        BoundedAfterSet(AfterGet(state.cache, project, key, now), project, key, answer.value, now, limits.maxEntries, limits.ttl);
      }
    case ClearExpired(now) => BoundedAfterClear(state.cache, now, limits.maxEntries);
    case _ =>
  }

  /** In every run of searches and writes the cache is bounded, so the above holds throughout. */
  lemma {:induction false} CacheStaysBounded<A>(engine: Engine<A>, steps: seq<Step>, limits: CacheRuns.Limits)
    requires limits.maxEntries >= 1
    ensures Bounded(Run(engine, steps, limits).cache, limits.maxEntries)
  {
    if steps != [] {
      CacheStaysBounded(engine, steps[..|steps| - 1], limits);
      StepKeepsBounded(engine, Run(engine, steps[..|steps| - 1], limits), steps[|steps| - 1], limits);
    }
  }

  lemma AllowedSnoc<A>(engine: Engine<A>, steps: seq<Step>, step: Step, limits: CacheRuns.Limits)
    requires AllowedRun(engine, steps, limits) && Allowed(engine, Run(engine, steps, limits), step)
    ensures AllowedRun(engine, steps + [step], limits)
    ensures Run(engine, steps + [step], limits) == Next(engine, Run(engine, steps, limits), step, limits)
  {
    var longer := steps + [step];
    assert longer[..|steps|] == steps;
    assert forall i :: 0 <= i <= |steps| ==> longer[..i] == steps[..i];
  }

  /** After any run, a search, an ingest with a search inside, the invalidation and a sweep are steps of the
      system; they leave no writer pending that was not there, and so the next search is exact again. */
  lemma {:induction false} IngestCycleIsExact<A(!new)>(
    engine: Engine<A>, steps: seq<Step>, limits: CacheRuns.Limits, plan: Plan, batch: seq<Point>,
    t: real, u: real, v: real, now: real)
    requires Faithful(engine) && AllowedRun(engine, steps, limits) && engine.served(plan)
    requires OnlyOf(batch, plan.request.projectId) && plan.request.projectId !in Run(engine, steps, limits).pending
    ensures var project := plan.request.projectId;
            var cycle := steps + [Search(plan, t)] + [IngestWrite(project, plan.version, batch)] + [Search(plan, u)]
                         + [Invalidate(project)] + [ClearExpired(v)];
            && AllowedRun(engine, cycle, limits)
            && Run(engine, cycle, limits).pending == Run(engine, steps, limits).pending
            && SearchResult(engine, Run(engine, cycle, limits), plan, now)
               == Recompute(engine, Run(engine, cycle, limits).collections, plan)
  {
    var project := plan.request.projectId;
    var a := steps + [Search(plan, t)];
    var b := a + [IngestWrite(project, plan.version, batch)];
    var c := b + [Search(plan, u)];
    var d := c + [Invalidate(project)];
    AllowedSnoc(engine, steps, Search(plan, t), limits);
    AllowedSnoc(engine, a, IngestWrite(project, plan.version, batch), limits);
    AllowedSnoc(engine, b, Search(plan, u), limits);
    AllowedSnoc(engine, c, Invalidate(project), limits);
    AllowedSnoc(engine, d, ClearExpired(v), limits);
    CachedSearchIsExact(engine, d + [ClearExpired(v)], limits, plan, now);
  }

  // ---- a delete that fails half-way ----

  /** The store after `delete_document` has deleted the points of one document. */
  function CollectionsWithout(collections: map<string, Points>, name: string, scope: ChunkPayload): map<string, Points>
    requires name in collections
  {
    collections[name := WithoutDocument(collections[name], scope)]
  }

  lemma VisibleWithoutAt(points: Points, request: SearchRequest, scope: ChunkPayload, id: string)
    ensures id in Visible(WithoutDocument(points, scope), request) <==>
            id in Visible(points, request) && !SameDocument(points[id].payload, scope)
    ensures id in Visible(WithoutDocument(points, scope), request) ==>
            Visible(points, request)[id] == Visible(WithoutDocument(points, scope), request)[id]
  {
    WithoutDocumentAt(points, scope, id);
  }

  function DeletedIds(points: Points, request: SearchRequest, scope: ChunkPayload): set<string> {
    set id | id in Visible(points, request) && SameDocument(points[id].payload, scope)
  }

  lemma VisibleLosesDeleted(points: Points, request: SearchRequest, scope: ChunkPayload)
    ensures Visible(WithoutDocument(points, scope), request) == Visible(points, request) - DeletedIds(points, request, scope)
  {
    forall id: string
      ensures id in Visible(WithoutDocument(points, scope), request) <==>
              id in Visible(points, request) && !SameDocument(points[id].payload, scope)
      ensures id in Visible(WithoutDocument(points, scope), request) ==>
              Visible(points, request)[id] == Visible(WithoutDocument(points, scope), request)[id]
    {
      VisibleWithoutAt(points, request, scope, id);
    }
  }

  /** The points that a search sees survive a deletion exactly when none of them is deleted. */
  lemma VisibleWithoutDocument(points: Points, request: SearchRequest, scope: ChunkPayload)
    ensures Visible(points, request) == Visible(WithoutDocument(points, scope), request)
       <==> forall id :: id in Visible(points, request) ==> !SameDocument(points[id].payload, scope)
  {
    VisibleLosesDeleted(points, request, scope);
    if DeletedIds(points, request, scope) == {} {
      assert Visible(points, request) - {} == Visible(points, request);
    }
  }

  /** A search, and then a delete that raises before its invalidation. */
  function AfterFailedDelete<A>(
    engine: Engine<A>, state: State<A>, limits: CacheRuns.Limits, plan: Plan, now: real, scope: ChunkPayload): State<A>
  {
    Next(engine, Next(engine, state, Search(plan, now), limits),
         DeleteWithoutInvalidation(plan.request.projectId, plan.version, scope), limits)
  }

  lemma AfterFailedDeleteIs<A>(
    engine: Engine<A>, state: State<A>, limits: CacheRuns.Limits, plan: Plan, now: real, scope: ChunkPayload)
    requires CollectionName(plan.request.projectId, plan.version) in state.collections
    ensures AfterFailedDelete(engine, state, limits, plan, now, scope)
         == State(CollectionsWithout(state.collections, CollectionName(plan.request.projectId, plan.version), scope),
                  CacheAfterSearch(engine, state, plan, now, limits), state.pending)
  {
  }

  /** When deleting the raw document raises, `delete_document` ends after the store deletion and
      before the invalidation. A search made before it and repeated within the time to live then
      still gets the answer of before. It is exact if and only if ranking the points of before gives
      the same as ranking those that are left; and these are the same points if and only if the
      search sees none of the deleted document. */
  lemma {:induction false} FailedDeleteGoesStale<A(!new)>(
    engine: Engine<A>, state: State<A>, limits: CacheRuns.Limits, plan: Plan, now: real, later: real, scope: ChunkPayload)
    requires CollectionName(plan.request.projectId, plan.version) in state.collections
    requires Lookup(state.cache, plan.request.projectId, KeyOf(engine, plan), now).None?
    requires now <= later <= now + limits.ttl
    ensures var r, name := plan.request, CollectionName(plan.request.projectId, plan.version);
            var failed := AfterFailedDelete(engine, state, limits, plan, now, scope);
            var before, after := Visible(state.collections[name], r), Visible(failed.collections[name], r);
            && failed.collections == CollectionsWithout(state.collections, name, scope)
            && SearchResult(engine, failed, plan, later) == Recompute(engine, state.collections, plan)
            && (SearchResult(engine, failed, plan, later) == Recompute(engine, failed.collections, plan)
                <==> engine.rank(r.projectId, r.query, before) == engine.rank(r.projectId, r.query, after))
            && (before == after <==>
                  forall id :: id in before ==> !SameDocument(state.collections[name][id].payload, scope))
  {
    var name := CollectionName(plan.request.projectId, plan.version);
    AfterFailedDeleteIs(engine, state, limits, plan, now, scope);
    VisibleWithoutDocument(state.collections[name], plan.request, scope);
  }

  predicate RankedAlike<A(==)>(engine: Engine<A>, plan: Plan, a: Points, b: Points) {
    engine.rank(plan.request.projectId, plan.request.query, a) == engine.rank(plan.request.projectId, plan.request.query, b)
  }

  /** An answer tells which points it lists. */
  ghost predicate Lists<A(!new)>(engine: Engine<A>, plan: Plan, listed: Points -> set<string>) {
    && (forall a :: listed(a) <= a.Keys)
    && forall a, b :: RankedAlike(engine, plan, a, b) ==> listed(a) == listed(b)
  }

  /** Points that an answer does not list have no part in it. */
  ghost predicate UsesOnlyListed<A(!new)>(engine: Engine<A>, plan: Plan, listed: Points -> set<string>) {
    forall a: Points, gone: set<string> :: gone !! listed(a) ==> RankedAlike(engine, plan, a, a - gone)
  }

  ghost predicate ListsDocument(points: Points, listed: set<string>, scope: ChunkPayload) {
    exists id :: id in listed && id in points && SameDocument(points[id].payload, scope)
  }

  lemma DeletionFromAnswer<A(!new)>(
    engine: Engine<A>, plan: Plan, points: Points, gone: set<string>, listed: Points -> set<string>)
    requires Lists(engine, plan, listed)
    ensures !(gone !! listed(points)) ==> !RankedAlike(engine, plan, points, points - gone)
    ensures gone !! listed(points) && UsesOnlyListed(engine, plan, listed) ==> RankedAlike(engine, plan, points, points - gone)
  {
  }

  /** For every engine whose answers tell which points they list: a cached answer that lists a chunk
      of the deleted document is stale. Where points that are not listed have no part in the answer,
      it is exact if and only if it lists no such chunk. */
  lemma {:induction false} FailedDeleteIsExactIff<A(!new)>(
    engine: Engine<A>, state: State<A>, limits: CacheRuns.Limits, plan: Plan, now: real, later: real, scope: ChunkPayload,
    listed: Points -> set<string>)
    requires CollectionName(plan.request.projectId, plan.version) in state.collections
    requires Lookup(state.cache, plan.request.projectId, KeyOf(engine, plan), now).None?
    requires now <= later <= now + limits.ttl
    requires Lists(engine, plan, listed)
    ensures var points := state.collections[CollectionName(plan.request.projectId, plan.version)];
            var failed := AfterFailedDelete(engine, state, limits, plan, now, scope);
            var exact := SearchResult(engine, failed, plan, later) == Recompute(engine, failed.collections, plan);
            var lists := ListsDocument(points, listed(Visible(points, plan.request)), scope);
            && (exact ==> !lists)
            && (UsesOnlyListed(engine, plan, listed) ==> (exact <==> !lists))
  {
    FailedDeleteGoesStale(engine, state, limits, plan, now, later, scope);
    var points := state.collections[CollectionName(plan.request.projectId, plan.version)];
    VisibleLosesDeleted(points, plan.request, scope);
    var before, gone := Visible(points, plan.request), DeletedIds(points, plan.request, scope);
    assert ListsDocument(points, listed(before), scope) <==> !(gone !! listed(before));
    DeletionFromAnswer(engine, plan, before, gone, listed);
  }

  // ---- an answer that is cut to its best points ----

  /** An order of points for a query: the better score first, ties broken somehow. */
  ghost predicate StrictOrder(ahead: (Point, Point) -> bool) {
    && (forall p :: !ahead(p, p))
    && forall p, q, r :: ahead(p, q) && ahead(q, r) ==> ahead(p, r)
  }

  function AheadOf(points: Points, ahead: (Point, Point) -> bool, id: string): set<string>
    requires id in points
  {
    set other | other in points && ahead(points[other], points[id])
  }

  /** The ids of the best `topK` points. */
  function BestIds(points: Points, ahead: (Point, Point) -> bool, topK: nat): set<string> {
    set id | id in points && |AheadOf(points, ahead, id)| < topK
  }

  function Best(points: Points, ahead: (Point, Point) -> bool, topK: nat): Points {
    map id | id in BestIds(points, ahead, topK) :: points[id]
  }

  /** Among at least `topK` points that have all better points with them, `topK` are listed. */
  lemma {:induction false} ManyAreListed(points: Points, ahead: (Point, Point) -> bool, topK: nat, upper: set<string>)
    requires StrictOrder(ahead) && upper <= points.Keys && |upper| >= topK
    requires forall id :: id in upper ==> AheadOf(points, ahead, id) <= upper
    ensures |upper * BestIds(points, ahead, topK)| >= topK
    decreases |upper|
  {
    if upper <= BestIds(points, ahead, topK) {
      assert upper * BestIds(points, ahead, topK) == upper;
    } else {
      var id :| id in upper && id !in BestIds(points, ahead, topK);
      var better := AheadOf(points, ahead, id);
      SubsetCount(better + {id}, upper);
      ManyAreListed(points, ahead, topK, better);
      SubsetCount(better * BestIds(points, ahead, topK), upper * BestIds(points, ahead, topK));
    }
  }

  /** A point stays listed or unlisted when unlisted points go. */
  lemma ListedStays(points: Points, ahead: (Point, Point) -> bool, topK: nat, gone: set<string>, id: string)
    requires StrictOrder(ahead) && id in points - gone && gone !! BestIds(points, ahead, topK)
    ensures id in BestIds(points, ahead, topK) <==> id in BestIds(points - gone, ahead, topK)
  {
    var better, left := AheadOf(points, ahead, id), AheadOf(points - gone, ahead, id);
    SubsetCount(left, better);
    if |better| >= topK {
      ManyAreListed(points, ahead, topK, better);
      SubsetCount(better * BestIds(points, ahead, topK), left);
    }
  }

  lemma BestWithout(points: Points, ahead: (Point, Point) -> bool, topK: nat, gone: set<string>)
    requires StrictOrder(ahead) && gone !! BestIds(points, ahead, topK)
    ensures Best(points - gone, ahead, topK) == Best(points, ahead, topK)
  {
    forall id: string
      ensures id in BestIds(points, ahead, topK) <==> id in BestIds(points - gone, ahead, topK)
    {
      if id in points - gone {
        ListedStays(points, ahead, topK, gone, id);
      }
    }
  }

  /** An engine that answers with the best `topK` points of the query. */
  function CuttingEngine(ahead: string -> (Point, Point) -> bool, topK: nat): Engine<Points> {
    Engine(_ => "f", _ => true, (project: string, query: string, points: Points) => Best(points, ahead(query), topK))
  }

  /** With a cut to `topK`, the cached answer is exact if and only if none of the best `topK` points
      that the search sees belongs to the deleted document. */
  lemma {:induction false} FailedDeleteAfterCut(
    ahead: string -> (Point, Point) -> bool, topK: nat, state: State<Points>, limits: CacheRuns.Limits,
    plan: Plan, now: real, later: real, scope: ChunkPayload)
    requires StrictOrder(ahead(plan.request.query))
    requires CollectionName(plan.request.projectId, plan.version) in state.collections
    requires Lookup(state.cache, plan.request.projectId, KeyOf(CuttingEngine(ahead, topK), plan), now).None?
    requires now <= later <= now + limits.ttl
    ensures var engine := CuttingEngine(ahead, topK);
            var points := state.collections[CollectionName(plan.request.projectId, plan.version)];
            var failed := AfterFailedDelete(engine, state, limits, plan, now, scope);
            SearchResult(engine, failed, plan, later) == Recompute(engine, failed.collections, plan)
            <==> !ListsDocument(points, BestIds(Visible(points, plan.request), ahead(plan.request.query), topK), scope)
  {
    var engine, order := CuttingEngine(ahead, topK), ahead(plan.request.query);
    var listed := points => BestIds(points, order, topK);
    forall a, b | RankedAlike(engine, plan, a, b)
      ensures listed(a) == listed(b)
    {
      assert Best(a, order, topK).Keys == listed(a) && Best(b, order, topK).Keys == listed(b);
    }
    forall a: Points, gone: set<string> | gone !! listed(a)
      ensures RankedAlike(engine, plan, a, a - gone)
    {
      BestWithout(a, order, topK, gone);
    }
    FailedDeleteIsExactIff(engine, state, limits, plan, now, later, scope, listed);
  }

  /** An engine that answers with the points themselves. */
  function ListingEngine(): Engine<Points> {
    Engine(_ => "f", _ => true, (project: string, query: string, points: Points) => points)
  }

  /** A store that holds one chunk, and the search that sees it. */
  function OneChunk(payload: ChunkPayload): State<Points> {
    State(map[CollectionName(payload.projectId, "v") := map[PointId(payload) := Point(Unnamed([]), payload)]], map[], multiset{})
  }

  function SearchFor(payload: ChunkPayload): Plan {
    Plan(SearchRequest(payload.projectId, payload.userId, "q", [], false), "v")
  }

  /** A witness: in a store of one chunk, a search, the failed delete of its document and the same
      search again: the cached answer still lists the chunk, a fresh search lists nothing. */
  lemma FailedDeleteWitness(payload: ChunkPayload, limits: CacheRuns.Limits)
    requires limits.ttl >= 0.0
    ensures var engine, plan := ListingEngine(), SearchFor(payload);
            var failed := AfterFailedDelete(engine, OneChunk(payload), limits, plan, 0.0, payload);
            && SearchResult(engine, failed, plan, 0.0) == Some(map[PointId(payload) := Point(Unnamed([]), payload)])
            && Recompute(engine, failed.collections, plan) == Some(map[])
  {
    var engine, state, plan := ListingEngine(), OneChunk(payload), SearchFor(payload);
    FailedDeleteGoesStale(engine, state, limits, plan, 0.0, 0.0, payload);
    OneChunkSeen(payload);
  }

  /** The search sees the chunk, and the deletion takes it away. */
  lemma OneChunkSeen(payload: ChunkPayload)
    ensures var points: Points := map[PointId(payload) := Point(Unnamed([]), payload)];
            && Visible(points, SearchFor(payload).request) == points
            && WithoutDocument(points, payload) == map[]
            && Visible(map[], SearchFor(payload).request) == map[]
  {
    var points: Points := map[PointId(payload) := Point(Unnamed([]), payload)];
    WithoutDocumentAt(points, payload, PointId(payload));
  }

  // ---- searches that share a key ----

  /** What a second search gets when its key is that of a search just made: the answer of the first.
      So it is exact if and only if the two would be answered alike. */
  lemma SharedKeyGetsOtherAnswer<A>(
    engine: Engine<A>, state: State<A>, limits: CacheRuns.Limits, plan: Plan, other: Plan, now: real, later: real)
    requires plan.request.projectId == other.request.projectId && KeyOf(engine, plan) == KeyOf(engine, other)
    requires Recompute(engine, state.collections, plan).Some?
    requires Lookup(state.cache, plan.request.projectId, KeyOf(engine, plan), now).None?
    requires now <= later <= now + limits.ttl
    ensures SearchResult(engine, Next(engine, state, Search(plan, now), limits), other, later)
         == Recompute(engine, state.collections, plan)
  {
  }

  /** A witness: user `u|x` searches for `q` and finds its chunk; then user `u`, who may not see it,
      searches for `x|q` and gets the same answer. A fresh search finds nothing. */
  lemma {:induction false} UserSeparatorWitness(payload: ChunkPayload, limits: CacheRuns.Limits)
    requires payload.userId == "u|x" && limits.ttl >= 0.0
    ensures var engine, one := ListingEngine(), SearchFor(payload);
            var two := Plan(SearchRequest(payload.projectId, "u", "x|q", [], false), "v");
            var searched := Next(engine, OneChunk(payload), Search(one, 0.0), limits);
            && SearchResult(engine, searched, two, 0.0) == Some(map[PointId(payload) := Point(Unnamed([]), payload)])
            && Recompute(engine, searched.collections, two) == Some(map[])
  {
    var engine, state, one := ListingEngine(), OneChunk(payload), SearchFor(payload);
    var two := Plan(SearchRequest(payload.projectId, "u", "x|q", [], false), "v");
    UserSeparatorSharesKey(one, "f", Rendered(payload));
    SharedKeyGetsOtherAnswer(engine, state, limits, one, two, 0.0, 0.0);
    var points := state.collections[CollectionName(payload.projectId, "v")];
    assert Visible(points, one.request) == points;
    assert Visible(points, two.request) == map[];
  }
}
