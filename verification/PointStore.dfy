/** The vector store as collections of points whose ids are derived from chunk identities. */
module PointStore {
  import opened Common
  import opened Retrieval
  import opened Separators
  import QdrantFilters
  import Text
  import TextLaws

  datatype ChunkPayload = ChunkPayload(
    projectId: string, userId: string, kbId: string, docId: string, dataType: string, chunkIndex: nat,
    chunkerVersion: string, payloadId: string, chunkId: string, documentId: string, text: string,
    contentHash: string, embeddingVersion: string, visibility: string)

  /** `ProjectChunkPayload.point_identity` */
  function PointIdentity(payload: ChunkPayload): seq<string> {
    [payload.projectId, payload.userId, payload.kbId, payload.docId, payload.dataType,
     Decimal(payload.chunkIndex), payload.chunkerVersion]
  }

  /** `make_qdrant_point_id`. The joined identity stands for its UUIDv5 (RFC 9562, section 5.5),
      which is taken to be free of collisions. */
  function PointId(payload: ChunkPayload): string {
    Text.Join("|", PointIdentity(payload))
  }

  /** `to_qdrant_payload` */
  function Rendered(payload: ChunkPayload): map<string, Value> {
    map["payload_id" := Words(payload.payloadId), "document_id" := Words(payload.documentId),
        "chunk_id" := Words(payload.chunkId), "chunk_index" := Number(payload.chunkIndex),
        "text" := Words(payload.text), "data_type" := Words(payload.dataType),
        "content_hash" := Words(payload.contentHash), "embedding_version" := Words(payload.embeddingVersion),
        "chunker_version" := Words(payload.chunkerVersion), "metadata" := Words(""),
        "project_id" := Words(payload.projectId), "user_id" := Words(payload.userId),
        "kb_id" := Words(payload.kbId), "doc_id" := Words(payload.docId),
        "visibility" := Words(payload.visibility)]
  }

  /** What retrieval reads of a stored chunk: it is merged by its chunk id, and has its text, place, index
      and identity fields under their own names. */
  lemma RenderedFields(payload: ChunkPayload, entityKeys: Option<seq<string>>)
    ensures var p := Payload(Rendered(payload), entityKeys);
            && (payload.chunkId != "" ==> DedupeKey(p, "chunk_id") == payload.chunkId)
            && TextLength(Hit(p, 0.0, Dense, None, map[])) == |payload.text|
            && Field(p, "project_id") == payload.projectId && Field(p, "user_id") == payload.userId
            && Field(p, "kb_id") == payload.kbId && Field(p, "doc_id") == payload.docId
            && Field(p, "chunk_index") == Decimal(payload.chunkIndex) && Field(p, "text") == payload.text
            && Field(p, "payload_id") == payload.payloadId && Field(p, "document_id") == payload.documentId
            && Field(p, "data_type") == payload.dataType && Field(p, "content_hash") == payload.contentHash
            && Field(p, "embedding_version") == payload.embeddingVersion
            && Field(p, "chunker_version") == payload.chunkerVersion && Field(p, "visibility") == payload.visibility
  {
  }

  // ---- identities ----

  predicate SameIdentity(a: ChunkPayload, b: ChunkPayload) {
    && a.projectId == b.projectId && a.userId == b.userId && a.kbId == b.kbId && a.docId == b.docId
    && a.dataType == b.dataType && a.chunkIndex == b.chunkIndex && a.chunkerVersion == b.chunkerVersion
  }

  /** No component of the identity holds the separator, other than those at the `loose` places. */
  predicate FreeOutside(payload: ChunkPayload, loose: set<nat>) {
    forall i: nat :: i < 7 && i !in loose ==> Free(PointIdentity(payload)[i], '|')
  }

  lemma SameIdentityIff(a: ChunkPayload, b: ChunkPayload)
    ensures PointIdentity(a) == PointIdentity(b) <==> SameIdentity(a, b)
  {
    var x, y := PointIdentity(a), PointIdentity(b);
    if x == y {
      assert x[0] == y[0] && x[1] == y[1] && x[2] == y[2] && x[3] == y[3] && x[4] == y[4] && x[5] == y[5] && x[6] == y[6];
      DecimalInjective(a.chunkIndex, b.chunkIndex);
    }
  }

  /** When all components but one are free of the separator, two payloads share a point id exactly
      when they have the same project, user, knowledge base, document, data type, index and chunker. */
  lemma PointIdInjective(a: ChunkPayload, b: ChunkPayload, loose: set<nat>)
    requires |loose| <= 1 && FreeOutside(a, loose) && FreeOutside(b, loose)
    ensures PointId(a) == PointId(b) <==> SameIdentity(a, b)
  {
    if PointId(a) == PointId(b) {
      var place: nat := if l :| l in loose && l < 7 then l else 0;
      OnlyOne(loose, place);
      JoinInjectiveBut(PointIdentity(a), PointIdentity(b), place, '|');
    }
    SameIdentityIff(a, b);
  }

  lemma OnlyOne(loose: set<nat>, place: nat)
    requires |loose| <= 1 && (place in loose || forall l :: l in loose ==> l >= 7)
    ensures forall l :: l in loose && l < 7 ==> l == place
  {
    forall l | l in loose && l < 7
      ensures l == place
    {
      if l != place {
        SubsetCount({l, place}, loose);
      }
    }
  }

  /** The payload with the identity component at a place replaced. */
  function WithPart(payload: ChunkPayload, place: nat, part: string): ChunkPayload
    requires place < 7 && place != 5
  {
    match place
    case 0 => payload.(projectId := part)
    case 1 => payload.(userId := part)
    case 2 => payload.(kbId := part)
    case 3 => payload.(docId := part)
    case 4 => payload.(dataType := part)
    case _ => payload.(chunkerVersion := part)
  }

  lemma WithPartIs(payload: ChunkPayload, place: nat, part: string)
    requires place < 7 && place != 5
    ensures PointIdentity(WithPart(payload, place, part)) == PointIdentity(payload)[place := part]
  {
  }

  lemma TwoReplaced(parts: seq<string>, i: nat, j: nat, x: string, y: string)
    requires i < j < |parts|
    ensures parts[i := x][j := y] == parts[..i] + [x] + parts[i + 1..j] + [y] + parts[j + 1..]
  {
  }

  /** Any two components that hold the separator can collide, whatever the others are. */
  lemma AnyTwoCollide(base: ChunkPayload, i: nat, j: nat) returns (a: ChunkPayload, b: ChunkPayload)
    requires i < j < 7 && i != 5 && j != 5
    ensures PointId(a) == PointId(b) && !SameIdentity(a, b)
    ensures forall k :: 0 <= k < 7 && k != i && k != j ==>
              PointIdentity(a)[k] == PointIdentity(b)[k] == PointIdentity(base)[k]
  {
    var ids := PointIdentity(base);
    var front, middle, back := ids[..i], ids[i + 1..j], ids[j + 1..];
    var m := Terminated(middle, '|');
    var far, near := "w" + ['|'] + m + "y", "x" + ['|'] + m + "w";
    a := WithPart(WithPart(base, i, "x"), j, far);
    b := WithPart(WithPart(base, i, near), j, "y");
    WithPartIs(base, i, "x");
    WithPartIs(WithPart(base, i, "x"), j, far);
    WithPartIs(base, i, near);
    WithPartIs(WithPart(base, i, near), j, "y");
    TwoReplaced(ids, i, j, "x", far);
    TwoReplaced(ids, i, j, near, "y");
    PairCollides(front, "x", middle, "y", back, '|');
    SameIdentityIff(a, b);
    assert PointIdentity(a)[i] == "x" && |PointIdentity(b)[i]| > 1;
  }

  const PLAIN := ChunkPayload("p", "p", "p", "p", "p", 0, "p", "p", "p", "p", "p", "p", "p", "p")

  /** The condition is exact: point ids tell all payloads apart whose components outside `loose` are
      free of the separator, if and only if `loose` has at most one place. */
  lemma IdentitiesAreInjectiveIff(loose: set<nat>)
    requires loose <= {0, 1, 2, 3, 4, 6}
    ensures |loose| <= 1 <==>
            forall a, b :: FreeOutside(a, loose) && FreeOutside(b, loose) && PointId(a) == PointId(b) ==> SameIdentity(a, b)
  {
    if |loose| <= 1 {
      forall a, b | FreeOutside(a, loose) && FreeOutside(b, loose) && PointId(a) == PointId(b)
        ensures SameIdentity(a, b)
      {
        PointIdInjective(a, b, loose);
      }
    } else {
      var i, j := TwoPlaces(loose);
      var a, b := AnyTwoCollide(PLAIN, i, j);
      DecimalDigits(0);
      assert FreeOutside(PLAIN, {});
      assert FreeOutside(a, loose) && FreeOutside(b, loose);
    }
  }

  lemma TwoPlaces(loose: set<nat>) returns (i: nat, j: nat)
    requires |loose| > 1
    ensures i in loose && j in loose && i < j
  {
    i :| i in loose;
    assert |loose - {i}| == |loose| - 1;
    j :| j in loose - {i};
    if j < i {
      i, j := j, i;
    }
  }

  // ---- collections ----

  datatype Vectors = Unnamed(dense: seq<real>) | Named(namedDense: Option<seq<real>>, sparse: seq<(nat, real)>)

  datatype Point = Point(vectors: Vectors, payload: ChunkPayload)

  type Points = map<string, Point>

  function Ids(batch: seq<Point>): (ids: seq<string>)
    ensures |ids| == |batch| && forall i :: 0 <= i < |batch| ==> ids[i] == PointId(batch[i].payload)
  {
    seq(|batch|, i requires 0 <= i < |batch| => PointId(batch[i].payload))
  }

  /** One point after another, a later one replacing an earlier one of the same id. */
  function PutAll(points: Points, ids: seq<string>, batch: seq<Point>): Points
    requires |ids| == |batch|
  {
    if batch == [] then points
    else
      var last := |batch| - 1;
      PutAll(points, ids[..last], batch[..last])[ids[last] := batch[last]]
  }

  /** `client.upsert` */
  function Upserted(points: Points, batch: seq<Point>): Points {
    PutAll(points, Ids(batch), batch)
  }

  function DocumentFilter(projectId: string, userId: string, kbId: string, docId: string): seq<QdrantFilters.Condition> {
    [QdrantFilters.MatchValue("project_id", projectId), QdrantFilters.MatchValue("user_id", userId),
     QdrantFilters.MatchValue("kb_id", kbId), QdrantFilters.MatchValue("doc_id", docId)]
  }

  predicate OfDocument(payload: ChunkPayload, projectId: string, userId: string, kbId: string, docId: string) {
    payload.projectId == projectId && payload.userId == userId && payload.kbId == kbId && payload.docId == docId
  }

  lemma DocumentFilterMeaning(payload: ChunkPayload, projectId: string, userId: string, kbId: string, docId: string)
    ensures QdrantFilters.Matches(DocumentFilter(projectId, userId, kbId, docId), Rendered(payload))
       <==> OfDocument(payload, projectId, userId, kbId, docId)
  {
    var must, fields := DocumentFilter(projectId, userId, kbId, docId), Rendered(payload);
    assert fields["project_id"] == Words(payload.projectId) && fields["user_id"] == Words(payload.userId);
    assert fields["kb_id"] == Words(payload.kbId) && fields["doc_id"] == Words(payload.docId);
    assert QdrantFilters.Matches(must, fields) <==>
      QdrantFilters.Holds(must[0], fields) && QdrantFilters.Holds(must[1], fields)
      && QdrantFilters.Holds(must[2], fields) && QdrantFilters.Holds(must[3], fields);
  }

  /** `client.delete` with a filter selector */
  function Deleted(points: Points, must: seq<QdrantFilters.Condition>): Points {
    map id | id in points && !QdrantFilters.Matches(must, Rendered(points[id].payload)) :: points[id]
  }

  datatype Collection = Collection(denseNames: set<string>, sparseNames: set<string>, points: Points)

  datatype StoreError = CountMismatch | DimensionMismatch(index: nat) | IncompatibleSchema | NoSuchCollection

  datatype Outcome = Done | Failed(error: StoreError)

  function WithDense(vectors: seq<seq<real>>, payloads: seq<ChunkPayload>): seq<Point>
    requires |vectors| == |payloads|
  {
    seq(|payloads|, i requires 0 <= i < |payloads| => Point(Unnamed(vectors[i]), payloads[i]))
  }

  function WithNamed(dense: Option<seq<seq<real>>>, sparse: seq<seq<(nat, real)>>, payloads: seq<ChunkPayload>): seq<Point>
    requires |sparse| == |payloads| && (dense.Some? ==> |dense.value| == |payloads|)
  {
    seq(|payloads|, i requires 0 <= i < |payloads| =>
      Point(Named(if dense.Some? then Some(dense.value[i]) else None, sparse[i]), payloads[i]))
  }

  /** What `_validate_hybrid_upsert_input` accepts. */
  predicate HybridInputFits(
    dense: Option<seq<seq<real>>>, sparse: seq<seq<(nat, real)>>, payloads: seq<ChunkPayload>,
    ids: Option<seq<string>>, vectorSize: nat)
  {
    && |sparse| == |payloads|
    && (dense.Some? ==> |dense.value| == |payloads| && forall i :: 0 <= i < |dense.value| ==> |dense.value[i]| == vectorSize)
    && (ids.Some? ==> |ids.value| == |payloads|)
  }

  /** Entry `i` is the last payload with its point id. */
  ghost predicate IsLastPayload(payloads: seq<ChunkPayload>, i: nat) {
    i < |payloads| && forall j :: i < j < |payloads| ==> PointId(payloads[j]) != PointId(payloads[i])
  }

  /** After an upsert, each id of a payload holds the last payload with that id and the vectors given with
      it; every other id is as before. */
  ghost predicate HoldsBatch(before: Points, after: Points, payloads: seq<ChunkPayload>, vectors: seq<Vectors>)
    requires |vectors| == |payloads|
  {
    && (forall i: nat :: IsLastPayload(payloads, i) ==>
          PointId(payloads[i]) in after && after[PointId(payloads[i])] == Point(vectors[i], payloads[i]))
    && forall id :: (forall i :: 0 <= i < |payloads| ==> PointId(payloads[i]) != id) ==>
         (id in after <==> id in before) && (id in before ==> after[id] == before[id])
  }

  lemma UpsertHoldsBatch(before: Points, batch: seq<Point>, payloads: seq<ChunkPayload>, vectors: seq<Vectors>)
    requires |batch| == |payloads| == |vectors|
    requires forall i :: 0 <= i < |batch| ==> batch[i] == Point(vectors[i], payloads[i])
    ensures HoldsBatch(before, Upserted(before, batch), payloads, vectors)
  {
    forall i: nat | IsLastPayload(payloads, i)
      ensures PointId(payloads[i]) in Upserted(before, batch)
      ensures Upserted(before, batch)[PointId(payloads[i])] == Point(vectors[i], payloads[i])
    {
      assert IsLastOf(Ids(batch), i);
      UpsertedAt(before, batch, PointId(payloads[i]));
    }
    forall id: string | forall i :: 0 <= i < |payloads| ==> PointId(payloads[i]) != id
      ensures id in Upserted(before, batch) <==> id in before
      ensures id in before ==> Upserted(before, batch)[id] == before[id]
    {
      UpsertedAt(before, batch, id);
    }
  }

  /** The dense vectors of a collection without names. */
  function UnnamedVectors(vectors: seq<seq<real>>): (all: seq<Vectors>)
    ensures |all| == |vectors| && forall i :: 0 <= i < |all| ==> all[i] == Unnamed(vectors[i])
  {
    seq(|vectors|, i requires 0 <= i < |vectors| => Unnamed(vectors[i]))
  }

  /** The sparse vectors, each with the dense one of the same index if there are dense ones. */
  function NamedVectors(dense: Option<seq<seq<real>>>, sparse: seq<seq<(nat, real)>>): (all: seq<Vectors>)
    requires dense.Some? ==> |dense.value| == |sparse|
    ensures |all| == |sparse|
    ensures forall i :: 0 <= i < |all| ==> all[i].Named? && all[i].sparse == sparse[i]
    ensures dense.None? ==> forall i :: 0 <= i < |all| ==> all[i].namedDense == None
    ensures dense.Some? ==> forall i :: 0 <= i < |all| ==> all[i].namedDense == Some(dense.value[i])
  {
    seq(|sparse|, i requires 0 <= i < |sparse| => Named(if dense.Some? then Some(dense.value[i]) else None, sparse[i]))
  }

  function PointsOf(collections: map<string, Collection>, name: string): Points {
    if name in collections then collections[name].points else map[]
  }

  class QdrantStore {
    var collections: map<string, Collection>

    /** `_validate_upsert_input` */
    static method Validate(vectors: seq<seq<real>>, payloads: seq<ChunkPayload>, vectorSize: nat) returns (outcome: Outcome)
      ensures outcome == Failed(CountMismatch) <==> |vectors| != |payloads|
      ensures outcome == Done <==> |vectors| == |payloads| && forall i :: 0 <= i < |vectors| ==> |vectors[i]| == vectorSize
      ensures outcome.Failed? && outcome.error != CountMismatch ==>
                && outcome.error.DimensionMismatch? && outcome.error.index < |vectors|
                && |vectors[outcome.error.index]| != vectorSize
                && forall i :: 0 <= i < outcome.error.index ==> |vectors[i]| == vectorSize
    {
      if |vectors| != |payloads| {
        return Failed(CountMismatch);
      }
      for index := 0 to |vectors|
        invariant forall i :: 0 <= i < index ==> |vectors[i]| == vectorSize
      {
        if |vectors[index]| != vectorSize {
          return Failed(DimensionMismatch(index));
        }
      }
      return Done;
    }

    /** A missing collection is created as `empty`, and then the points are upserted. */
    method Write(name: string, empty: Collection, points: seq<Point>)
      modifies this
      ensures var before := if name in old(collections) then old(collections)[name] else empty;
              collections == old(collections)[name := before.(points := Upserted(before.points, points))]
    {
      if name !in collections {
        collections := collections[name := empty];
      }
      var collection := collections[name];
      collections := collections[name := collection.(points := Upserted(collection.points, points))];
    }

    /** `upsert`: on bad input nothing changes; otherwise the collection exists afterwards (unless
        there was nothing to write) and has the batch upserted, every other collection is as before. */
    method Upsert(name: string, vectors: seq<seq<real>>, payloads: seq<ChunkPayload>, vectorSize: nat)
      returns (outcome: Outcome)
      modifies this
      ensures outcome == Done <==> |vectors| == |payloads| && forall i :: 0 <= i < |vectors| ==> |vectors[i]| == vectorSize
      ensures outcome.Failed? || payloads == [] ==> collections == old(collections)
      ensures outcome == Done && payloads != [] ==>
                var before := if name in old(collections) then old(collections)[name] else Collection({}, {}, map[]);
                collections == old(collections)[name := before.(points := Upserted(before.points, WithDense(vectors, payloads)))]
      ensures outcome == Done && payloads != [] ==>
                name in collections
                && HoldsBatch(PointsOf(old(collections), name), collections[name].points, payloads, UnnamedVectors(vectors))
    {
      outcome := Validate(vectors, payloads, vectorSize);
      if outcome.Failed? || payloads == [] {
        return;
      }
      var points := WithDense(vectors, payloads);
      UpsertHoldsBatch(PointsOf(collections, name), points, payloads, UnnamedVectors(vectors));
      Write(name, Collection({}, {}, map[]), points);
    }

    /** `upsert_hybrid_points`: the given `ids` are only counted; the point ids come from the
        payloads, as in `Upsert`. An existing collection must have both named vectors. */
    method UpsertHybrid(
      name: string, dense: Option<seq<seq<real>>>, sparse: seq<seq<(nat, real)>>, payloads: seq<ChunkPayload>,
      ids: Option<seq<string>>, denseName: string, sparseName: string, vectorSize: nat)
      returns (outcome: Outcome)
      modifies this
      ensures outcome == Done <==>
                && HybridInputFits(dense, sparse, payloads, ids, vectorSize)
                && (payloads != [] && name in old(collections) ==>
                      denseName in old(collections)[name].denseNames && sparseName in old(collections)[name].sparseNames)
      ensures outcome.Failed? || payloads == [] ==> collections == old(collections)
      ensures outcome == Done && payloads != [] ==>
                && HybridInputFits(dense, sparse, payloads, ids, vectorSize)
                && var before := if name in old(collections) then old(collections)[name]
                                 else Collection({denseName}, {sparseName}, map[]);
                   collections == old(collections)[name :=
                     before.(points := Upserted(before.points, WithNamed(dense, sparse, payloads)))]
      ensures outcome == Done && payloads != [] ==>
                HybridInputFits(dense, sparse, payloads, ids, vectorSize) && name in collections
                && HoldsBatch(PointsOf(old(collections), name), collections[name].points, payloads, NamedVectors(dense, sparse))
    {
      if |sparse| != |payloads| {
        return Failed(CountMismatch);
      }
      if dense.Some? {
        outcome := Validate(dense.value, payloads, vectorSize);
        if outcome.Failed? {
          return;
        }
      }
      if ids.Some? && |ids.value| != |payloads| {
        return Failed(CountMismatch);
      }
      if payloads == [] {
        return Done;
      }
      if name in collections {
        if denseName !in collections[name].denseNames || sparseName !in collections[name].sparseNames {
          return Failed(IncompatibleSchema);
        }
      }
      var points := BuildNamedPoints(dense, sparse, payloads);
      UpsertHoldsBatch(PointsOf(collections, name), points, payloads, NamedVectors(dense, sparse));
      Write(name, Collection({denseName}, {sparseName}, map[]), points);
      return Done;
    }

    static method BuildNamedPoints(dense: Option<seq<seq<real>>>, sparse: seq<seq<(nat, real)>>, payloads: seq<ChunkPayload>)
      returns (points: seq<Point>)
      requires |sparse| == |payloads| && (dense.Some? ==> |dense.value| == |payloads|)
      ensures points == WithNamed(dense, sparse, payloads)
    {
      points := [];
      for index := 0 to |payloads|
        invariant points == WithNamed(dense, sparse, payloads)[..index]
      {
        var vector := if dense.Some? then Some(dense.value[index]) else None;
        points := points + [Point(Named(vector, sparse[index]), payloads[index])];
      }
    }

    method DeleteDocument(name: string, projectId: string, userId: string, kbId: string, docId: string)
      returns (outcome: Outcome)
      modifies this
      ensures outcome == Done <==> name in old(collections)
      ensures outcome.Failed? ==> collections == old(collections)
      ensures outcome == Done ==>
                && collections.Keys == old(collections).Keys
                && (forall n :: n in collections && n != name ==> collections[n] == old(collections)[n])
                && (forall id :: id in collections[name].points <==>
                      id in old(collections)[name].points
                      && !OfDocument(old(collections)[name].points[id].payload, projectId, userId, kbId, docId))
                && (forall id :: id in collections[name].points ==>
                      collections[name].points[id] == old(collections)[name].points[id])
    {
      if name !in collections {
        return Failed(NoSuchCollection);
      }
      var collection := collections[name];
      var must := DocumentFilter(projectId, userId, kbId, docId);
      forall id | id in collection.points
        ensures QdrantFilters.Matches(must, Rendered(collection.points[id].payload))
           <==> OfDocument(collection.points[id].payload, projectId, userId, kbId, docId)
      {
        DocumentFilterMeaning(collection.points[id].payload, projectId, userId, kbId, docId);
      }
      collections := collections[name := collection.(points := Deleted(collection.points, must))];
      return Done;
    }
  }

  // ---- upserts as a whole ----

  /** Where a batch has several points of one id, the last one counts. */
  ghost predicate IsLastOf(ids: seq<string>, i: nat) {
    i < |ids| && forall j :: i < j < |ids| ==> ids[j] != ids[i]
  }

  lemma {:induction false} PutAllElsewhere(points: Points, ids: seq<string>, batch: seq<Point>, id: string)
    requires |ids| == |batch| && id !in ids
    ensures id in PutAll(points, ids, batch) <==> id in points
    ensures id in points ==> PutAll(points, ids, batch)[id] == points[id]
  {
    if batch != [] {
      var last := |batch| - 1;
      assert id !in ids[..last] && id != ids[last];
      PutAllElsewhere(points, ids[..last], batch[..last], id);
    }
  }

  lemma {:induction false} PutAllAt(points: Points, ids: seq<string>, batch: seq<Point>, i: nat)
    requires |ids| == |batch| && IsLastOf(ids, i)
    ensures ids[i] in PutAll(points, ids, batch) && PutAll(points, ids, batch)[ids[i]] == batch[i]
  {
    var last := |batch| - 1;
    if i < last {
      assert ids[last] != ids[i];
      assert IsLastOf(ids[..last], i);
      PutAllAt(points, ids[..last], batch[..last], i);
    }
  }

  /** After an upsert an id holds the last point of the batch with that id, or what it held. */
  lemma UpsertedAt(points: Points, batch: seq<Point>, id: string)
    ensures id !in Ids(batch) ==>
              (id in Upserted(points, batch) <==> id in points)
              && (id in points ==> Upserted(points, batch)[id] == points[id])
    ensures forall i: nat :: IsLastOf(Ids(batch), i) && Ids(batch)[i] == id ==>
              id in Upserted(points, batch) && Upserted(points, batch)[id] == batch[i]
  {
    if id !in Ids(batch) {
      PutAllElsewhere(points, Ids(batch), batch, id);
    }
    forall i: nat | IsLastOf(Ids(batch), i) && Ids(batch)[i] == id
      ensures id in Upserted(points, batch) && Upserted(points, batch)[id] == batch[i]
    {
      PutAllAt(points, Ids(batch), batch, i);
    }
  }

  lemma LastOccurrence(ids: seq<string>, id: string) returns (i: nat)
    requires id in ids
    ensures IsLastOf(ids, i) && ids[i] == id
  {
    i := |ids| - 1;
    while ids[i] != id
      invariant i < |ids|
      invariant id in ids[..i + 1]
      invariant forall j :: i < j < |ids| ==> ids[j] != id
      decreases i
    {
      i := i - 1;
    }
  }

  /** Ingesting the same batch again changes nothing. */
  lemma UpsertIsIdempotent(points: Points, batch: seq<Point>)
    ensures Upserted(Upserted(points, batch), batch) == Upserted(points, batch)
  {
    var once := Upserted(points, batch);
    var twice := Upserted(once, batch);
    forall id: string
      ensures id in twice <==> id in once
      ensures id in once ==> twice[id] == once[id]
    {
      UpsertedAt(points, batch, id);
      UpsertedAt(once, batch, id);
      if id in Ids(batch) {
        var i := LastOccurrence(Ids(batch), id);
      }
    }
  }

  /** Every point is stored under its own id. */
  ghost predicate KeptById(points: Points) {
    forall id :: id in points ==> PointId(points[id].payload) == id
  }

  lemma UpsertedById(points: Points, batch: seq<Point>)
    requires KeptById(points)
    ensures KeptById(Upserted(points, batch))
  {
    forall id | id in Upserted(points, batch)
      ensures PointId(Upserted(points, batch)[id].payload) == id
    {
      UpsertedAt(points, batch, id);
      if id in Ids(batch) {
        var i := LastOccurrence(Ids(batch), id);
      }
    }
  }

  /** Inside one project: a chunk of user `u|k` and knowledge base `b` and a chunk of user `u` and
      knowledge base `k|b` share an id, so ingesting the second one destroys the first. */
  lemma CollisionDestroys(points: Points, first: Point, second: Point)
    requires KeptById(points)
    requires first.payload.userId == "u|k" && first.payload.kbId == "b"
    requires second.payload == first.payload.(userId := "u", kbId := "k|b", text := second.payload.text)
    ensures !SameIdentity(first.payload, second.payload)
    ensures var before := Upserted(points, [first]);
            var after := Upserted(before, [second]);
            && PointId(first.payload) in before && before[PointId(first.payload)] == first
            && forall id :: id in after ==> after[id].payload != first.payload
  {
    var x, y := PointIdentity(first.payload), PointIdentity(second.payload);
    assert x == [x[0]] + ["u|k"] + [] + ["b"] + x[3..] && y == [x[0]] + ["u"] + [] + ["k|b"] + x[3..];
    JoinSplit([x[0]], "u|k", [], "b", x[3..], '|');
    JoinSplit([x[0]], "u", [], "k|b", x[3..], '|');
    assert x[3..] != [];
    assert ["b"] + x[3..] == ["b"] + x[3..] && (["b"] + x[3..])[1..] == x[3..] && (["k|b"] + x[3..])[1..] == x[3..];
    var tail := Text.Join("|", x[3..]);
    assert Text.Join("|", ["b"] + x[3..]) == "b|" + tail && Text.Join("|", ["k|b"] + x[3..]) == "k|b|" + tail;
    assert "u|k" + "|" + "" + ("b|" + tail) == "u" + "|" + "" + ("k|b|" + tail);
    assert PointId(first.payload) == PointId(second.payload);
    var before := Upserted(points, [first]);
    var after := Upserted(before, [second]);
    assert IsLastOf(Ids([first]), 0) && IsLastOf(Ids([second]), 0);
    UpsertedAt(points, [first], PointId(first.payload));
    UpsertedAt(before, [second], PointId(first.payload));
    UpsertedById(points, [first]);
    UpsertedById(before, [second]);
  }

  // ---- re-ingesting a document ----

  /** The chunks of one document, as one chunker version cuts it: indices 0, 1, 2, ... */
  ghost predicate IsDocument(batch: seq<Point>, scope: ChunkPayload) {
    forall i :: 0 <= i < |batch| ==> SameIdentity(batch[i].payload, scope.(chunkIndex := i))
  }

  /** Chunks of one document differ in their ids, whatever its components hold. */
  lemma IndexDecides(scope: ChunkPayload, i: nat, j: nat)
    requires PointId(scope.(chunkIndex := i)) == PointId(scope.(chunkIndex := j))
    ensures i == j
  {
    var x, y := PointIdentity(scope.(chunkIndex := i)), PointIdentity(scope.(chunkIndex := j));
    IdAroundIndex(scope.(chunkIndex := i));
    IdAroundIndex(scope.(chunkIndex := j));
    var start, end := Terminated(x[..5], '|'), "|" + scope.chunkerVersion;
    assert x[..5] == y[..5];
    SameInside(start, Decimal(i), Decimal(j), end);
    DecimalInjective(i, j);
  }

  lemma SameInside(start: string, a: string, b: string, end: string)
    requires start + (a + end) == start + (b + end)
    ensures a == b
  {
    var s := start + (a + end);
    assert |a| == |b| && s[|start|..|start| + |a|] == a && s[|start|..|start| + |b|] == b;
  }

  lemma IdAroundIndex(payload: ChunkPayload)
    ensures PointId(payload) == Terminated(PointIdentity(payload)[..5], '|')
                                + (Decimal(payload.chunkIndex) + ("|" + payload.chunkerVersion))
  {
    var x := PointIdentity(payload);
    var end := [Decimal(payload.chunkIndex), payload.chunkerVersion];
    assert x == x[..5] + end && end[1..] == [payload.chunkerVersion];
    JoinWithFront(x[..5], end, '|');
  }

  lemma DocumentIds(batch: seq<Point>, scope: ChunkPayload, i: nat)
    requires IsDocument(batch, scope) && i < |batch|
    ensures Ids(batch)[i] == PointId(scope.(chunkIndex := i)) && IsLastOf(Ids(batch), i)
  {
    forall j | i <= j < |batch|
      ensures Ids(batch)[j] == PointId(scope.(chunkIndex := j))
    {
      SameIdentityIff(batch[j].payload, scope.(chunkIndex := j));
    }
    forall j | i < j < |batch|
      ensures Ids(batch)[j] != Ids(batch)[i]
    {
      if Ids(batch)[j] == Ids(batch)[i] {
        IndexDecides(scope, i, j);
      }
    }
  }

  /** Ingesting new chunks over old ones of the same document leaves the new chunks at their
      indices, the old ones at the indices beyond, and every other id as it was. */
  lemma ReingestKeepsStaleTail(points: Points, earlier: seq<Point>, later: seq<Point>, scope: ChunkPayload, id: string)
    requires IsDocument(earlier, scope) && IsDocument(later, scope)
    ensures var after := Upserted(Upserted(points, earlier), later);
            && (forall i :: 0 <= i < |later| && id == PointId(scope.(chunkIndex := i)) ==>
                  id in after && after[id] == later[i])
            && (forall i :: |later| <= i < |earlier| && id == PointId(scope.(chunkIndex := i)) ==>
                  id in after && after[id] == earlier[i])
            && ((forall i :: 0 <= i < |later| || 0 <= i < |earlier| ==> id != PointId(scope.(chunkIndex := i))) ==>
                  (id in after <==> id in points) && (id in points ==> after[id] == points[id]))
  {
    var middle := Upserted(points, earlier);
    UpsertedAt(points, earlier, id);
    UpsertedAt(middle, later, id);
    forall i | 0 <= i < |later| && id == PointId(scope.(chunkIndex := i))
      ensures Ids(later)[i] == id && IsLastOf(Ids(later), i)
    {
      DocumentIds(later, scope, i);
    }
    forall i | |later| <= i < |earlier| && id == PointId(scope.(chunkIndex := i))
      ensures Ids(earlier)[i] == id && IsLastOf(Ids(earlier), i) && id !in Ids(later)
    {
      DocumentIds(earlier, scope, i);
      BeyondIsNotAmongIds(later, scope, i);
    }
    forall i | 0 <= i < |later|
      ensures Ids(later)[i] == PointId(scope.(chunkIndex := i))
    {
      DocumentIds(later, scope, i);
    }
    forall i | 0 <= i < |earlier|
      ensures Ids(earlier)[i] == PointId(scope.(chunkIndex := i))
    {
      DocumentIds(earlier, scope, i);
    }
  }

  lemma BeyondIsNotAmongIds(batch: seq<Point>, scope: ChunkPayload, i: nat)
    requires IsDocument(batch, scope) && i >= |batch|
    ensures PointId(scope.(chunkIndex := i)) !in Ids(batch)
  {
    forall j | 0 <= j < |batch|
      ensures PointId(scope.(chunkIndex := j)) != PointId(scope.(chunkIndex := i))
    {
      if PointId(scope.(chunkIndex := j)) == PointId(scope.(chunkIndex := i)) {
        IndexDecides(scope, j, i);
      }
    }
  }

  predicate SameDocument(payload: ChunkPayload, scope: ChunkPayload) {
    OfDocument(payload, scope.projectId, scope.userId, scope.kbId, scope.docId)
  }

  /** `delete_document` on one collection */
  function WithoutDocument(points: Points, scope: ChunkPayload): Points {
    Deleted(points, DocumentFilter(scope.projectId, scope.userId, scope.kbId, scope.docId))
  }

  lemma WithoutDocumentAt(points: Points, scope: ChunkPayload, id: string)
    ensures id in WithoutDocument(points, scope) <==> id in points && !SameDocument(points[id].payload, scope)
    ensures id in WithoutDocument(points, scope) ==> WithoutDocument(points, scope)[id] == points[id]
  {
    if id in points {
      DocumentFilterMeaning(points[id].payload, scope.projectId, scope.userId, scope.kbId, scope.docId);
    }
  }

  /** Deleting a document and ingesting it again leaves exactly the new chunks of it. A point outside
      that project, user, knowledge base and document is kept exactly if no new chunk has its id. */
  lemma DeleteThenIngest(points: Points, batch: seq<Point>, scope: ChunkPayload, id: string)
    requires IsDocument(batch, scope)
    ensures var after := Upserted(WithoutDocument(points, scope), batch);
            && (id in after && SameDocument(after[id].payload, scope) <==> id in Ids(batch))
            && (forall i :: 0 <= i < |batch| && id == Ids(batch)[i] ==> id in after && after[id] == batch[i])
            && (id in after && !SameDocument(after[id].payload, scope) ==> id in points && after[id] == points[id])
            && (id in points && !SameDocument(points[id].payload, scope) ==>
                  (id in after && after[id] == points[id] <==> id !in Ids(batch)))
  {
    var rest := WithoutDocument(points, scope);
    WithoutDocumentAt(points, scope, id);
    UpsertedAt(rest, batch, id);
    forall i | 0 <= i < |batch| && id == Ids(batch)[i]
      ensures IsLastOf(Ids(batch), i)
    {
      DocumentIds(batch, scope, i);
    }
  }

  // ---- the knowledge base id of a deletion ----

  const DEFAULT_KB_ID := "default"

  /** `normalize_kb_id`, which a chunk payload applies to its own id. */
  function NormalizeKbId(id: string): string {
    if Text.Strip(id) == "" then DEFAULT_KB_ID else Text.Strip(id)
  }

  /** White space around an id goes, and an id of nothing else is the default one; so normal ids stay. */
  lemma NormalizedKbIdIsNormal(id: string, left: string, right: string)
    requires Text.AllSpace(left) && Text.AllSpace(right)
    ensures Text.AllSpace(id) ==> NormalizeKbId(id) == "default"
    ensures Text.Stripped(id) && id != "" ==> NormalizeKbId(left + id + right) == id
    ensures NormalizeKbId(NormalizeKbId(id)) == NormalizeKbId(id)
  {
    var _, _ := Text.StripSlice(id);
    Text.StripOfStripped(NormalizeKbId(id));
    TextLaws.BlankIsSpace(id);
    if Text.Stripped(id) && id != "" {
      Text.StripPadded(left, id, right);
    }
  }

  ghost predicate KbIdsNormal(points: Points) {
    forall id :: id in points ==> NormalizeKbId(points[id].payload.kbId) == points[id].payload.kbId
  }

  /** The deletion gets the raw id, the chunks were stored under the normal one: it reaches a chunk of
      the document exactly if the id is its own normal form, and otherwise it deletes nothing. */
  lemma RawDeletion(points: Points, scope: ChunkPayload, rawKbId: string, id: string)
    requires KbIdsNormal(points)
    ensures var after := WithoutDocument(points, scope.(kbId := rawKbId));
            && (NormalizeKbId(rawKbId) != rawKbId ==> after == points)
            && (id in points && SameDocument(points[id].payload, scope.(kbId := NormalizeKbId(rawKbId))) ==>
                  (id !in after <==> NormalizeKbId(rawKbId) == rawKbId))
  {
    forall key: string
      ensures key in WithoutDocument(points, scope.(kbId := rawKbId))
         <==> key in points && !SameDocument(points[key].payload, scope.(kbId := rawKbId))
      ensures key in WithoutDocument(points, scope.(kbId := rawKbId)) ==>
                WithoutDocument(points, scope.(kbId := rawKbId))[key] == points[key]
    {
      WithoutDocumentAt(points, scope.(kbId := rawKbId), key);
    }
  }

  /** Deleting with a raw id and ingesting again leaves exactly the new chunks of the document, whatever
      was stored, if and only if no old chunk has another id than the new ones or the raw id is its own
      normal form. */
  lemma RawDeleteThenIngest(points: Points, batch: seq<Point>, scope: ChunkPayload, rawKbId: string)
    requires KbIdsNormal(points) && IsDocument(batch, scope.(kbId := NormalizeKbId(rawKbId)))
    ensures var document := scope.(kbId := NormalizeKbId(rawKbId));
            var after := Upserted(WithoutDocument(points, scope.(kbId := rawKbId)), batch);
            (forall id :: id in after && SameDocument(after[id].payload, document) <==> id in Ids(batch))
            <==> NormalizeKbId(rawKbId) == rawKbId
                 || forall id :: id in points && SameDocument(points[id].payload, document) ==> id in Ids(batch)
  {
    var document := scope.(kbId := NormalizeKbId(rawKbId));
    var after := Upserted(WithoutDocument(points, scope.(kbId := rawKbId)), batch);
    if NormalizeKbId(rawKbId) == rawKbId {
      forall id: string
        ensures id in after && SameDocument(after[id].payload, document) <==> id in Ids(batch)
      {
        DeleteThenIngest(points, batch, document, id);
      }
    } else {
      RawDeletion(points, scope, rawKbId, "");
      forall id: string
        ensures id in after && SameDocument(after[id].payload, document) <==>
                id in Ids(batch) || (id in points && SameDocument(points[id].payload, document))
      {
        DocumentAfterIngest(points, batch, document, id);
      }
    }
  }

  lemma DocumentAfterIngest(points: Points, batch: seq<Point>, scope: ChunkPayload, id: string)
    requires IsDocument(batch, scope)
    ensures id in Upserted(points, batch) && SameDocument(Upserted(points, batch)[id].payload, scope) <==>
            id in Ids(batch) || (id in points && SameDocument(points[id].payload, scope))
  {
    UpsertedAt(points, batch, id);
    if id in Ids(batch) {
      var i := LastOccurrence(Ids(batch), id);
      assert SameIdentity(batch[i].payload, scope.(chunkIndex := i));
    }
  }

  /** If all components but one are free of the separator, no point outside the document has such an
      id: delete-then-ingest changes nothing there. */
  lemma OutsideIsKept(points: Points, batch: seq<Point>, scope: ChunkPayload, loose: set<nat>, id: string)
    requires KeptById(points) && IsDocument(batch, scope) && |loose| <= 1 && FreeOutside(scope, loose)
    requires id in points && FreeOutside(points[id].payload, loose) && !SameDocument(points[id].payload, scope)
    ensures var after := Upserted(WithoutDocument(points, scope), batch);
            id in after && after[id] == points[id]
  {
    DeleteThenIngest(points, batch, scope, id);
    forall i | 0 <= i < |batch|
      ensures Ids(batch)[i] != id
    {
      DocumentIds(batch, scope, i);
      AnyIndexIsFree(scope, i, loose);
      PointIdInjective(scope.(chunkIndex := i), points[id].payload, loose);
    }
  }

  lemma AnyIndexIsFree(scope: ChunkPayload, i: nat, loose: set<nat>)
    requires FreeOutside(scope, loose)
    ensures FreeOutside(scope.(chunkIndex := i), loose)
  {
    DecimalDigits(i);
    var x, y := PointIdentity(scope), PointIdentity(scope.(chunkIndex := i));
    assert forall k :: 0 <= k < 7 && k != 5 ==> x[k] == y[k];
  }

  // ---- isolation of projects ----

  ghost predicate OnlyOf(batch: seq<Point>, projectId: string) {
    forall i :: 0 <= i < |batch| ==> batch[i].payload.projectId == projectId
  }

  lemma EqualIdsClash(a: ChunkPayload, b: ChunkPayload)
    requires PointId(a) == PointId(b)
    ensures PrefixClash(a.projectId, b.projectId, '|')
  {
    var x, y := PointIdentity(a), PointIdentity(b);
    LeftClash(a.projectId, Text.Join("|", x[1..]), b.projectId, Text.Join("|", y[1..]), '|');
  }

  /** An upsert for one project leaves the points of every other project alone whose id does not clash
      with that of the project. */
  lemma UpsertIsolated(points: Points, batch: seq<Point>, projectId: string, id: string)
    requires KeptById(points) && OnlyOf(batch, projectId)
    requires id in points && PrefixClash(points[id].payload.projectId, projectId, '|') ==>
               points[id].payload.projectId == projectId
    ensures id in points && points[id].payload.projectId != projectId ==>
              id in Upserted(points, batch) && Upserted(points, batch)[id] == points[id]
    ensures id in Upserted(points, batch) && Upserted(points, batch)[id].payload.projectId != projectId ==>
              id in points && points[id] == Upserted(points, batch)[id]
  {
    UpsertedAt(points, batch, id);
    if id in Ids(batch) {
      var i := LastOccurrence(Ids(batch), id);
      if id in points {
        EqualIdsClash(points[id].payload, batch[i].payload);
      }
    }
  }

  /** A deletion for one project leaves the points of every other project alone. */
  lemma DeleteIsolated(points: Points, projectId: string, userId: string, kbId: string, docId: string, id: string)
    ensures var after := Deleted(points, DocumentFilter(projectId, userId, kbId, docId));
            && (id in after ==> id in points && after[id] == points[id])
            && (id in points && points[id].payload.projectId != projectId ==> id in after)
  {
    if id in points {
      DocumentFilterMeaning(points[id].payload, projectId, userId, kbId, docId);
    }
  }
}
