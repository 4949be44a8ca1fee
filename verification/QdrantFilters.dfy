/** Scope filters: what a retrieval filter means for a stored payload. */
module QdrantFilters {
  import opened Common
  import opened Retrieval
  import Text

  const SHARED_USER_ID := "__shared__"

  /** `ProjectRetrievalFilter`, with the ids as they stand after normalisation. */
  datatype RetrievalFilter = RetrievalFilter(
    projectId: string, userId: string, sharedUserId: Option<string>, kbIds: seq<string>, docIds: seq<string>)

  /** `allowed_user_ids` */
  function AllowedUserIds(f: RetrievalFilter): seq<string> {
    if f.sharedUserId.None? then [f.userId] else [f.userId, f.sharedUserId.value]
  }

  /** `normalize_kb_ids`: strip the ids and drop the blank ones. */
  function NormalizeIds(ids: seq<string>): seq<string> {
    if ids == [] then []
    else (if Text.Strip(ids[0]) == "" then [] else [Text.Strip(ids[0])]) + NormalizeIds(ids[1..])
  }

  /** `ProjectRetrievalFilter.from_scope` */
  function FromScope(projectId: string, userId: string, kbIds: seq<string>, includeShared: bool): RetrievalFilter {
    RetrievalFilter(projectId, userId, if includeShared then Some(SHARED_USER_ID) else None, NormalizeIds(kbIds), [])
  }

  datatype Condition = MatchValue(key: string, value: string) | MatchAny(key: string, values: seq<string>)

  /** How the vector store reads a condition. */
  predicate Holds(condition: Condition, fields: map<string, Value>) {
    && condition.key in fields
    && match condition
       case MatchValue(key, value) => fields[key] == Words(value)
       case MatchAny(key, values) => fields[key].Words? && fields[key].words in values
  }

  predicate Matches(must: seq<Condition>, fields: map<string, Value>) {
    forall i :: 0 <= i < |must| ==> Holds(must[i], fields)
  }

  predicate OneOf(fields: map<string, Value>, key: string, values: seq<string>) {
    key in fields && fields[key].Words? && fields[key].words in values
  }

  /** The scope a filter stands for: the project, one of the allowed users and, when ids are
      given, one of the knowledge bases and one of the documents. */
  predicate InScope(f: RetrievalFilter, fields: map<string, Value>) {
    && OneOf(fields, "project_id", [f.projectId])
    && OneOf(fields, "user_id", AllowedUserIds(f))
    && (f.kbIds != [] ==> OneOf(fields, "kb_id", f.kbIds))
    && (f.docIds != [] ==> OneOf(fields, "doc_id", f.docIds))
  }

  /** `_build_qdrant_filter`: the conditions hold exactly for the payloads in scope. */
  method BuildQdrantFilter(f: RetrievalFilter) returns (must: seq<Condition>)
    ensures forall fields :: Matches(must, fields) <==> InScope(f, fields)
  {
    must := [];
    must := Append(must, MatchValue("project_id", f.projectId));
    var userIds := AllowedUserIds(f);
    if |userIds| == 1 {
      must := Append(must, MatchValue("user_id", userIds[0]));
    } else {
      must := Append(must, MatchAny("user_id", userIds));
    }
    if f.kbIds != [] {
      if |f.kbIds| == 1 {
        must := Append(must, MatchValue("kb_id", f.kbIds[0]));
      } else {
        must := Append(must, MatchAny("kb_id", f.kbIds));
      }
    }
    if f.docIds != [] {
      if |f.docIds| == 1 {
        must := Append(must, MatchValue("doc_id", f.docIds[0]));
      } else {
        must := Append(must, MatchAny("doc_id", f.docIds));
      }
    }
  }

  /** `must.append(condition)`: one condition more to meet. */
  method Append(must: seq<Condition>, condition: Condition) returns (longer: seq<Condition>)
    ensures longer == must + [condition]
    ensures forall fields :: Matches(longer, fields) <==> Matches(must, fields) && Holds(condition, fields)
  {
    longer := must + [condition];
    forall fields
      ensures Matches(longer, fields) <==> Matches(must, fields) && Holds(condition, fields)
    {
      assert longer[|must|] == condition;
      assert forall i :: 0 <= i < |must| ==> longer[i] == must[i];
    }
  }

  lemma {:induction false} NormalizedIds(ids: seq<string>, id: string)
    ensures id in NormalizeIds(ids) <==> id != "" && exists i :: 0 <= i < |ids| && Text.Strip(ids[i]) == id
  {
    if ids != [] {
      NormalizedIds(ids[1..], id);
      assert forall i :: 1 <= i < |ids| ==> ids[i] == ids[1..][i - 1];
      assert ids[0] in ids;
    }
  }

  predicate HasWord(fields: map<string, Value>, key: string, word: string) {
    key in fields && fields[key] == Words(word)
  }

  /** What a filter admits: payloads of its project, of its user or the shared one, and of one of its
      knowledge bases and one of its documents, if it names any. */
  lemma InScopeMeaning(f: RetrievalFilter, fields: map<string, Value>)
    ensures InScope(f, fields)
       <==> && HasWord(fields, "project_id", f.projectId)
            && (HasWord(fields, "user_id", f.userId)
                || (f.sharedUserId.Some? && HasWord(fields, "user_id", f.sharedUserId.value)))
            && (|f.kbIds| > 0 ==> exists i :: 0 <= i < |f.kbIds| && HasWord(fields, "kb_id", f.kbIds[i]))
            && (|f.docIds| > 0 ==> exists i :: 0 <= i < |f.docIds| && HasWord(fields, "doc_id", f.docIds[i]))
  {
  }

  /** What the scope of a search admits: payloads of the project that belong to the user or, if shared ones are
      included, to nobody in particular; and when some given knowledge base id is not blank, only those of a
      knowledge base whose id is given, up to white space around it. */
  lemma FromScopeMeaning(projectId: string, userId: string, kbIds: seq<string>, includeShared: bool, fields: map<string, Value>)
    ensures InScope(FromScope(projectId, userId, kbIds, includeShared), fields)
       <==> && HasWord(fields, "project_id", projectId)
            && (HasWord(fields, "user_id", userId) || (includeShared && HasWord(fields, "user_id", "__shared__")))
            && ((exists i :: 0 <= i < |kbIds| && Text.Strip(kbIds[i]) != "") ==>
                  exists i :: 0 <= i < |kbIds| && Text.Strip(kbIds[i]) != "" && HasWord(fields, "kb_id", Text.Strip(kbIds[i])))
  {
    var ids := NormalizeIds(kbIds);
    forall id: string
      ensures id in ids <==> id != "" && exists i :: 0 <= i < |kbIds| && Text.Strip(kbIds[i]) == id
    {
      NormalizedIds(kbIds, id);
    }
    if i :| 0 <= i < |kbIds| && Text.Strip(kbIds[i]) != "" {
      assert Text.Strip(kbIds[i]) in ids;
    }
    if ids != [] {
      assert ids[0] in ids;
    }
  }
}
