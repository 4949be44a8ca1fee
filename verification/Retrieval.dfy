/** Retrieval hits and their payloads. */
module Retrieval {
  import opened Common
  import Text

  datatype Source = Dense | Bm25 | MetadataSource | Hybrid

  /** A payload value other than the metadata record. */
  datatype Value = Words(words: string) | Number(number: int)

  /** `fields` has every key of the payload (what `metadata` maps to does not matter there).
      `entityKeys` is the payload's `metadata["entity_keys"]`, each key written as a string;
      `None` when the metadata is no dictionary or the keys are no list, tuple or set. */
  datatype Payload = Payload(fields: map<string, Value>, entityKeys: Option<seq<string>>)

  /** A value in a hit's own metadata. */
  datatype Note = Score(score: real) | Names(names: seq<string>) | Keys(keys: set<string>) | OtherNote(text: string)

  datatype Hit = Hit(payload: Payload, score: real, source: Source, rank: Option<int>, metadata: map<string, Note>)

  predicate Truthy(value: Value) {
    match value
    case Words(s) => s != ""
    case Number(n) => n != 0
  }

  /** `str(value)` */
  function Render(value: Value): string {
    match value
    case Words(s) => s
    case Number(n) => if n >= 0 then Decimal(n) else "-" + Decimal(-n)
  }

  /** `str(payload.get(key, ""))` */
  function Field(payload: Payload, key: string): string {
    if key in payload.fields then Render(payload.fields[key]) else ""
  }

  predicate Given(payload: Payload, key: string) {
    key in payload.fields && Truthy(payload.fields[key])
  }

  /** `_dedupe_key` */
  function DedupeKey(payload: Payload, preferred: string): string {
    if Given(payload, preferred) then Field(payload, preferred)
    else if Given(payload, "chunk_id") then Field(payload, "chunk_id")
    else if Given(payload, "payload_id") then Field(payload, "payload_id")
    else Text.Join("|", [Field(payload, "project_id"), Field(payload, "user_id"), Field(payload, "kb_id"),
                         Field(payload, "doc_id"), Field(payload, "chunk_index"), Field(payload, "text")])
  }

  /** No two hits have the same dedupe key. */
  ghost predicate KeysDiffer(hits: seq<Hit>, dedupeKey: string) {
    forall i, j :: 0 <= i < j < |hits| ==> DedupeKey(hits[i].payload, dedupeKey) != DedupeKey(hits[j].payload, dedupeKey)
  }

  /** `_payload_text_len` */
  function TextLength(hit: Hit): nat {
    |Field(hit.payload, "text")|
  }
}
