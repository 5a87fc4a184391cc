/** The JSON document that the designer posts and the rule generator reads:
    `{"meta": {...}, "rule": ..., "tags": [...], "artifacts": {...},
    "condition": ...}`. JSON objects keep their key order across the boundary,
    so they are ordered dicts on both sides. */
module RuleJson {
  import opened OrderedDict

  /** One artifact object, `{"artifact": <display text>}` as the designer
      writes it; the generator reads its `"artifact"` field. */
  type JsonObject = Dict<string>

  datatype RuleJson = RuleJson(
    meta: Dict<string>,
    rule: string,
    tags: seq<string>,
    artifacts: Dict<JsonObject>,
    condition: string)
}
