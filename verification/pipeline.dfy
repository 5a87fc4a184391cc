/** Where the two halves meet: the designer's payload read by the rule
    generator. The designer keys each artifact as `$` and the element id and
    renders the same variable into the condition; the generator keeps only
    the strings the condition references as `$` and a maximal word. */
module Pipeline {
  import opened Results
  import opened Text
  import opened OrderedDict
  import opened RuleJson
  import opened Designer
  import opened YaraVariables
  import opened YaraHandling

  /** Every artifact in the editor has an id made of word characters. */
  predicate WordIds(children: seq<Token>) {
    forall i :: 0 <= i < |children| && IsArtifact(children[i]) ==> IsWord(children[i].id)
  }

  /** Artifact objects that hold just their `"artifact"` field yield the
      strings table of those fields. */
  lemma ExtractArtifactFields(a: Dict<JsonObject>)
    requires forall k :: 0 <= k < |a| ==> |a[k].1| == 1 && a[k].1[0].0 == ArtifactField
    ensures ExtractStrings(a).Ok?
    ensures forall k :: 0 <= k < |a| ==> a[k].1 == [(ArtifactField, ExtractStrings(a).value[k].1)]
  {
    forall k | 0 <= k < |a|
      ensures ArtifactField in Keys(a[k].1)
    {
      assert Keys(a[k].1)[0] == ArtifactField;
    }
    var e := ExtractStrings(a).value;
    forall k | 0 <= k < |a|
      ensures a[k].1 == [(ArtifactField, e[k].1)]
    {
      assert a[k].1 == [(ArtifactField, a[k].1[0].1)];
    }
  }

  /** Every artifact object of a payload has its `"artifact"` field, so the
      strings table is built, one string per artifact entry with the
      artifact's text. */
  lemma PayloadStringsExtract(children: seq<Token>, ruleName: string, description: string, enabledTags: seq<string>)
    requires |children| > 0
    ensures var p := RuleJsonFromEditor(children, ruleName, description, enabledTags).value;
      var s := ExtractStrings(p.artifacts);
      && s.Ok?
      && Keys(s.value) == Keys(p.artifacts)
      && forall k :: 0 <= k < |p.artifacts| ==> p.artifacts[k].1 == [(ArtifactField, s.value[k].1)]
  {
    var p := RuleJsonFromEditor(children, ruleName, description, enabledTags).value;
    forall k | 0 <= k < |p.artifacts|
      ensures |p.artifacts[k].1| == 1 && p.artifacts[k].1[0].0 == ArtifactField
    {
      var f := PayloadKeyOwner(children, ruleName, description, enabledTags, k);
    }
    ExtractArtifactFields(p.artifacts);
  }

  /** Each key of the payload's artifacts is `$` and the id of an artifact
      in the editor. */
  lemma PayloadKeyOwner(children: seq<Token>, ruleName: string, description: string, enabledTags: seq<string>, k: nat)
    returns (f: nat)
    requires |children| > 0
    requires k < |RuleJsonFromEditor(children, ruleName, description, enabledTags).value.artifacts|
    ensures f < |children| && IsArtifact(children[f])
    ensures RuleJsonFromEditor(children, ruleName, description, enabledTags).value.artifacts[k]
      == ArtifactEntry(children[f])
  {
    PayloadArtifacts(children, ruleName, description, enabledTags);
    f := FirstArtifactIndex(children, CollectArtifacts(children, true)[k].id);
  }

  /** `$` and a word, followed by a space or the end, is a reference. */
  lemma DelimitedWordIsVariable(s: string, id: string, pos: nat)
    requires IsWord(id) && DelimitedAt(s, VariableDenominator + id, pos)
    ensures VariableAt(s, pos, VariableDenominator + id)
  {
    assert (VariableDenominator + id)[1..] == id;
  }

  /** With word ids, every key of the payload's artifacts is a variable the
      condition references. */
  lemma PayloadKeyReferenced(children: seq<Token>, ruleName: string, description: string, enabledTags: seq<string>, k: nat)
    requires |children| > 0 && WordIds(children)
    requires k < |RuleJsonFromEditor(children, ruleName, description, enabledTags).value.artifacts|
    ensures var p := RuleJsonFromEditor(children, ruleName, description, enabledTags).value;
      p.artifacts[k].0 in Findall(p.condition)
  {
    var p := RuleJsonFromEditor(children, ruleName, description, enabledTags).value;
    var f := PayloadKeyOwner(children, ruleName, description, enabledTags, k);
    assert p.artifacts[k].0 == VariableDenominator + children[f].id;
    var pos := PayloadKeyInCondition(children, ruleName, description, enabledTags, k);
    DelimitedWordIsVariable(p.condition, children[f].id, pos);
    FindallComplete(p.condition, pos, p.artifacts[k].0);
  }

  /** A designed rule whose artifacts have word ids loses none of them: the
      generator builds the rule text, and its strings block lists every
      artifact of the payload with the artifact's text. */
  lemma DesignedRuleKeepsEveryArtifact(children: seq<Token>, ruleName: string, description: string, enabledTags: seq<string>)
    requires |children| > 0 && |ruleName| > 0 && WordIds(children)
    ensures var p := RuleJsonFromEditor(children, ruleName, description, enabledTags).value;
      var s := ExtractStrings(p.artifacts);
      && CompileSourcePrefix(p).Ok?
      && s.Ok?
      && (forall k :: k in Keys(ReferencedStrings(p.condition, s.value)) <==> k in Keys(p.artifacts))
      && (forall k :: k in Keys(p.artifacts) ==> Lookup(ReferencedStrings(p.condition, s.value), k) == Lookup(s.value, k))
  {
    var p := RuleJsonFromEditor(children, ruleName, description, enabledTags).value;
    PayloadStringsExtract(children, ruleName, description, enabledTags);
    forall k | 0 <= k < |p.artifacts|
      ensures p.artifacts[k].0 in Findall(p.condition)
    {
      PayloadKeyReferenced(children, ruleName, description, enabledTags, k);
    }
  }

  /** The strings table of a single artifact entry. */
  lemma ExtractSingle(key: string, text: string)
    ensures var e := ExtractStrings([(key, [(ArtifactField, text)])]);
      e.Ok? && e.value == [(key, text)]
  {
    var a: Dict<JsonObject> := [(key, [(ArtifactField, text)])];
    assert a[1..] == [];
    assert Lookup(a[0].1, ArtifactField) == Some(text);
  }

  /** An id with a non-word character is cut short in the scan: the artifact
      `$a-b` reaches the generator, but the condition `$a-b` only references
      `$a`, so the strings block stays empty. */
  lemma NonWordIdIsPruned()
    ensures var x := Token("a-b", "draggable_artifact", "A");
      var p := RuleJsonFromEditor([x], "r", "d", []).value;
      && p.condition == "$a-b"
      && Keys(p.artifacts) == ["$a-b"]
      && ExtractStrings(p.artifacts).Ok? && ExtractStrings(p.artifacts).value == [("$a-b", "A")]
      && ReferencedStrings(p.condition, [("$a-b", "A")]) == []
  {
    var x := Token("a-b", "draggable_artifact", "A");
    SingleArtifactPayload(x, "r", "d", []);
    assert VariableDenominator + x.id == "$a-b";
    ExtractSingle("$a-b", "A");
    HyphenEndsVariable();
  }
}
