/** The editor-to-payload serializer of the rule designer page
    (static/scripts/designer.js). The editor is the ordered sequence of the
    elements dropped into it; each element is a token carrying the element's
    `id`, its `className` and its text. */
module Designer {
  import opened Results
  import opened Text
  import opened OrderedDict
  import opened RuleJson

  datatype Token = Token(id: string, className: string, text: string)

  const ArtifactClasses: seq<string> := ["draggable_artifact", "draggable_artifact_type"]
  const KeywordClasses: seq<string> := ["condition_keyword"]
  const VariableDenominator: string := "$"
  const NoContentsMessage: string := "Editor had no contents"

  /** Thrown by `getEditorArtifactsAndTypes` on an empty editor. */
  datatype NoContentsException = NoContentsException(message: string)

  /** Class membership is exact equality of the whole `className` with one
      entry of the list, not a test on the element's class set. */
  predicate IsArtifact(t: Token) {
    t.className in ArtifactClasses
  }

  predicate IsKeyword(t: Token) {
    t.className in KeywordClasses
  }

  /** A token the condition renders; any other class is logged and skipped. */
  predicate IsRecognized(t: Token) {
    IsArtifact(t) || IsKeyword(t)
  }

  predicate IsArtifactWithId(t: Token, id: string) {
    IsArtifact(t) && t.id == id
  }

  predicate HasId(ts: seq<Token>, id: string) {
    exists k :: 0 <= k < |ts| && ts[k].id == id
  }

  // ---------------------------------------------------------------------------
  // getEditorArtifactsAndTypes

  /** One iteration of the loop of `getEditorArtifactsAndTypes`: an artifact
      token is appended, unless `unique` holds and a token with its id is
      already in the list; any other token is passed over. */
  function Visit(acc: seq<Token>, child: Token, unique: bool): seq<Token> {
    if IsArtifact(child) then
      if unique then
        if HasId(acc, child.id) then acc else acc + [child]
      else
        acc + [child]
    else
      acc
  }

  /** The artifact list after the loop has visited all of `children`. */
  function CollectArtifacts(children: seq<Token>, unique: bool): (r: seq<Token>)
    ensures |r| <= |children|
    ensures forall k :: 0 <= k < |r| ==> IsArtifact(r[k]) && r[k] in children
    decreases |children|
  {
    if |children| == 0 then []
    else
      var init := children[..|children| - 1];
      assert forall t :: t in init ==> t in children;
      Visit(CollectArtifacts(init, unique), children[|children| - 1], unique)
  }

  /** `getEditorArtifactsAndTypes(unique)`: the artifact tokens of a non-empty
      editor, or `NoContentsException` for an empty one. */
  function EditorArtifactsAndTypes(children: seq<Token>, unique: bool): (r: Result<seq<Token>, NoContentsException>)
    ensures r.Err? <==> |children| == 0
    ensures r.Err? ==> r.error == NoContentsException(NoContentsMessage)
    ensures r.Ok? ==> forall t :: t in r.value ==> IsArtifact(t) && t in children
  {
    if |children| == 0 then
      Err(NoContentsException(NoContentsMessage))
    else
      Ok(CollectArtifacts(children, unique))
  }

  /** Reference definition: the artifact tokens of `children`, in order. */
  function ArtifactsOf(children: seq<Token>): seq<Token>
    decreases |children|
  {
    if |children| == 0 then []
    else (if IsArtifact(children[0]) then [children[0]] else []) + ArtifactsOf(children[1..])
  }

  lemma {:induction false} ArtifactsOfAppend(children: seq<Token>, t: Token)
    ensures ArtifactsOf(children + [t]) == ArtifactsOf(children) + (if IsArtifact(t) then [t] else [])
    decreases |children|
  {
    if |children| > 0 {
      assert (children + [t])[1..] == children[1..] + [t];
      ArtifactsOfAppend(children[1..], t);
    }
  }

  /** Without `unique` the list is exactly the artifact filter of the editor. */
  lemma {:induction false} CollectAllIsFilter(children: seq<Token>)
    ensures CollectArtifacts(children, false) == ArtifactsOf(children)
    decreases |children|
  {
    if |children| > 0 {
      var init := children[..|children| - 1];
      CollectAllIsFilter(init);
      assert children == init + [children[|children| - 1]];
      ArtifactsOfAppend(init, children[|children| - 1]);
    }
  }

  /** Index of the first artifact token with `id`, or `|children|` if none. */
  function FirstArtifactIndex(children: seq<Token>, id: string): (k: nat)
    ensures k <= |children|
    ensures k < |children| ==> IsArtifactWithId(children[k], id)
    ensures forall j :: 0 <= j < k ==> !IsArtifactWithId(children[j], id)
    decreases |children|
  {
    if |children| == 0 then 0
    else if IsArtifactWithId(children[0], id) then 0
    else 1 + FirstArtifactIndex(children[1..], id)
  }

  lemma FirstArtifactIndexAppend(children: seq<Token>, t: Token, id: string)
    ensures FirstArtifactIndex(children + [t], id) ==
      if FirstArtifactIndex(children, id) < |children| then FirstArtifactIndex(children, id)
      else if IsArtifactWithId(t, id) then |children|
      else |children| + 1
  {
    var c := children + [t];
    var f := FirstArtifactIndex(children, id);
    var g := FirstArtifactIndex(c, id);
    assert c[|children|] == t;
    assert forall j :: 0 <= j < |children| ==> c[j] == children[j];
  }

  /** Each token of `r` is the first artifact token of `children` with its id. */
  predicate AreFirstOccurrences(children: seq<Token>, r: seq<Token>) {
    forall k :: 0 <= k < |r| ==>
      FirstArtifactIndex(children, r[k].id) < |children| &&
      children[FirstArtifactIndex(children, r[k].id)] == r[k]
  }

  /** The tokens of `r` appear in the order of their ids' first occurrences. */
  predicate InFirstOccurrenceOrder(children: seq<Token>, r: seq<Token>) {
    forall i, j :: 0 <= i < j < |r| ==>
      FirstArtifactIndex(children, r[i].id) < FirstArtifactIndex(children, r[j].id)
  }

  /** Every artifact id of `children` is the id of some token of `r`. */
  predicate CoversArtifactIds(children: seq<Token>, r: seq<Token>) {
    forall i :: 0 <= i < |children| && IsArtifact(children[i]) ==> HasId(r, children[i].id)
  }

  lemma VisitCovers(init: seq<Token>, acc: seq<Token>, x: Token)
    requires CoversArtifactIds(init, acc)
    ensures CoversArtifactIds(init + [x], Visit(acc, x, true))
  {
    var c := init + [x];
    var r := Visit(acc, x, true);
    assert r[..|acc|] == acc;
    forall i | 0 <= i < |c| && IsArtifact(c[i])
      ensures HasId(r, c[i].id)
    {
      if i < |init| {
        assert c[i] == init[i];
        var k :| 0 <= k < |acc| && acc[k].id == c[i].id;
        assert r[k] == acc[k];
      } else if !HasId(acc, x.id) {
        assert r[|acc|] == x;
      }
    }
  }

  lemma VisitFirst(init: seq<Token>, acc: seq<Token>, x: Token)
    requires AreFirstOccurrences(init, acc) && CoversArtifactIds(init, acc)
    requires InFirstOccurrenceOrder(init, acc)
    ensures AreFirstOccurrences(init + [x], Visit(acc, x, true))
    ensures InFirstOccurrenceOrder(init + [x], Visit(acc, x, true))
  {
    var c := init + [x];
    var r := Visit(acc, x, true);
    forall k | 0 <= k < |acc|
      ensures FirstArtifactIndex(c, acc[k].id) == FirstArtifactIndex(init, acc[k].id)
      ensures c[FirstArtifactIndex(c, acc[k].id)] == acc[k]
    {
      FirstArtifactIndexAppend(init, x, acc[k].id);
    }
    if IsArtifact(x) && !HasId(acc, x.id) {
      FirstArtifactIndexAppend(init, x, x.id);
      assert r == acc + [x];
      assert FirstArtifactIndex(c, x.id) == |init|;
      assert forall k :: 0 <= k < |acc| ==> FirstArtifactIndex(c, r[k].id) < |init|;
    }
  }

  /** With `unique`, the list holds one token per artifact id of the editor:
      each is the first artifact token with its id, they appear in the order
      of those first occurrences, and every artifact id of the editor is
      represented. */
  lemma {:induction false} CollectUniqueFirstOccurrences(children: seq<Token>)
    ensures AreFirstOccurrences(children, CollectArtifacts(children, true))
    ensures InFirstOccurrenceOrder(children, CollectArtifacts(children, true))
    ensures CoversArtifactIds(children, CollectArtifacts(children, true))
    decreases |children|
  {
    if |children| > 0 {
      var init := children[..|children| - 1];
      var x := children[|children| - 1];
      assert children == init + [x];
      CollectUniqueFirstOccurrences(init);
      var acc := CollectArtifacts(init, true);
      VisitCovers(init, acc, x);
      VisitFirst(init, acc, x);
    }
  }

  /** With `unique`, no two tokens of the list share an id. */
  lemma CollectUniqueDistinct(children: seq<Token>)
    ensures var r := CollectArtifacts(children, true);
      forall i, j :: 0 <= i < j < |r| ==> r[i].id != r[j].id
  {
    CollectUniqueFirstOccurrences(children);
  }

  // ---------------------------------------------------------------------------
  // getEditorConditionString

  /** The text a recognized token contributes, without spacing: an artifact is
      its YARA variable `$id`, a keyword its lower-cased text. */
  function Render(t: Token): string {
    if IsArtifact(t) then VariableDenominator + t.id else Lower(t.text)
  }

  /** The condition after the loop has visited all of `children`. The spacing
      before a token depends only on its index: none at index 0, one space at
      every later index, whether or not anything was emitted before. */
  function ConditionString(children: seq<Token>): string
    decreases |children|
  {
    if |children| == 0 then ""
    else
      var i := |children| - 1;
      ConditionString(children[..i]) + Emit(children[i], i)
  }

  /** What one iteration of the loop of `getEditorConditionString` appends for
      the token at index `i`; the spacing becomes one space once `i` reaches 1. */
  function Emit(child: Token, i: nat): string {
    var preSpacing := if i >= 1 then " " else "";
    if IsArtifact(child) then preSpacing + VariableDenominator + child.id
    else if IsKeyword(child) then preSpacing + Lower(child.text)
    else ""
  }

  /** Reference definitions: the recognized tokens in order, and their renders. */
  function Recognized(children: seq<Token>): (r: seq<Token>)
    ensures |r| <= |children|
    decreases |children|
  {
    if |children| == 0 then []
    else
      var x := children[|children| - 1];
      Recognized(children[..|children| - 1]) + (if IsRecognized(x) then [x] else [])
  }

  function Renders(ts: seq<Token>): seq<string> {
    seq(|ts|, i requires 0 <= i < |ts| => Render(ts[i]))
  }

  /** The space a skipped first token leaves in front of the first render. */
  function LeadingSpace(children: seq<Token>): string {
    if |children| > 0 && !IsRecognized(children[0]) && |Recognized(children)| > 0 then " " else ""
  }

  /** The predicate that `ConditionStringIsJoin` proves of every editor. */
  predicate ConditionIsJoin(children: seq<Token>) {
    ConditionString(children) == LeadingSpace(children) + Join(" ", Renders(Recognized(children)))
  }

  /** The condition is the renders of the recognized tokens joined by single
      spaces, preceded by one space exactly when the first token was skipped
      and something was rendered after it. */
  lemma {:induction false} ConditionStringIsJoin(children: seq<Token>)
    ensures ConditionString(children) == LeadingSpace(children) + Join(" ", Renders(Recognized(children)))
    decreases |children|
  {
    if |children| > 0 {
      var init := children[..|children| - 1];
      var x := children[|children| - 1];
      ConditionStringIsJoin(init);
      if !IsRecognized(x) {
        ConditionStepSkipped(children);
      } else if |Recognized(init)| > 0 {
        ConditionStepJoined(children);
      } else {
        ConditionStepFirst(children);
      }
    }
  }

  /** A skipped last token changes neither the condition nor the reference. */
  lemma ConditionStepSkipped(children: seq<Token>)
    requires |children| > 0 && !IsRecognized(children[|children| - 1])
    requires ConditionIsJoin(children[..|children| - 1])
    ensures ConditionIsJoin(children)
  {
    var init := children[..|children| - 1];
    var x := children[|children| - 1];
    var rs := Recognized(init);
    assert Recognized(children) == rs + [] == rs;
    assert Emit(x, |init|) == "";
    assert ConditionString(children) == ConditionString(init) + "";
    if |init| > 0 {
      assert children[0] == init[0];
    }
    assert LeadingSpace(children) == LeadingSpace(init);
  }

  /** A recognized last token after earlier renders adds a space and its
      render to both sides. */
  lemma ConditionStepJoined(children: seq<Token>)
    requires |children| > 0 && IsRecognized(children[|children| - 1])
    requires |Recognized(children[..|children| - 1])| > 0
    requires ConditionIsJoin(children[..|children| - 1])
    ensures ConditionIsJoin(children)
  {
    var init := children[..|children| - 1];
    var x := children[|children| - 1];
    var rs := Recognized(init);
    var lead := LeadingSpace(init);
    var joined := Join(" ", Renders(rs));
    assert Recognized(children) == rs + [x];
    assert Join(" ", Renders(Recognized(children))) == joined + " " + Render(x) by {
      JoinRendersAppend(rs, x);
    }
    assert ConditionString(children) == lead + joined + (" " + Render(x)) by {
      EmitRecognized(x, |init|);
    }
    assert LeadingSpace(children) == lead by {
      assert children[0] == init[0];
    }
    Regroup(lead, joined, Render(x));
  }

  lemma Regroup(a: string, b: string, c: string)
    ensures a + b + (" " + c) == a + (b + " " + c)
  {
  }

  /** The first recognized token is rendered after the leading space, if any. */
  lemma ConditionStepFirst(children: seq<Token>)
    requires |children| > 0 && IsRecognized(children[|children| - 1])
    requires |Recognized(children[..|children| - 1])| == 0
    requires ConditionIsJoin(children[..|children| - 1])
    ensures ConditionIsJoin(children)
  {
    var init := children[..|children| - 1];
    var x := children[|children| - 1];
    assert Recognized(children) == [] + [x];
    assert Renders([x]) == [Render(x)];
    EmitRecognized(x, |init|);
    if |init| > 0 {
      assert children[0] == init[0];
      RecognizedHas(init, 0);
    }
  }

  lemma JoinRendersAppend(rs: seq<Token>, x: Token)
    requires |rs| > 0
    ensures Join(" ", Renders(rs + [x])) == Join(" ", Renders(rs)) + " " + Render(x)
  {
    var rendered := Renders(rs + [x]);
    assert rendered[..|rs|] == Renders(rs);
    assert rendered[|rs|] == Render(x);
  }

  lemma EmitRecognized(x: Token, i: nat)
    requires IsRecognized(x)
    ensures Emit(x, i) == (if i >= 1 then " " else "") + Render(x)
  {
  }

  /** When every token is an artifact or a keyword, the condition is their
      renders joined by single spaces. */
  lemma ConditionOfRecognized(children: seq<Token>)
    requires forall i :: 0 <= i < |children| ==> IsRecognized(children[i])
    ensures ConditionString(children) == Join(" ", Renders(children))
  {
    ConditionStringIsJoin(children);
    RecognizedAll(children);
  }

  lemma {:induction false} RecognizedAll(children: seq<Token>)
    requires forall i :: 0 <= i < |children| ==> IsRecognized(children[i])
    ensures Recognized(children) == children
    decreases |children|
  {
    if |children| > 0 {
      var init := children[..|children| - 1];
      RecognizedAll(init);
      assert children == init + [children[|children| - 1]];
    }
  }

  /** A skipped first token followed by a rendered one leaves a leading space. */
  lemma SkippedFirstTokenLeavesSpace(children: seq<Token>, i: nat)
    requires 0 < i < |children|
    requires !IsRecognized(children[0]) && IsRecognized(children[i])
    ensures |ConditionString(children)| > 0 && ConditionString(children)[0] == ' '
  {
    ConditionStringIsJoin(children);
    RecognizedHas(children, i);
  }

  /** A recognized token anywhere makes the reference list non-empty. */
  lemma {:induction false} RecognizedHas(children: seq<Token>, i: nat)
    requires i < |children|
    ensures IsRecognized(children[i]) ==> |Recognized(children)| > 0
    decreases |children|
  {
    if i < |children| - 1 {
      var init := children[..|children| - 1];
      assert init[i] == children[i];
      RecognizedHas(init, i);
    }
  }

  /** `w` occurs in `s` at `pos` and is followed by a space or the end. */
  predicate DelimitedAt(s: string, w: string, pos: nat) {
    pos + |w| <= |s| && s[pos..pos + |w|] == w && (pos + |w| == |s| || s[pos + |w|] == ' ')
  }

  /** The condition of a prefix of the editor is a prefix of the condition,
      and whatever follows it starts with a space. */
  lemma {:induction false} ConditionPrefix(children: seq<Token>, k: nat)
    requires 1 <= k <= |children|
    ensures var c, p := ConditionString(children), ConditionString(children[..k]);
      |p| <= |c| && c[..|p|] == p && (|p| < |c| ==> c[|p|] == ' ')
    decreases |children|
  {
    if k == |children| {
      assert children[..k] == children;
    } else {
      var init := children[..|children| - 1];
      assert init[..k] == children[..k];
      ConditionPrefix(init, k);
      var e := Emit(children[|children| - 1], |children| - 1);
      assert ConditionString(children) == ConditionString(init) + e;
      assert e == "" || e[0] == ' ';
    }
  }

  /** Every artifact token's variable `$id` occurs in the condition at its
      position, followed by a space or the end of the condition. */
  lemma ArtifactVariableInCondition(children: seq<Token>, i: nat) returns (pos: nat)
    requires i < |children| && IsArtifact(children[i])
    ensures DelimitedAt(ConditionString(children), VariableDenominator + children[i].id, pos)
  {
    var w := VariableDenominator + children[i].id;
    var q := ConditionString(children[..i]);
    var sp := if i >= 1 then " " else "";
    var p := ConditionString(children[..i + 1]);
    var c := ConditionString(children);
    ConditionThroughArtifact(children, i);
    ConditionPrefix(children, i + 1);
    DelimitedAfterPrefix(c, p, q + sp, w);
    pos := |q + sp|;
  }

  lemma ConditionThroughArtifact(children: seq<Token>, i: nat)
    requires i < |children| && IsArtifact(children[i])
    ensures ConditionString(children[..i + 1]) ==
      (ConditionString(children[..i]) + (if i >= 1 then " " else "")) + (VariableDenominator + children[i].id)
  {
    var upTo := children[..i + 1];
    assert upTo[..i] == children[..i];
    EmitRecognized(children[i], i);
  }

  /** If `a + w` is a prefix of `c` followed by a space or the end, then `w`
      occurs delimited in `c` at `|a|`. */
  lemma DelimitedAfterPrefix(c: string, p: string, a: string, w: string)
    requires p == a + w
    requires |p| <= |c| && c[..|p|] == p
    requires |p| < |c| ==> c[|p|] == ' '
    ensures |a| == |p| - |w|
    ensures DelimitedAt(c, w, |a|)
  {
    assert c[|a|..|a| + |w|] == p[|a|..];
  }

  // ---------------------------------------------------------------------------
  // getRuleJsonFromEditorElements

  /** The `json["artifacts"]` entry written for an artifact token. */
  function ArtifactEntry(t: Token): (string, JsonObject) {
    (VariableDenominator + t.id, [("artifact", t.text)])
  }

  /** The loop that fills `json["artifacts"]` from the artifact list. */
  function ArtifactEntries(artifacts: seq<Token>): Dict<JsonObject>
    decreases |artifacts|
  {
    if |artifacts| == 0 then []
    else
      var last := artifacts[|artifacts| - 1];
      Set(ArtifactEntries(artifacts[..|artifacts| - 1]), VariableDenominator + last.id, [("artifact", last.text)])
  }

  /** One entry per token, in order. */
  function EntriesOf(ts: seq<Token>): (d: seq<(string, JsonObject)>)
    ensures |d| == |ts|
    ensures forall k :: 0 <= k < |ts| ==> d[k] == ArtifactEntry(ts[k])
  {
    seq(|ts|, k requires 0 <= k < |ts| => ArtifactEntry(ts[k]))
  }

  /** For a list without repeated ids, the entries are one per token, in order. */
  lemma {:induction false} ArtifactEntriesOfDistinct(artifacts: seq<Token>)
    requires forall i, j :: 0 <= i < j < |artifacts| ==> artifacts[i].id != artifacts[j].id
    ensures ArtifactEntries(artifacts) == EntriesOf(artifacts)
    decreases |artifacts|
  {
    if |artifacts| > 0 {
      var init := artifacts[..|artifacts| - 1];
      var last := artifacts[|artifacts| - 1];
      ArtifactEntriesOfDistinct(init);
      var d := ArtifactEntries(init);
      assert forall k :: 0 <= k < |init| ==> init[k].id != last.id;
      FreshEntryKey(init, last, d);
      assert ArtifactEntries(artifacts) == d + [ArtifactEntry(last)];
      EntriesOfSnoc(artifacts);
    }
  }

  lemma EntriesOfSnoc(ts: seq<Token>)
    requires |ts| > 0
    ensures EntriesOf(ts) == EntriesOf(ts[..|ts| - 1]) + [ArtifactEntry(ts[|ts| - 1])]
  {
  }

  /** The entries of tokens whose ids all differ from `last`'s lack its key. */
  lemma FreshEntryKey(init: seq<Token>, last: Token, d: Dict<JsonObject>)
    requires |d| == |init|
    requires forall k :: 0 <= k < |d| ==> d[k] == ArtifactEntry(init[k])
    requires forall k :: 0 <= k < |init| ==> init[k].id != last.id
    ensures VariableDenominator + last.id !in Keys(d)
  {
    forall k | 0 <= k < |d|
      ensures d[k].0 != VariableDenominator + last.id
    {
      assert (VariableDenominator + init[k].id)[1..] == init[k].id;
      assert (VariableDenominator + last.id)[1..] == last.id;
    }
  }

  /** `getRuleJsonFromEditorElements` with the form-bound rule name, description
      and enabled tags as parameters. The artifact list is taken first, so an
      empty editor yields `NoContentsException` and no payload. */
  function RuleJsonFromEditor(children: seq<Token>, ruleName: string, description: string, enabledTags: seq<string>)
    : (r: Result<RuleJson, NoContentsException>)
    ensures r.Err? <==> |children| == 0
    ensures r.Err? ==> r.error == NoContentsException(NoContentsMessage)
    ensures r.Ok? ==> r.value.rule == ruleName && r.value.tags == enabledTags
    ensures r.Ok? ==> r.value.meta == [("description", description)]
  {
    var artifactElements :- EditorArtifactsAndTypes(children, true);
    Ok(RuleJson([("description", description)], ruleName, enabledTags,
                ArtifactEntries(artifactElements), ConditionString(children)))
  }

  /** The payload's artifacts: one entry per artifact id of the editor, built
      from the first token with that id (`"$" + id` to `{"artifact": text}`), in
      order of first occurrence; the condition is built from all tokens. */
  lemma PayloadArtifacts(children: seq<Token>, ruleName: string, description: string, enabledTags: seq<string>)
    requires |children| > 0
    ensures var p := RuleJsonFromEditor(children, ruleName, description, enabledTags).value;
      && p.condition == ConditionString(children)
      && |p.artifacts| == |CollectArtifacts(children, true)|
      && (forall k :: 0 <= k < |p.artifacts| ==>
            var f := FirstArtifactIndex(children, CollectArtifacts(children, true)[k].id);
            f < |children| && p.artifacts[k] == ArtifactEntry(children[f]))
      && (forall i :: 0 <= i < |children| && IsArtifact(children[i]) ==>
            VariableDenominator + children[i].id in Keys(p.artifacts))
  {
    var r := CollectArtifacts(children, true);
    CollectUniqueFirstOccurrences(children);
    CollectUniqueDistinct(children);
    ArtifactEntriesOfDistinct(r);
    var p := RuleJsonFromEditor(children, ruleName, description, enabledTags).value;
    assert p.artifacts == ArtifactEntries(r);
    forall i | 0 <= i < |children| && IsArtifact(children[i])
      ensures VariableDenominator + children[i].id in Keys(p.artifacts)
    {
      var k :| 0 <= k < |r| && r[k].id == children[i].id;
      assert p.artifacts[k].0 == VariableDenominator + children[i].id;
    }
  }

  /** Every key of the payload's artifacts occurs in its condition, followed
      by a space or the end of the condition. */
  lemma PayloadKeyInCondition(children: seq<Token>, ruleName: string, description: string, enabledTags: seq<string>, k: nat)
    returns (pos: nat)
    requires |children| > 0
    requires k < |RuleJsonFromEditor(children, ruleName, description, enabledTags).value.artifacts|
    ensures var p := RuleJsonFromEditor(children, ruleName, description, enabledTags).value;
      DelimitedAt(p.condition, p.artifacts[k].0, pos)
  {
    PayloadArtifacts(children, ruleName, description, enabledTags);
    var r := CollectArtifacts(children, true);
    var f := FirstArtifactIndex(children, r[k].id);
    pos := ArtifactVariableInCondition(children, f);
  }

  /** Two copies of one artifact: the payload lists it once, the condition twice. */
  lemma DuplicateArtifactExample(x: Token, ruleName: string, description: string, enabledTags: seq<string>)
    requires IsArtifact(x)
    ensures var r := RuleJsonFromEditor([x, x], ruleName, description, enabledTags);
      && r.Ok?
      && r.value.artifacts == [(VariableDenominator + x.id, [("artifact", x.text)])]
      && r.value.condition == VariableDenominator + x.id + " " + VariableDenominator + x.id
  {
    DuplicateCollected(x);
    SingleEntry(x);
    DuplicateCondition(x);
  }

  lemma DuplicateCollected(x: Token)
    requires IsArtifact(x)
    ensures CollectArtifacts([x, x], true) == [x]
  {
    var c := [x, x];
    assert c[..1] == [x];
    assert [x][..0] == [];
    assert CollectArtifacts([x], true) == [x];
    assert HasId([x], x.id);
  }

  lemma DuplicateCondition(x: Token)
    requires IsArtifact(x)
    ensures ConditionString([x, x]) == VariableDenominator + x.id + " " + VariableDenominator + x.id
  {
    assert [x, x][..1] == [x];
    assert [x][..0] == [];
    assert ConditionString([x]) == VariableDenominator + x.id;
  }

  lemma SingleEntry(x: Token)
    ensures ArtifactEntries([x]) == [ArtifactEntry(x)]
  {
    ArtifactEntriesOfDistinct([x]);
  }

  /** An editor holding one artifact: the payload has its single entry and the
      condition is its variable. */
  lemma SingleArtifactPayload(x: Token, ruleName: string, description: string, enabledTags: seq<string>)
    requires IsArtifact(x)
    ensures var r := RuleJsonFromEditor([x], ruleName, description, enabledTags);
      && r.Ok?
      && r.value.meta == [("description", description)]
      && r.value.rule == ruleName && r.value.tags == enabledTags
      && r.value.artifacts == [ArtifactEntry(x)]
      && r.value.condition == VariableDenominator + x.id
  {
    SingleCollected(x);
    SingleEntry(x);
    SingleCondition(x);
  }

  lemma SingleCollected(x: Token)
    requires IsArtifact(x)
    ensures CollectArtifacts([x], true) == [x]
  {
    assert [x][..0] == [];
  }

  lemma SingleCondition(x: Token)
    requires IsArtifact(x)
    ensures ConditionString([x]) == VariableDenominator + x.id
  {
    assert [x][..0] == [];
  }

  /** Keywords are lower-cased and every token after the first is preceded by
      one space. */
  lemma ConditionExample(a: Token, k: Token, b: Token)
    requires IsArtifact(a) && IsKeyword(k) && IsArtifact(b)
    ensures ConditionString([a, k, b]) ==
      VariableDenominator + a.id + " " + Lower(k.text) + " " + VariableDenominator + b.id
  {
    var c := [a, k, b];
    assert c[..2] == [a, k];
    assert c[..2][..1] == [a];
    assert [a][..0] == [];
    assert ConditionString([a]) == VariableDenominator + a.id;
    assert ConditionString([a, k]) == VariableDenominator + a.id + " " + Lower(k.text);
  }

}
