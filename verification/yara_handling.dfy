/** The rule generator of `yara_handling`: the rule-name sanitiser, the strings
    table taken from the designer's artifacts, the pruning of strings the
    condition does not reference, the layout of the rule text and the pure
    assembly step of `compile_from_source` that chains them. Character
    classes are the ASCII ones of `Text`. */
module YaraHandling {
  import opened Results
  import opened Text
  import opened OrderedDict
  import opened RuleJson
  import opened YaraVariables

  /** The Python exceptions the modelled code raises: `IndexError` for
      `rule_name[0]` on an empty name, `KeyError` for a missing dict key. */
  datatype PyError = IndexError | KeyError(key: string)

  /* ---------------------------------------------------------------- is_number */

  /** `s` without its leading whitespace. */
  function TrimStart(s: string): (r: string)
    ensures |r| <= |s| && r == s[|s| - |r|..]
    ensures |r| > 0 ==> !IsSpace(r[0])
    ensures forall i :: 0 <= i < |s| - |r| ==> IsSpace(s[i])
    decreases |s|
  {
    if |s| > 0 && IsSpace(s[0]) then TrimStart(s[1..]) else s
  }

  /** `s` without its trailing whitespace. */
  function TrimEnd(s: string): (r: string)
    ensures |r| <= |s| && r == s[..|r|]
    ensures |r| > 0 ==> !IsSpace(r[|r| - 1])
    ensures forall i :: |r| <= i < |s| ==> IsSpace(s[i])
    decreases |s|
  {
    if |s| > 0 && IsSpace(s[|s| - 1]) then TrimEnd(s[..|s| - 1]) else s
  }

  /** Digits, with single underscores allowed between two digits. */
  predicate IsDigitGroups(u: string) {
    && |u| > 0 && IsDigit(u[0]) && IsDigit(u[|u| - 1])
    && forall i :: 0 < i < |u| - 1 ==> IsDigit(u[i]) || (u[i] == '_' && IsDigit(u[i - 1]) && IsDigit(u[i + 1]))
  }

  /** A base-10 integer literal with an optional sign. */
  predicate IsDecimalLiteral(t: string) {
    |t| > 0 && if t[0] == '+' || t[0] == '-' then IsDigitGroups(t[1..]) else IsDigitGroups(t)
  }

  /** `is_number`: whether `int(s)` succeeds, that is, whether `s` is a
      decimal literal once surrounding whitespace is stripped. */
  predicate IsNumber(s: string) {
    IsDecimalLiteral(TrimEnd(TrimStart(s)))
  }

  /** On one character, as `sanitize_rulename` uses it, `is_number` is the
      digit test: a lone sign, underscore or whitespace is not a number. */
  lemma IsNumberOfCharacter(c: char)
    ensures IsNumber([c]) <==> IsDigit(c)
  {
    if IsSpace(c) {
      assert TrimStart([c]) == [];
    } else {
      assert TrimStart([c]) == [c];
      assert TrimEnd([c]) == [c];
      if c == '+' || c == '-' {
        assert [c][1..] == [];
      }
    }
  }

  /* -------------------------------------------------------- sanitize_rulename */

  /** The characters the substitution `[^\w\s+]` leaves alone. */
  predicate IsKept(c: char) {
    IsWordChar(c) || IsSpace(c) || c == '+'
  }

  function KeepOrReplace(c: char): char {
    if IsKept(c) then c else '_'
  }

  /** `sanitize_rulename`: `_` is put in front of a leading digit, then every
      character outside `[\w\s+]` becomes `_`. Whitespace and `+` survive. The
      caller guarantees a non-empty name (`rule_name[0]` is read first). */
  function SanitizeRulename(name: string): (r: string)
    requires |name| > 0
    ensures |r| == |name| + (if IsDigit(name[0]) then 1 else 0)
    ensures IsDigit(name[0]) ==> r[0] == '_' && forall i :: 0 <= i < |name| ==> r[i + 1] == KeepOrReplace(name[i])
    ensures !IsDigit(name[0]) ==> forall i :: 0 <= i < |name| ==> r[i] == KeepOrReplace(name[i])
    ensures !IsDigit(r[0])
    ensures forall i :: 0 <= i < |r| ==> IsKept(r[i])
  {
    ReplaceOthers(PrefixNumber(name))
  }

  /** The first step: `_` in front when the first character is a number. */
  function PrefixNumber(name: string): (named: string)
    requires |name| > 0
    ensures named == if IsDigit(name[0]) then "_" + name else name
  {
    IsNumberOfCharacter(name[0]);
    if IsNumber([name[0]]) then "_" + name else name
  }

  /** The substitution `re.sub(r'[^\w\s+]', '_', s)`. */
  function ReplaceOthers(s: string): (r: string)
    ensures |r| == |s|
    ensures forall i :: 0 <= i < |s| ==> r[i] == KeepOrReplace(s[i])
  {
    seq(|s|, i requires 0 <= i < |s| => KeepOrReplace(s[i]))
  }

  /** Sanitising a sanitised name changes nothing. */
  lemma SanitizeIdempotent(name: string)
    requires |name| > 0
    ensures SanitizeRulename(SanitizeRulename(name)) == SanitizeRulename(name)
  {
    var r := SanitizeRulename(name);
    var rr := SanitizeRulename(r);
    assert |rr| == |r|;
    assert forall i :: 0 <= i < |r| ==> rr[i] == r[i];
  }

  /* ------------------------------------------------ extract_yara_strings_dict */

  const ArtifactField := "artifact"

  /** The artifact object `o` holds the string `text`. */
  predicate HoldsString(o: JsonObject, text: string) {
    Lookup(o, ArtifactField) == Some(text)
  }

  /** `extract_yara_strings_dict`: each artifact object is replaced by its
      `"artifact"` field; a missing field raises `KeyError`. */
  function ExtractStrings(artifacts: Dict<JsonObject>): (r: Result<Dict<string>, PyError>)
    ensures r.Err? <==> exists i :: 0 <= i < |artifacts| && ArtifactField !in Keys(artifacts[i].1)
    ensures r.Err? ==> r.error == KeyError(ArtifactField)
    ensures r.Ok? ==> Keys(r.value) == Keys(artifacts)
    ensures r.Ok? ==> forall i :: 0 <= i < |artifacts| ==> HoldsString(artifacts[i].1, r.value[i].1)
    decreases |artifacts|
  {
    if |artifacts| == 0 then
      var none: Dict<string> := [];
      Ok(none)
    else
      match Lookup(artifacts[0].1, ArtifactField)
      case None => Err(KeyError(ArtifactField))
      case Some(v) =>
        var rest :- ExtractStrings(artifacts[1..]);
        ExtractCons(artifacts, v, rest);
        var d: Dict<string> := [(artifacts[0].0, v)] + rest;
        Ok(d)
  }

  /** The first artifact's string in front of the rest keeps the keys and
      their uniqueness. */
  lemma ExtractCons(artifacts: Dict<JsonObject>, v: string, rest: Dict<string>)
    requires |artifacts| > 0 && Lookup(artifacts[0].1, ArtifactField) == Some(v)
    requires Keys(rest) == Keys(artifacts[1..])
    requires forall i :: 0 <= i < |artifacts| - 1 ==> HoldsString(artifacts[1..][i].1, rest[i].1)
    ensures var r := [(artifacts[0].0, v)] + rest;
      && Keys(r) == Keys(artifacts) && UniqueKeys(r)
      && forall i :: 0 <= i < |artifacts| ==> HoldsString(artifacts[i].1, r[i].1)
  {
    var r := [(artifacts[0].0, v)] + rest;
    KeysTail(artifacts);
    KeysTail(r);
    assert r[1..] == rest;
    UniqueByKeys(r, artifacts);
    ExtractConsFields(artifacts, v, rest);
  }

  /** ... and the field of every artifact. */
  lemma ExtractConsFields(artifacts: Dict<JsonObject>, v: string, rest: Dict<string>)
    requires |artifacts| > 0 && Lookup(artifacts[0].1, ArtifactField) == Some(v)
    requires |rest| == |artifacts| - 1
    requires forall i :: 0 <= i < |artifacts| - 1 ==> HoldsString(artifacts[1..][i].1, rest[i].1)
    ensures forall i :: 0 <= i < |artifacts| ==> HoldsString(artifacts[i].1, ([(artifacts[0].0, v)] + rest)[i].1)
  {
    var r := [(artifacts[0].0, v)] + rest;
    var tail := artifacts[1..];
    assert r[0].1 == v;
    forall i | 0 < i < |artifacts|
      ensures HoldsString(artifacts[i].1, r[i].1)
    {
      var j := i - 1;
      assert tail[j] == artifacts[i] && r[i] == rest[j];
    }
  }

  /* --------------------------------------------------- get_referenced_strings */

  /** Reference order: the matches that are among `keys`, each kept at its
      first occurrence. */
  function FirstMatchOrder(matches: seq<string>, keys: seq<string>): (r: seq<string>)
    ensures forall k :: k in r <==> k in keys && k in matches
    decreases |matches|
  {
    if |matches| == 0 then []
    else
      var init := FirstMatchOrder(matches[..|matches| - 1], keys);
      var m := matches[|matches| - 1];
      assert matches == matches[..|matches| - 1] + [m];
      if m in keys && m !in init then init + [m] else init
  }

  /** Position of the first occurrence of `x` in `xs`, or `|xs|` when it
      does not occur. */
  function FirstIndex(xs: seq<string>, x: string): (i: nat)
    ensures i <= |xs|
    ensures i < |xs| <==> x in xs
    ensures i < |xs| ==> xs[i] == x
    decreases |xs|
  {
    if |xs| == 0 then 0
    else
      var init := xs[..|xs| - 1];
      var p := FirstIndex(init, x);
      assert xs == init + [xs[|xs| - 1]];
      if p < |init| then p else if xs[|xs| - 1] == x then |init| else |xs|
  }

  /** The kept keys are ordered by where the scan first finds them. */
  lemma {:induction false} FirstMatchOrderInOrder(matches: seq<string>, keys: seq<string>, i: nat, j: nat)
    requires i < j < |FirstMatchOrder(matches, keys)|
    ensures var r := FirstMatchOrder(matches, keys);
      FirstIndex(matches, r[i]) < FirstIndex(matches, r[j])
    decreases |matches|
  {
    var init := matches[..|matches| - 1];
    var m := matches[|matches| - 1];
    var before := FirstMatchOrder(init, keys);
    var r := FirstMatchOrder(matches, keys);
    assert matches == init + [m];
    if j < |before| {
      assert r[i] == before[i] && r[j] == before[j];
      FirstMatchOrderInOrder(init, keys, i, j);
    } else {
      assert r == before + [m] && r[j] == m && r[i] == before[i];
      assert m !in init;
    }
  }

  /** The loop of `get_referenced_strings`: each match that is a key of
      `strings` is copied over, in the order the keys are first matched. */
  function ConfirmItems(matches: seq<string>, strings: Dict<string>): (r: Dict<string>)
    ensures forall k :: k in Keys(r) <==> k in Keys(strings) && k in matches
    ensures forall k :: k in Keys(r) ==> Lookup(r, k) == Lookup(strings, k)
    ensures Keys(r) == FirstMatchOrder(matches, Keys(strings))
    decreases |matches|
  {
    if |matches| == 0 then []
    else
      var init := matches[..|matches| - 1];
      var acc := ConfirmItems(init, strings);
      var m := matches[|matches| - 1];
      assert matches == init + [m];
      match Lookup(strings, m)
      case None =>
        ConfirmSkip(init, m, strings, acc);
        acc
      case Some(v) =>
        ConfirmStep(init, m, strings, acc, v);
        Set(acc, m, v)
  }

  /** A match that is not a key is passed over. */
  lemma ConfirmSkip(init: seq<string>, m: string, strings: Dict<string>, acc: Dict<string>)
    requires Lookup(strings, m).None?
    requires forall k :: k in Keys(acc) <==> k in Keys(strings) && k in init
    requires Keys(acc) == FirstMatchOrder(init, Keys(strings))
    ensures forall k :: k in Keys(acc) <==> k in Keys(strings) && k in init + [m]
    ensures Keys(acc) == FirstMatchOrder(init + [m], Keys(strings))
  {
    var matches := init + [m];
    assert matches[..|matches| - 1] == init;
  }

  /** Copying one more matched key keeps the loop's promises. */
  lemma ConfirmStep(init: seq<string>, m: string, strings: Dict<string>, acc: Dict<string>, v: string)
    requires Lookup(strings, m) == Some(v)
    requires forall k :: k in Keys(acc) <==> k in Keys(strings) && k in init
    requires forall k :: k in Keys(acc) ==> Lookup(acc, k) == Lookup(strings, k)
    requires Keys(acc) == FirstMatchOrder(init, Keys(strings))
    ensures var r := Set(acc, m, v);
      && (forall k :: k in Keys(r) <==> k in Keys(strings) && k in init + [m])
      && (forall k :: k in Keys(r) ==> Lookup(r, k) == Lookup(strings, k))
      && Keys(r) == FirstMatchOrder(init + [m], Keys(strings))
  {
    var matches := init + [m];
    assert matches[..|matches| - 1] == init;
    forall k ensures Lookup(Set(acc, m, v), k) == if k == m then Some(v) else Lookup(acc, k) {
      SetLookup(acc, m, v, k);
    }
  }

  /** `get_referenced_strings`: the entries of `strings` whose key the
      condition references as a variable. */
  function ReferencedStrings(condition: string, strings: Dict<string>): (r: Dict<string>)
    ensures forall k :: k in Keys(r) <==> k in Keys(strings) && k in Findall(condition)
    ensures forall k :: k in Keys(r) ==> Lookup(r, k) == Lookup(strings, k)
    ensures Keys(r) == FirstMatchOrder(Findall(condition), Keys(strings))
  {
    ConfirmItems(Findall(condition), strings)
  }

  /** The strings follow the condition's order, not the table's: with `$v`
      referenced before `$w`, a table listing `$w` first still yields `$v`
      first. */
  lemma ConditionOrdersStrings(v: string, mid: string, w: string, x: string, y: string)
    requires IsWord(v) && IsWord(w) && v != w
    requires '$' !in mid && |mid| > 0 && !IsWordChar(mid[0])
    ensures var strings := [("$" + w, x), ("$" + v, y)];
      UniqueKeys(strings) && Keys(ReferencedStrings("$" + v + (mid + ("$" + w)), strings)) == ["$" + v, "$" + w]
  {
    var kv, kw := "$" + v, "$" + w;
    assert kv != kw by {
      assert kv[1..] == v && kw[1..] == w;
    }
    var strings: Dict<string> := [(kw, x), (kv, y)];
    TwoVariablesScan(v, mid, w);
    assert Keys(strings) == [kw, kv];
    assert [kv, kw][..1] == [kv];
    assert [kv][..0] == [];
    assert FirstMatchOrder([kv], [kw, kv]) == [kv];
  }

  /** Two variables with a separator free of `$` between them. */
  lemma TwoVariablesScan(v: string, mid: string, w: string)
    requires IsWord(v) && IsWord(w)
    requires '$' !in mid && |mid| > 0 && !IsWordChar(mid[0])
    ensures Findall("$" + v + (mid + ("$" + w))) == ["$" + v, "$" + w]
  {
    var tail := "$" + w;
    var rest := mid + tail;
    FindallVariableThen(w, "");
    assert "$" + w + "" == tail;
    assert Findall("") == [];
    FindallSkipPrefix(mid, tail);
    assert rest[0] == mid[0];
    FindallVariableThen(v, rest);
  }

  /** A key survives exactly when the condition references it as `$` and a
      maximal word, and it keeps its value. */
  lemma ReferencedStringsAreReferences(condition: string, strings: Dict<string>, k: string)
    ensures k in Keys(ReferencedStrings(condition, strings)) <==> k in Keys(strings) && Referenced(condition, k)
    ensures k in Keys(ReferencedStrings(condition, strings)) ==>
      Lookup(ReferencedStrings(condition, strings), k) == Lookup(strings, k)
  {
    FindallIsReferences(condition, k);
  }

  /** Every entry of the result is an entry of `strings`. */
  lemma ReferencedStringsSubMap(condition: string, strings: Dict<string>, i: nat)
    requires i < |ReferencedStrings(condition, strings)|
    ensures ReferencedStrings(condition, strings)[i] in strings
  {
    var r := ReferencedStrings(condition, strings);
    LookupEntry(r, i);
    assert Lookup(strings, r[i].0) == Some(r[i].1);
  }

  /* --------------------------------------------------- generate_source_string */

  /** The `src` dict of `generate_source_string`; `None` is a key that is
      absent from it. */
  datatype SourceSpec = SourceSpec(
    rule: string,
    tags: Option<seq<string>>,
    meta: Option<Dict<string>>,
    strings: Option<Dict<string>>,
    condition: string)

  const Indent := "        "
  const MetaHeader := "    meta:"
  const StringsHeader := "    strings:"
  const ConditionHeader := "    condition:"

  /** One `k = "v"` line of a meta or strings block. */
  function Assignment(e: (string, string)): string {
    Indent + e.0 + " = \"" + e.1 + "\""
  }

  function Assignments(d: seq<(string, string)>): (lines: seq<string>)
    ensures |lines| == |d|
    ensures forall i :: 0 <= i < |d| ==> lines[i] == Assignment(d[i])
  {
    seq(|d|, i requires 0 <= i < |d| => Assignment(d[i]))
  }

  /** The block loop: the header, then a newline and an assignment per
      entry. */
  function Block(header: string, d: seq<(string, string)>): string
    decreases |d|
  {
    if |d| == 0 then header else Block(header, d[..|d| - 1]) + "\n" + Assignment(d[|d| - 1])
  }

  /** The header line: `rule <name>`, and `: <tags>` when tags are given and
      there is at least one. */
  function IdentifierLine(src: SourceSpec): string {
    "rule " + src.rule + if src.tags.Some? && |src.tags.value| > 0 then ": " + Join(" ", src.tags.value) else ""
  }

  predicate HasMeta(src: SourceSpec) {
    src.meta.Some? && |src.meta.value| > 0
  }

  predicate HasStrings(src: SourceSpec) {
    src.strings.Some? && |src.strings.value| > 0
  }

  function MetaBlock(src: SourceSpec): string {
    if HasMeta(src) then Block(MetaHeader, src.meta.value) else ""
  }

  /** The strings block prints only the referenced strings, but its header
      depends on `strings` itself being non-empty. */
  function StringsBlock(src: SourceSpec): string {
    if HasStrings(src) then Block(StringsHeader, ReferencedStrings(src.condition, src.strings.value)) else ""
  }

  /** `generate_source_string`. */
  function GenerateSource(src: SourceSpec): (text: string)
    ensures |text| >= 5 + |src.rule| && text[..5 + |src.rule|] == "rule " + src.rule
    ensures |text| >= 2 && text[|text| - 2..] == "\n}"
  {
    var head := IdentifierLine(src);
    var body := RuleBody(src);
    assert head[..5 + |src.rule|] == "rule " + src.rule;
    PrefixKept(head, body, 5 + |src.rule|);
    SuffixKept(head, body, 2);
    head + body
  }

  /** Everything after the header line, up to the closing brace. */
  function RuleBody(src: SourceSpec): (body: string)
    ensures |body| >= 2 && body[|body| - 2..] == "\n}"
  {
    var upper := "\n" + "{" + "\n" + MetaBlock(src) + "\n" + "\n" + StringsBlock(src) + "\n"
                 + "\n" + ConditionHeader + "\n" + Indent + src.condition;
    assert (upper + "\n" + "}")[|upper|..] == "\n}";
    upper + "\n" + "}"
  }

  /** Appending text keeps a prefix. */
  lemma PrefixKept(a: string, b: string, m: nat)
    requires m <= |a|
    ensures (a + b)[..m] == a[..m]
  {
  }

  /** Prepending text keeps a suffix. */
  lemma SuffixKept(a: string, b: string, m: nat)
    requires m <= |b|
    ensures (a + b)[|a + b| - m..] == b[|b| - m..]
  {
  }

  /** The meta lines: a blank line when there is no meta, else the header and
      one assignment per entry in order. */
  function MetaLines(src: SourceSpec): (lines: seq<string>)
    ensures |lines| >= 1
  {
    if HasMeta(src) then [MetaHeader] + Assignments(src.meta.value) else [""]
  }

  /** The strings lines: a blank line when `strings` is absent or empty, else
      the header and one assignment per referenced string. */
  function StringsLines(src: SourceSpec): (lines: seq<string>)
    ensures |lines| >= 1
  {
    if HasStrings(src) then [StringsHeader] + Assignments(ReferencedStrings(src.condition, src.strings.value)) else [""]
  }

  /** The rule text line by line: header, `{`, the meta block, a blank line,
      the strings block, a blank line, the condition block and `}`. */
  function SourceLines(src: SourceSpec): seq<string> {
    [IdentifierLine(src), "{"] + MetaLines(src) + [""] + StringsLines(src)
      + ["", ConditionHeader, Indent + src.condition, "}"]
  }

  /** The block loop lays its lines out one per line. */
  lemma {:induction false} BlockIsJoin(header: string, d: seq<(string, string)>)
    ensures Block(header, d) == Join("\n", [header] + Assignments(d))
    decreases |d|
  {
    if |d| > 0 {
      var init := d[..|d| - 1];
      BlockIsJoin(header, init);
      var parts := [header] + Assignments(d);
      assert parts[..|parts| - 1] == [header] + Assignments(init);
    }
  }

  lemma MetaLinesJoin(src: SourceSpec)
    ensures Join("\n", MetaLines(src)) == MetaBlock(src)
  {
    if HasMeta(src) {
      BlockIsJoin(MetaHeader, src.meta.value);
    }
  }

  lemma StringsLinesJoin(src: SourceSpec)
    ensures Join("\n", StringsLines(src)) == StringsBlock(src)
  {
    if HasStrings(src) {
      BlockIsJoin(StringsHeader, ReferencedStrings(src.condition, src.strings.value));
    }
  }

  /** The condition block, after the blank line before it, as lines. */
  lemma ConditionLinesJoin(condition: string)
    ensures Join("\n", ["", ConditionHeader, Indent + condition, "}"])
         == "" + "\n" + ConditionHeader + "\n" + (Indent + condition) + "\n" + "}"
  {
    var c1, c2, c3 := [""], ["", ConditionHeader], ["", ConditionHeader, Indent + condition];
    var c := ["", ConditionHeader, Indent + condition, "}"];
    assert c2[..1] == c1;
    assert Join("\n", c2) == "" + "\n" + ConditionHeader;
    assert c3[..2] == c2;
    assert Join("\n", c3) == Join("\n", c2) + "\n" + (Indent + condition);
    assert c[..3] == c3;
    assert Join("\n", c) == Join("\n", c3) + "\n" + "}";
  }

  /** The rule text is its lines joined by newlines. */
  lemma {:induction false} GenerateSourceLines(src: SourceSpec)
    ensures GenerateSource(src) == Join("\n", SourceLines(src))
  {
    var id, meta, strs := IdentifierLine(src), MetaBlock(src), StringsBlock(src);
    var a := [id, "{"];
    var m := MetaLines(src);
    var s := StringsLines(src);
    var c := ["", ConditionHeader, Indent + src.condition, "}"];
    MetaLinesJoin(src);
    StringsLinesJoin(src);
    ConditionLinesJoin(src.condition);
    assert a[..1] == [id];
    assert Join("\n", a[..1]) == id;
    var ja, jc := Join("\n", a), Join("\n", c);
    assert ja == id + "\n" + "{";
    JoinAppend("\n", a, m);
    var am := a + m;
    var jam := Join("\n", am);
    assert jam == ja + "\n" + meta;
    JoinAppend("\n", am, [""]);
    var amb := am + [""];
    var jamb := Join("\n", amb);
    assert jamb == jam + "\n" + "";
    JoinAppend("\n", amb, s);
    var ambs := amb + s;
    var jambs := Join("\n", ambs);
    assert jambs == jamb + "\n" + strs;
    JoinAppend("\n", ambs, c);
    assert Join("\n", ambs + c) == jambs + "\n" + jc;
    assert SourceLines(src) == ambs + c;
    LayoutShape(id, meta, strs, src.condition);
  }

  /** The rule text regrouped as the joins of its line groups. */
  lemma LayoutShape(id: string, meta: string, strs: string, condition: string)
    ensures id + ("\n" + "{" + "\n" + meta + "\n" + "\n" + strs + "\n" + "\n" + ConditionHeader + "\n" + Indent + condition + "\n" + "}")
         == ((((id + "\n" + "{") + "\n" + meta) + "\n" + "") + "\n" + strs) + "\n"
            + ("" + "\n" + ConditionHeader + "\n" + (Indent + condition) + "\n" + "}")
  {
  }

  /** No field of `src` spans lines. */
  predicate SingleLine(src: SourceSpec) {
    && '\n' !in src.rule && '\n' !in src.condition
    && (src.tags.Some? ==> forall i :: 0 <= i < |src.tags.value| ==> '\n' !in src.tags.value[i])
    && (src.meta.Some? ==> forall i :: 0 <= i < |src.meta.value| ==> '\n' !in src.meta.value[i].0 && '\n' !in src.meta.value[i].1)
    && (src.strings.Some? ==> forall i :: 0 <= i < |src.strings.value| ==> '\n' !in src.strings.value[i].0 && '\n' !in src.strings.value[i].1)
  }

  /** No line of `lines` contains a newline. */
  predicate NoLineBreaks(lines: seq<string>) {
    forall k :: 0 <= k < |lines| ==> '\n' !in lines[k]
  }

  lemma NoLineBreaksAppend(a: seq<string>, b: seq<string>)
    requires NoLineBreaks(a) && NoLineBreaks(b)
    ensures NoLineBreaks(a + b)
  {
  }

  lemma AssignmentsSingleLine(d: seq<(string, string)>)
    requires forall i :: 0 <= i < |d| ==> '\n' !in d[i].0 && '\n' !in d[i].1
    ensures NoLineBreaks(Assignments(d))
  {
  }

  lemma IdentifierLineSingle(src: SourceSpec)
    requires SingleLine(src)
    ensures '\n' !in IdentifierLine(src)
  {
    if src.tags.Some? && |src.tags.value| > 0 {
      JoinAvoids(" ", src.tags.value, '\n');
    }
  }

  lemma MetaLinesSingle(src: SourceSpec)
    requires SingleLine(src)
    ensures NoLineBreaks(MetaLines(src))
  {
    if HasMeta(src) {
      AssignmentsSingleLine(src.meta.value);
      NoLineBreaksAppend([MetaHeader], Assignments(src.meta.value));
    }
  }

  lemma StringsLinesSingle(src: SourceSpec)
    requires SingleLine(src)
    ensures NoLineBreaks(StringsLines(src))
  {
    if HasStrings(src) {
      var r := ReferencedStrings(src.condition, src.strings.value);
      forall i | 0 <= i < |r|
        ensures '\n' !in r[i].0 && '\n' !in r[i].1
      {
        ReferencedStringsSubMap(src.condition, src.strings.value, i);
      }
      AssignmentsSingleLine(r);
      NoLineBreaksAppend([StringsHeader], Assignments(r));
    }
  }

  /** When no field spans lines, splitting the rule text at newlines gives
      back exactly its lines, so its layout can be read off `SourceLines`. */
  lemma SourceLinesRoundTrip(src: SourceSpec)
    requires SingleLine(src)
    ensures Split(GenerateSource(src), '\n') == SourceLines(src)
  {
    GenerateSourceLines(src);
    SourceLinesSingle(src);
    SplitJoin(SourceLines(src), '\n');
  }

  /** No line of the layout holds a line break. */
  lemma SourceLinesSingle(src: SourceSpec)
    requires SingleLine(src)
    ensures NoLineBreaks(SourceLines(src))
  {
    IdentifierLineSingle(src);
    MetaLinesSingle(src);
    StringsLinesSingle(src);
    LayoutSingle(IdentifierLine(src), MetaLines(src), StringsLines(src), src.condition);
  }

  /** The layout of single lines around single-line blocks has single lines. */
  lemma LayoutSingle(id: string, meta: seq<string>, strs: seq<string>, condition: string)
    requires '\n' !in id && '\n' !in condition
    requires NoLineBreaks(meta) && NoLineBreaks(strs)
    ensures NoLineBreaks([id, "{"] + meta + [""] + strs + ["", ConditionHeader, Indent + condition, "}"])
  {
    var head := [id, "{"];
    var tail := ["", ConditionHeader, Indent + condition, "}"];
    assert NoLineBreaks(head);
    assert NoLineBreaks(tail);
    var hm := head + meta;
    NoLineBreaksAppend(head, meta);
    var hmb := hm + [""];
    NoLineBreaksAppend(hm, [""]);
    var hmbs := hmb + strs;
    NoLineBreaksAppend(hmb, strs);
    NoLineBreaksAppend(hmbs, tail);
  }

  /* ------------------------------------------------------ compile_from_source */

  /** The pure prefix of `compile_from_source`, up to the generated text: the
      rule name is sanitised (an empty name raises `IndexError`), the artifacts
      become the strings table (a missing `"artifact"` field raises
      `KeyError`), and the rule text is laid out with the tags, a copy of the
      meta dict and the condition. */
  function CompileSourcePrefix(payload: RuleJson): (r: Result<string, PyError>)
    ensures |payload.rule| == 0 ==> r == Err(IndexError)
    ensures |payload.rule| > 0 ==> (r.Err? <==> ExtractStrings(payload.artifacts).Err?)
    ensures |payload.rule| > 0 && r.Err? ==> r.error == KeyError(ArtifactField)
    ensures r.Ok? ==> var name := SanitizeRulename(payload.rule);
      |r.value| >= 5 + |name| && r.value[..5 + |name|] == "rule " + name
  {
    if |payload.rule| == 0 then Err(IndexError)
    else
      var ruleName := SanitizeRulename(payload.rule);
      var strings :- ExtractStrings(payload.artifacts);
      Ok(GenerateSource(CompileSpec(payload, ruleName, strings)))
  }

  /** The `src` dict that `compile_from_source` hands to the layout. */
  function CompileSpec(payload: RuleJson, ruleName: string, strings: Dict<string>): SourceSpec {
    SourceSpec(ruleName, Some(payload.tags), Some(payload.meta), Some(strings), payload.condition)
  }
}
