# YARA-Designer rule pipeline in Dafny

This project models the two pure pipelines of the YARA-Designer web front end.

**The designer serializer** (`static/scripts/designer.js`):
- The editor is an ordered sequence of tokens `{id, className, text}`.
- `getEditorArtifactsAndTypes` collects the artifact tokens, optionally without repeated ids. It throws `NoContentsException` on an empty editor.
- `getEditorConditionString` renders the condition: an artifact becomes `$id` and a keyword its lower-cased text, with index-based spacing.
- `getRuleJsonFromEditorElements` assembles the `{meta, rule, tags, artifacts, condition}` payload.
- Two renderers of the response modal are included: the result level and its header in `handlePostRuleResponse`, with the syntax-error mark in the source listing, and `printGitDiff`.

**The rule generator** (`yara_handling/__init__.py`):
- `is_number` and `sanitize_rulename` prepare the rule name.
- `extract_yara_strings_dict` turns the payload's artifacts into the strings table.
- `get_referenced_strings` keeps the strings that the condition references.
- `generate_source_string` lays out the YARA rule text.
- The pure prefix of `compile_from_source` chains these steps.

## How the model is laid out

| file | module | contents |
|---|---|---|
| `results.dfy` | `Results` | `Option` and `Result`; `Result` supports `:-` |
| `text.dfy` | `Text` | ASCII character classes, case mapping, `Join`, `Split`, `Flatten`, `Count` |
| `ordered_dict.dfy` | `OrderedDict` | Python dicts and JavaScript objects as insertion-ordered entry sequences with unique keys (`Dict<V>`), with `Lookup` and `Set` |
| `rule_json.dfy` | `RuleJson` | the payload record shared by both halves |
| `designer.dfy` | `Designer` | artifact collection, condition string, payload |
| `designer_view.dfy` | `DesignerView` | response level and header, source listing with the error mark, `printGitDiff` |
| `yara_variables.dfy` | `YaraVariables` | the scan `re.findall(r'\$[\w]*\b', s)` |
| `yara_handling.dfy` | `YaraHandling` | `is_number`, `sanitize_rulename`, strings extraction and pruning, the rule text layout, `compile_from_source`'s prefix |
| `pipeline.dfy` | `Pipeline` | what happens to a designed payload in the generator |

Modelling choices:
- **Unrecognised tokens are skipped.** The code logs a token of unknown kind and skips it (`designer.js:333-336`), and the model does the same. The spacing still depends on the index alone, so a skipped first token leaves a leading space (`Designer.SkippedFirstTokenLeavesSpace`). Tokens of class `condition_encapsulator` are skipped in the same way.
- **Class tests are exact.** A token is an artifact or a keyword only when its whole `className` equals an entry of the class list.
- **Exceptions are values.** An exception the modelled code raises becomes the `Err` case of a `Result`:
  - `NoContentsException` for an empty editor;
  - `IndexError` for an empty rule name;
  - `KeyError('artifact')` for an artifact object without that field.
- **The regex is characterised exactly.** The pattern `\$[\w]*\b` matches `$` followed by a maximal non-empty run of word characters. A run of length zero is never matched, because the word boundary after `$` would need a word character next. The pattern is modelled as that scan and proved equal to "every such occurrence" (`YaraVariables.FindallIsReferences`).
- **`is_number` is Python's `int()` test.** It is modelled as the check that `int(s)` succeeds: surrounding whitespace is stripped, an optional sign is allowed, and digits may have single underscores between them. For the single characters that `sanitize_rulename` passes it, this is exactly the ASCII digit test (`YaraHandling.IsNumberOfCharacter`).
- **The sanitiser keeps `\s` and `+` as written.** The substitution pattern is `[^\w\s+]`, so whitespace and `+` survive sanitising. The model does the same, so a sanitised name need not be a C identifier.
- **The diff colours are as written.** `printGitDiff` marks lines starting with `+` as `red-text` and lines starting with `-` as `green-text`. The model keeps those classes.

## Model

| member | source | states |
|---|---|---|
| Designer.EditorArtifactsAndTypes | static/scripts/designer.js:281-302 | fails with `NoContentsException("Editor had no contents")` exactly when the editor is empty; otherwise every listed token is an artifact token of the editor |
| Designer.CollectArtifacts | static/scripts/designer.js:288-299 | the collected list is no longer than the editor and holds only artifact tokens taken from it |
| Designer.CollectAllIsFilter | static/scripts/designer.js:288-298 | with `unique=false` the list is exactly the artifact tokens of the editor in editor order |
| Designer.CollectUniqueFirstOccurrences | static/scripts/designer.js:289-294 | with `unique=true` each listed token is the first artifact token with its id, tokens appear in the order of those first occurrences, and every artifact id of the editor is represented |
| Designer.CollectUniqueDistinct | static/scripts/designer.js:290-294 | with `unique=true` no two listed tokens share an id |
| Designer.ConditionStringIsJoin | static/scripts/designer.js:314-340 | the condition is the renders of the recognised tokens (`$id`, lower-cased keyword text) joined by single spaces, preceded by one space exactly when the first token is unrecognised and something is rendered later |
| Designer.ConditionOfRecognized | static/scripts/designer.js:319-332 | when every token is an artifact or keyword the condition is their renders joined by single spaces (`""` for no tokens) |
| Designer.SkippedFirstTokenLeavesSpace | static/scripts/designer.js:321-336 | an unrecognised first token adds nothing, but a later rendered token still gets its space, so the condition starts with a space |
| Designer.ConditionPrefix | static/scripts/designer.js:320-337 | the condition built from a prefix of the editor is a prefix of the full condition, and the text after it starts with a space |
| Designer.ArtifactVariableInCondition | static/scripts/designer.js:327-329 | every artifact token's `$id` occurs in the condition, followed by a space or the end |
| Designer.ArtifactEntriesOfDistinct | static/scripts/designer.js:376-380 | for a list with distinct ids the artifacts object has one entry per token, in list order, keyed `$id` with `{"artifact": text}` |
| OrderedDict.Set | static/scripts/designer.js:378-380 | assigning to a new key appends its entry; assigning to an existing key keeps the key order |
| OrderedDict.SetLookup | static/scripts/designer.js:378-380 | after the assignment the key reads back the new value and every other key keeps its value |
| Designer.RuleJsonFromEditor | static/scripts/designer.js:356-386 | an empty editor yields `NoContentsException` and no payload; otherwise `rule`, `tags` and `meta = {"description": ...}` are copied verbatim |
| Designer.PayloadArtifacts | static/scripts/designer.js:373-383 | the artifacts object has one entry per distinct artifact id, in first-occurrence order, built from the first token with that id; every artifact id of the editor is a key; the condition is built from all tokens |
| Designer.PayloadKeyInCondition | static/scripts/designer.js:375-383 | every key of the artifacts object occurs in the condition, followed by a space or the end |
| Designer.DuplicateArtifactExample | static/scripts/designer.js:290-294 | for any artifact token, an editor holding it twice gives one entry `$id` with its text, but the condition `$id $id` |
| Designer.SingleArtifactPayload | static/scripts/designer.js:356-386 | for any artifact token, an editor holding only it gives the payload with the description as meta, the rule name and tags as given, the one entry `$id` with its text, and the condition `$id` |
| Designer.ConditionExample | static/scripts/designer.js:327-332 | two artifact tokens around a keyword give `$a`, the lower-cased keyword and `$b`, separated by single spaces |
| DesignerView.ResponseLevel | static/scripts/designer.js:412-435 | the level is error exactly when generation failed, warning exactly when it succeeded without compiling, success exactly when it succeeded and compiled |
| DesignerView.HeaderTexts | static/scripts/designer.js:447 | the three headers read `<h2>YARA rule generation results: SUCCESS</h2>`, `… WARNING</h2>` and `… ERROR</h2>`: the level name is upper-cased into the fixed text |
| DesignerView.HeaderDeterminesLevel | static/scripts/designer.js:447 | two headers are equal exactly when their levels are |
| DesignerView.JsSubstring | static/scripts/designer.js:470-472 | `substring` with in-range ordered arguments is the slice between them and is never longer than the string |
| Text.Split | static/scripts/designer.js:464 | `split('\n')` gives one more piece than there are newlines, no piece holds a newline, and joining the pieces with newlines gives the text back |
| DesignerView.MarkLineInsertsMark | static/scripts/designer.js:470-479 | when `1 <= columnNumber <= columnRange <= length + 1`, the marked line is the line with `<mark class='red-bg'>` inserted before column `columnNumber - 1` and `</mark>` before column `columnRange - 1`, the text itself unchanged |
| DesignerView.MarkLineReversedRepeats | static/scripts/designer.js:470-479 | when `1 <= columnRange < columnNumber <= length + 1`, `substring` swaps its arguments, so the text between the two columns appears inside the mark and again after it |
| DesignerView.ListingKeepsUnmarkedLine | static/scripts/designer.js:466-485 | every listed line other than the reported line of a failed syntax-error response is wrapped in `<span>` verbatim |
| DesignerView.ListingMarksErrorLine | static/scripts/designer.js:466-485 | the reported line of a failed syntax-error response, when `1 <= columnNumber <= columnRange <= length + 1`, is wrapped in `<span>` with the red mark around the reported columns and its text otherwise unchanged |
| DesignerView.UnmarkedListingIsPlainDiff | static/scripts/designer.js:464-486 | without a syntax error the source listing is exactly the uncoloured diff listing of the same text |
| DesignerView.DiffSpanRoundTrip | static/scripts/designer.js:579-593 | reading a span back gives its line unchanged and, with colour, the line's mark: red for a line starting with `+`, green for one starting with `-`, none otherwise; without colour, no mark (for a line not starting with `<`) |
| DesignerView.DiffSpanNeedsEscaping | static/scripts/designer.js:579-588 | lines are not escaped: an unchanged line holding the red mark around `+` gives the same coloured span as the added line `+` |
| DesignerView.PrintGitDiff | static/scripts/designer.js:572-598 | an empty diff gives the fixed no-differences message; otherwise the numbered listing holding the spans of the `\n`-separated lines in order |
| YaraVariables.WordRun | yara_handling/__init__.py:68 | the run is all word characters and is maximal |
| YaraVariables.FindallAreVariables | yara_handling/__init__.py:68-69 | every match is `$` followed by a non-empty word |
| YaraVariables.FindallSound | yara_handling/__init__.py:68-69 | every match occurs in the text as `$` and a maximal word |
| YaraVariables.FindallComplete | yara_handling/__init__.py:68-69 | every occurrence of `$` and a maximal word in the text is among the matches |
| YaraVariables.FindallIsReferences | yara_handling/__init__.py:68-69 | a string is matched exactly when it occurs in the text as `$` and a maximal non-empty word |
| YaraVariables.FindallVariableThen | yara_handling/__init__.py:68-69 | `$` and a word followed by a non-word character or the end is matched whole, and the scan goes on after it |
| YaraVariables.FindallSkipPrefix | yara_handling/__init__.py:68-69 | text without `$` holds no match: the matches of `u + t` are those of `t` |
| YaraVariables.HyphenEndsVariable | yara_handling/__init__.py:68-69 | `$a-b` yields the single match `$a` |
| YaraHandling.IsNumberOfCharacter | yara_handling/__init__.py:14-25 | on one character `is_number` holds exactly for a digit |
| YaraHandling.SanitizeRulename | yara_handling/__init__.py:28-46 | `_` is prepended exactly when the first character is a digit; every other character is kept if it is a word character, whitespace or `+` and replaced by `_` otherwise; the result never starts with a digit |
| YaraHandling.PrefixNumber | yara_handling/__init__.py:40-41 | `_` is put in front exactly when `is_number` holds of the first character, that is, when it is a digit |
| YaraHandling.SanitizeIdempotent | yara_handling/__init__.py:40-44 | sanitising a sanitised name changes nothing |
| YaraHandling.ExtractStrings | yara_handling/__init__.py:49-55 | `KeyError('artifact')` exactly when some artifact object lacks the field; otherwise the same keys in the same order, each mapped to that object's `"artifact"` value |
| YaraHandling.FirstMatchOrderInOrder | yara_handling/__init__.py:72-75 | the kept keys are in strictly increasing order of the position where the scan first finds them |
| YaraHandling.ConfirmItems | yara_handling/__init__.py:72-75 | a key is kept exactly when it is a key of the strings table and among the matches, and it keeps its value; the keys are the matched keys without repeats, in the order they are first matched |
| YaraHandling.ReferencedStrings | yara_handling/__init__.py:58-77 | the result is a sub-map of the strings table holding exactly the keys found by the variable scan of the condition, in the order the scan first finds them, which is the order of the strings block |
| YaraHandling.ConditionOrdersStrings | yara_handling/__init__.py:68-75 | a condition referencing `$v` before `$w` keeps `$v` first even when the strings table lists `$w` first |
| YaraHandling.ReferencedStringsAreReferences | yara_handling/__init__.py:68-75 | a key is kept exactly when it is a key of the strings table and occurs in the condition as `$` and a maximal word, and it keeps its value |
| YaraHandling.ReferencedStringsSubMap | yara_handling/__init__.py:73-75 | every entry of the result is an entry of the strings table |
| YaraHandling.GenerateSource | yara_handling/__init__.py:100-136 | the rule text starts with `rule <name>` and ends with a newline and `}` |
| YaraHandling.BlockIsJoin | yara_handling/__init__.py:112-123 | a meta or strings block is its header and one `k = "v"` line per entry, in order, joined by newlines |
| YaraHandling.GenerateSourceLines | yara_handling/__init__.py:100-134 | the rule text is its lines joined by newlines: header line, `{`, meta block (a blank line when absent or empty), blank line, strings block over the referenced strings (a blank line when `strings` is absent or empty), blank line, `    condition:`, the indented condition, `}` |
| YaraHandling.SourceLinesRoundTrip | yara_handling/__init__.py:100-134 | when no field contains a newline, splitting the rule text at newlines gives back exactly those lines |
| YaraHandling.CompileSourcePrefix | yara_handling/__init__.py:293-299 | an empty rule name raises `IndexError`; otherwise a missing `"artifact"` field raises `KeyError`; otherwise the text starts with `rule ` and the sanitised name |
| Pipeline.PayloadStringsExtract | yara_handling/__init__.py:55 | a designed payload always yields its strings table, with the payload's keys and each artifact's text |
| Pipeline.PayloadKeyReferenced | yara_handling/__init__.py:68-75 | with word-character ids every key of a designed payload is matched in its condition |
| Pipeline.DesignedRuleKeepsEveryArtifact | yara_handling/__init__.py:293-299 | for a non-empty editor, a non-empty rule name and word-character ids, rule generation succeeds and the referenced strings are exactly the payload's artifacts, each with its text |
| Pipeline.NonWordIdIsPruned | yara_handling/__init__.py:68-75 | an artifact id with `-` is keyed `$a-b`, but the condition `$a-b` references only `$a`, so no string is kept |

## Left out

- The DOM, dragula drag-and-drop, click wiring, `makeClone`, `clearEditorDivContents` and the CSS lookups are left out. The editor is a plain token sequence, and an element's text is the token's `text` field.
- The form-bound inputs are parameters: the rule name, the description and the enabled tags (`getEnabledTags`).
- The XHR transport, JSON encoding and decoding, modals, `postRule`, `postCommit`, `handlePostCommitResponse` and `printGitLogEntry` are left out.
- In `handlePostRuleResponse`, only the level, the header and the source listing are modelled. The compile icon, the error-message paragraph, the commit button, the raw JSON block and the button bindings are not.
- `parseInt` on the positional error fields is modelled as already yielding integers. Its `NaN` result for a missing or non-numeric field is not modelled.
- `String(sourcePreprocessed)` on a missing source (`"undefined"`) is not modelled. The source is a string.
- HTML is plain text here: nothing is escaped or interpreted.
- `yara.compile`, `save_compiled`, `save_source`, `load_file`, `match_to_dict`, `compiled_rules_to_source_string` and `CALLBACK_DICTS` are left out. They are calls into the yara library, file I/O or global state. `CompileSourcePrefix` stops at the generated text, and the debug `print` is omitted.
- Character classes are ASCII:
  - Python `\w`, `\s` and `int()` on non-ASCII digits are not modelled;
  - JavaScript `toLowerCase` and `toUpperCase` are not modelled on non-ASCII text.
- The rule name and the description come from jQuery `.data()` (`designer.js:358-364`). `.data()` turns attribute text such as `true`, `false`, `null`, a number or JSON into a JSON value, and `JSON.stringify` drops a missing one. The model takes both as strings. It therefore does not model:
  - a non-string description printed through `str` (`True`, a number) at `__init__.py:116`;
  - a missing description giving an empty meta dict, and so no meta block (`__init__.py:113`);
  - the `TypeError` that `rule_name[0]` raises on a numeric rule name.
- In `compile_from_source`, a missing top-level key of the incoming dict (`rule`, `tags`, `meta`, `artifacts`, `condition`) is not modelled. The payload record always has all of them.
- DesignerView.DiffSpanRoundTrip: holds only for a line that does not start with `<`. The source does not escape the line, so a line made of markup can read back as a different line (`DesignerView.DiffSpanNeedsEscaping`).
- DesignerView.JsSubstring: JavaScript `substring` and `length` count UTF-16 code units, while the model counts characters (Unicode scalar values). For text outside the Basic Multilingual Plane the reported columns, and so the marked text of `DesignerView.MarkLine`, can differ.
- YaraHandling.GenerateSource: the contract states only the first-line prefix and the closing brace. The full layout is stated by `YaraHandling.GenerateSourceLines` and `YaraHandling.SourceLinesRoundTrip`.
- YaraHandling.CompileSourcePrefix: the success case states only the leading `rule <name>`. What reaches the strings block is stated by `Pipeline.DesignedRuleKeepsEveryArtifact`.
