/** The designer script's rendering of a rule-generation response: the result
    level and its header, the numbered source listing with the syntax-error
    mark, and the commit diff listing. Markup is plain text here; nothing is
    escaped or interpreted. */
module DesignerView {
  import opened Text
  import opened Results

  /** The `level` of a response modal. */
  datatype Level = Success | Warning | Error

  function LevelName(l: Level): string {
    match l
    case Success => "success"
    case Warning => "warning"
    case Error => "error"
  }

  /** The `error` object of a failed response, after `parseInt` of its
      positional fields. */
  datatype ErrorReport = ErrorReport(kind: string, message: string, lineNumber: int, columnNumber: int, columnRange: int)

  /** The `out` object of a rule response; `error` is read only when
      `success` is false. */
  datatype RuleResponse = RuleResponse(compilable: bool, success: bool, source: string, error: ErrorReport)

  /** `level` starts as success, is lowered to warning when the rule does not
      compile and to error when generation failed; failure wins. */
  function ResponseLevel(compilable: bool, success: bool): (l: Level)
    ensures l == Error <==> !success
    ensures l == Warning <==> success && !compilable
    ensures l == Success <==> success && compilable
  {
    var level := if !compilable then Warning else Success;
    if !success then Error else level
  }

  const HeaderOpen := "<h2>YARA rule generation results: "
  const HeaderClose := "</h2>"

  /** The modal header: the level's name in upper case between fixed tags. */
  function Header(l: Level): (h: string)
    ensures |h| == |HeaderOpen| + |LevelName(l)| + |HeaderClose|
    ensures h[..|HeaderOpen|] == HeaderOpen
    ensures h[|h| - |HeaderClose|..] == HeaderClose
    ensures h[|HeaderOpen|..|h| - |HeaderClose|] == Upper(LevelName(l))
  {
    HeaderOpen + Upper(LevelName(l)) + HeaderClose
  }

  /** The three headers as the modal shows them. */
  lemma HeaderTexts()
    ensures Header(Success) == HeaderOpen + "SUCCESS" + HeaderClose
    ensures Header(Warning) == HeaderOpen + "WARNING" + HeaderClose
    ensures Header(Error) == HeaderOpen + "ERROR" + HeaderClose
  {
    UpperOf("success", "SUCCESS");
    UpperOf("warning", "WARNING");
    UpperOf("error", "ERROR");
  }

  /** `t` is `s` upper-cased character by character. */
  lemma UpperOf(s: string, t: string)
    requires |s| == |t| && forall i :: 0 <= i < |s| ==> ToUpper(s[i]) == t[i]
    ensures Upper(s) == t
  {
  }

  /** Different levels give different headers, so the header tells the level. */
  lemma HeaderDeterminesLevel(a: Level, b: Level)
    ensures Header(a) == Header(b) <==> a == b
  {
    if Header(a) == Header(b) {
      var m := Header(a)[|HeaderOpen|..|Header(a)| - |HeaderClose|];
      assert Upper(LevelName(a)) == m == Upper(LevelName(b));
      assert Upper(LevelName(a))[0] == Upper(LevelName(b))[0];
    }
  }

  /** Clamping of a `substring` argument into `[0, len]`. */
  function Clamp(n: int, len: nat): (r: nat)
    ensures r <= len
    ensures 0 <= n <= len ==> r == n
    ensures n < 0 ==> r == 0
    ensures n > len ==> r == len
  {
    if n < 0 then 0 else if n > len then len else n
  }

  /** JavaScript `s.substring(start, end)`: both arguments are clamped into
      the string and swapped when the start lies past the end. */
  function JsSubstring(s: string, start: int, end: int): (r: string)
    ensures 0 <= start <= end <= |s| ==> r == s[start..end]
    ensures |r| <= |s|
  {
    var a, b := Clamp(start, |s|), Clamp(end, |s|);
    if a <= b then s[a..b] else s[b..a]
  }

  const MarkOpen := "<mark class='red-bg'>"
  const MarkClose := "</mark>"

  /** The error line with the reported columns wrapped in a red mark: the
      text up to column `columnNumber - 1`, the marked text up to column
      `columnRange - 1`, and the rest of the line. */
  function MarkLine(line: string, columnNumber: int, columnRange: int): string {
    JsSubstring(line, 0, columnNumber - 1) + MarkOpen + JsSubstring(line, columnNumber - 1, columnRange - 1)
      + MarkClose + JsSubstring(line, columnRange - 1, |line|)
  }

  /** With 1-based columns inside the line and the range not before the
      column, the mark is inserted into the unchanged line: removing it gives
      the line back. */
  lemma MarkLineInsertsMark(line: string, columnNumber: int, columnRange: int)
    requires 1 <= columnNumber <= columnRange <= |line| + 1
    ensures var a, b := columnNumber - 1, columnRange - 1;
      MarkLine(line, columnNumber, columnRange) == line[..a] + MarkOpen + line[a..b] + MarkClose + line[b..]
      && line[..a] + line[a..b] + line[b..] == line
  {
  }

  /** A range that ends before the column makes `substring` swap its
      arguments: the text between the two columns is then both inside the
      mark and repeated after it. */
  lemma MarkLineReversedRepeats(line: string, columnNumber: int, columnRange: int)
    requires 1 <= columnRange < columnNumber <= |line| + 1
    ensures var a, b := columnNumber - 1, columnRange - 1;
      MarkLine(line, columnNumber, columnRange) == line[..a] + MarkOpen + line[b..a] + MarkClose + line[b..]
  {
  }

  const ListingOpen := "<pre class='numbered_lines'>"
  const ListingClose := "</pre>"

  /** Line `i` (0-based) of the generated source is marked only for a failed
      response whose error is of type `syntax` and names line `i + 1`. */
  predicate MarksLine(r: RuleResponse, i: int) {
    !r.success && r.error.kind == "syntax" && i == r.error.lineNumber - 1
  }

  /** The listed text of source line `i`. */
  function ListedLine(r: RuleResponse, i: int, line: string): string {
    if MarksLine(r, i) then MarkLine(line, r.error.columnNumber, r.error.columnRange) else line
  }

  /** One `<span>` per source line, in order. */
  function ListingSpans(r: RuleResponse, lines: seq<string>): (spans: seq<string>)
    ensures |spans| == |lines|
  {
    seq(|lines|, i requires 0 <= i < |lines| => "<span>" + ListedLine(r, i, lines[i]) + "</span>")
  }

  /** The numbered listing of the generated source in the response modal. */
  function SourceListing(r: RuleResponse): string {
    ListingOpen + Flatten(ListingSpans(r, Split(r.source, '\n'))) + ListingClose
  }

  /** Every line except the reported one is listed verbatim. */
  lemma ListingKeepsUnmarkedLine(r: RuleResponse, lines: seq<string>, i: nat)
    requires i < |lines| && !MarksLine(r, i)
    ensures ListingSpans(r, lines)[i] == "<span>" + lines[i] + "</span>"
  {
    ListingSpanAt(r, lines, i);
  }

  /** The reported line of a syntax error, with 1-based columns inside the
      line and the range not before the column, carries the mark around the
      reported columns and otherwise keeps its text. */
  lemma ListingMarksErrorLine(r: RuleResponse, lines: seq<string>, i: nat)
    requires i < |lines| && MarksLine(r, i)
    requires 1 <= r.error.columnNumber <= r.error.columnRange <= |lines[i]| + 1
    ensures var a, b := r.error.columnNumber - 1, r.error.columnRange - 1;
      ListingSpans(r, lines)[i] == "<span>" + (lines[i][..a] + MarkOpen + lines[i][a..b] + MarkClose + lines[i][b..]) + "</span>"
  {
    ListingSpanAt(r, lines, i);
    MarkLineInsertsMark(lines[i], r.error.columnNumber, r.error.columnRange);
  }

  lemma ListingSpanAt(r: RuleResponse, lines: seq<string>, i: nat)
    requires i < |lines|
    ensures ListingSpans(r, lines)[i] == "<span>" + ListedLine(r, i, lines[i]) + "</span>"
  {
  }

  const NoDifferencesMessage := "<p>There were no differences between this and the previous commit.</p>"

  const SpanOpen := "<span>"
  const SpanClose := "</span>"
  const RedOpen := "<mark class='red-text'>"
  const GreenOpen := "<mark class='green-text'>"

  /** The end of a span: with colour the line's newline comes first. */
  function SpanEnd(color: bool): string {
    if color then "\n" + SpanClose else SpanClose
  }

  /** The span of one diff line: with colour, added lines get a red mark,
      removed lines a green one and each span ends the line with `\n`;
      without colour the line is wrapped as it is. */
  function DiffSpan(line: string, color: bool): (span: string)
    ensures color && |line| > 0 && line[0] == '+' ==> span == SpanOpen + (RedOpen + line + MarkClose) + SpanEnd(true)
    ensures color && |line| > 0 && line[0] == '-' ==> span == SpanOpen + (GreenOpen + line + MarkClose) + SpanEnd(true)
    ensures color && (|line| == 0 || line[0] !in {'+', '-'}) ==> span == SpanOpen + line + SpanEnd(true)
    ensures !color ==> span == SpanOpen + line + SpanClose
  {
    if !color then SpanOpen + line + SpanClose
    else if |line| > 0 && line[0] == '+' then SpanOpen + (RedOpen + line + MarkClose) + SpanEnd(true)
    else if |line| > 0 && line[0] == '-' then SpanOpen + (GreenOpen + line + MarkClose) + SpanEnd(true)
    else SpanOpen + line + SpanEnd(true)
  }

  /** How `printGitDiff` classifies a diff line by its first character. */
  datatype DiffMark = Added | Removed | Unchanged

  function LineMark(line: string): DiffMark {
    if |line| > 0 && line[0] == '+' then Added
    else if |line| > 0 && line[0] == '-' then Removed
    else Unchanged
  }

  /** `s` is `open`, some text and `</mark>`. */
  predicate WrappedIn(s: string, open: string) {
    |s| >= |open| + |MarkClose| && s[..|open|] == open && s[|s| - |MarkClose|..] == MarkClose
  }

  /** Reading a diff span back: the mark it carries and the line inside it,
      or `None` when it is not a span of the listing. */
  function ReadDiffSpan(span: string, color: bool): Option<(DiffMark, string)> {
    var close := SpanEnd(color);
    if |span| < |SpanOpen| + |close| || span[..|SpanOpen|] != SpanOpen || span[|span| - |close|..] != close then None
    else Some(ReadMark(span[|SpanOpen|..|span| - |close|], color))
  }

  /** The inside of a span: a red or green mark around the line, or the line. */
  function ReadMark(inner: string, color: bool): (DiffMark, string) {
    if color && WrappedIn(inner, RedOpen) then (Added, inner[|RedOpen|..|inner| - |MarkClose|])
    else if color && WrappedIn(inner, GreenOpen) then (Removed, inner[|GreenOpen|..|inner| - |MarkClose|])
    else (Unchanged, inner)
  }

  /** A span gives back its line and, with colour, the line's mark. The line
      is not escaped, so a line that itself starts with markup is excluded
      (`DiffSpanNeedsEscaping`). */
  lemma DiffSpanRoundTrip(line: string, color: bool)
    requires |line| == 0 || line[0] != '<'
    ensures ReadDiffSpan(DiffSpan(line, color), color) == Some((if color then LineMark(line) else Unchanged, line))
  {
    if !color {
      ReadSpan(line, false);
    } else if LineMark(line) == Added {
      AddedRoundTrip(line);
    } else if LineMark(line) == Removed {
      RemovedRoundTrip(line);
    } else {
      ReadSpan(line, true);
      ReadUnwrapped(line);
    }
  }

  lemma AddedRoundTrip(line: string)
    requires |line| > 0 && line[0] == '+'
    ensures ReadDiffSpan(DiffSpan(line, true), true) == Some((Added, line))
  {
    ReadSpan(RedOpen + line + MarkClose, true);
    ReadWrapped(RedOpen, line);
  }

  lemma RemovedRoundTrip(line: string)
    requires |line| > 0 && line[0] == '-'
    ensures ReadDiffSpan(DiffSpan(line, true), true) == Some((Removed, line))
  {
    var inner := GreenOpen + line + MarkClose;
    ReadSpan(inner, true);
    ReadWrapped(GreenOpen, line);
    assert inner[..|RedOpen|][13] != RedOpen[13];
  }

  /** A span is read back to its inside. */
  lemma ReadSpan(inner: string, color: bool)
    ensures ReadDiffSpan(SpanOpen + inner + SpanEnd(color), color) == Some(ReadMark(inner, color))
  {
    var span, close := SpanOpen + inner + SpanEnd(color), SpanEnd(color);
    assert span[..|SpanOpen|] == SpanOpen;
    assert span[|span| - |close|..] == close;
    assert span[|SpanOpen|..|span| - |close|] == inner;
  }

  /** A mark is read back to the line inside it. */
  lemma ReadWrapped(open: string, line: string)
    ensures var s := open + line + MarkClose;
      WrappedIn(s, open) && s[|open|..|s| - |MarkClose|] == line
  {
    var s := open + line + MarkClose;
    assert s[..|open|] == open;
    assert s[|s| - |MarkClose|..] == MarkClose;
    assert s[|open|..|s| - |MarkClose|] == line;
  }

  /** A line that does not start with `<` carries no mark. */
  lemma ReadUnwrapped(line: string)
    requires |line| == 0 || line[0] != '<'
    ensures !WrappedIn(line, RedOpen) && !WrappedIn(line, GreenOpen)
  {
    if |line| >= |RedOpen| {
      assert line[..|RedOpen|][0] != RedOpen[0];
    }
    if |line| >= |GreenOpen| {
      assert line[..|GreenOpen|][0] != GreenOpen[0];
    }
  }

  /** Without escaping, an unchanged line holding the red mark itself gives
      the same coloured span as the added line inside it. */
  lemma DiffSpanNeedsEscaping()
    ensures var marked := RedOpen + "+" + MarkClose;
      marked != "+" && DiffSpan(marked, true) == DiffSpan("+", true)
  {
  }

  /** The spans of a list of diff lines, one per line, in order. */
  function DiffSpans(lines: seq<string>, color: bool): (spans: seq<string>)
    ensures |spans| == |lines|
    ensures forall k :: 0 <= k < |lines| ==> spans[k] == DiffSpan(lines[k], color)
  {
    seq(|lines|, k requires 0 <= k < |lines| => DiffSpan(lines[k], color))
  }

  /** `printGitDiff`: the fixed message for an empty diff, otherwise the
      listing of one span per `\n`-separated line. */
  method PrintGitDiff(diff: string, color: bool) returns (out: string)
    ensures diff == "" ==> out == NoDifferencesMessage
    ensures diff != "" ==> out == ListingOpen + Flatten(DiffSpans(Split(diff, '\n'), color)) + ListingClose
  {
    if diff == "" {
      return NoDifferencesMessage;
    }
    var body := Concat(DiffSpans(Split(diff, '\n'), color));
    out := ListingOpen + body + ListingClose;
  }

  /** The spans written one after the other. */
  method Concat(spans: seq<string>) returns (out: string)
    ensures out == Flatten(spans)
  {
    out := "";
    var i := 0;
    while i < |spans|
      invariant 0 <= i <= |spans|
      invariant out == Flatten(spans[..i])
    {
      FlattenPrefixStep(spans, i);
      out := out + spans[i];
      i := i + 1;
    }
    assert spans[..i] == spans;
  }

  /** A response without a syntax error lists its source exactly as an
      uncoloured diff listing of the same text would. */
  lemma UnmarkedListingIsPlainDiff(r: RuleResponse)
    requires r.success || r.error.kind != "syntax"
    ensures SourceListing(r) == ListingOpen + Flatten(DiffSpans(Split(r.source, '\n'), false)) + ListingClose
  {
    var lines := Split(r.source, '\n');
    assert ListingSpans(r, lines) == DiffSpans(lines, false);
  }
}
