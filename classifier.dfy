/**
 * `classifyLine` (src/parser.js and the older parser.js): what a line of a step is, decided on
 * the trimmed line by a fixed sequence of tests, and the rewrite `/showif|\{|\}/g` that a
 * conditional applies to its own header line.
 */
module Classifier {

  import opened Wrappers
  import opened JsStrings
  import opened Seqs

  /** The categories `classifyLine` returns. */
  datatype LineKind =
    | QuestionLine    // "question"
    | CodeStartLine   // "codeblock_start"
    | ShowIfLine      // "showif_start"
    | EndLine         // "end"
    | SeparatorLine   // "separator"
    | BlockEndLine    // "block_end"
    | StyledLine      // "styled_text"
    | TextLine        // "text"

  /** `/^\{\s*showif/`: `{`, optional spaces, then `showif`. The spaces are taken greedily and
      `s` is not a space, so only the end of the space run can be followed by `showif`. */
  predicate IsShowIfHeader(t: string) {
    t != [] && t[0] == '{' && OccursAt(t, "showif", SpaceRunEnd(t, 1))
  }

  /** `[key]` at the start of `t`, with `key` compared without case. */
  predicate HasStyleTag(t: string, key: string) {
    |key| + 2 <= |t| && t[0] == '[' && MatchesNoCase(t, 1, key) && t[|key| + 1] == ']'
  }

  /** `/^\[(warning_style|error_style|info_style|success_style)\]/i`. */
  predicate IsStyleHeader(t: string) {
    || HasStyleTag(t, "warning_style")
    || HasStyleTag(t, "error_style")
    || HasStyleTag(t, "info_style")
    || HasStyleTag(t, "success_style")
  }

  /** The tests both versions apply to the trimmed line `t`, in their order; `styled` adds the
      style test of src/parser.js just before the fallback to text. */
  function KindOf(t: string, styled: bool): LineKind
  {
    if StartsWith(t, "Q:") then QuestionLine
    else if t == "{" then CodeStartLine
    else if IsShowIfHeader(t) then ShowIfLine
    else if StartsWith(t, "{end}") then EndLine
    else if t == "---" then SeparatorLine
    else if t == "}" then BlockEndLine
    else if styled && IsStyleHeader(t) then StyledLine
    else TextLine
  }

  function Classify(line: string, styled: bool): LineKind
  {
    KindOf(Trim(line), styled)
  }

  /** `classifyLine` of src/parser.js. */
  function ClassifyLine(line: string): LineKind
  {
    Classify(line, true)
  }

  /** `classifyLine` of the older parser.js, which has no styled-text category. */
  function LegacyClassifyLine(line: string): LineKind
  {
    Classify(line, false)
  }

  predicate IsShowIfLine(line: string) {
    ClassifyLine(line) == ShowIfLine
  }

  /** `step[i].replace(/showif|\{|\}/g, "")`: scanning left to right, every `showif`, `{` and `}`
      is deleted; after a deletion the scan resumes right after it. */
  function StripShowif(s: string): (r: string)
    ensures |r| <= |s|
    ensures '{' !in r && '}' !in r
    decreases |s|
  {
    if s == [] then []
    else if StartsWith(s, "showif") then StripShowif(s[6..])
    else if s[0] == '{' || s[0] == '}' then StripShowif(s[1..])
    else [s[0]] + StripShowif(s[1..])
  }

  /** How many lines of a step still open a conditional. Each conditional rewrites its own
      header, so this number drops with every conditional parsed. */
  function ShowIfCount(lines: seq<string>): nat
  {
    ShowIfsFrom(lines, 0)
  }

  /** How many of the lines from index `k` on open a conditional. */
  function ShowIfsFrom(lines: seq<string>, k: nat): nat
    decreases |lines| - k
  {
    if k >= |lines| then 0 else (if IsShowIfLine(lines[k]) then 1 else 0) + ShowIfsFrom(lines, k + 1)
  }

  // ---------------------------------------------------------------------------
  // Properties
  // ---------------------------------------------------------------------------

  /** The category depends only on the trimmed line. */
  lemma ClassifyTrimmed(line: string)
    ensures ClassifyLine(Trim(line)) == ClassifyLine(line)
    ensures LegacyClassifyLine(Trim(line)) == LegacyClassifyLine(line)
  {
    TrimIdempotent(line);
  }

  /** The older classifier is the newer one with styled lines counted as text. */
  lemma LegacyClassification(line: string)
    ensures LegacyClassifyLine(line) ==
      (if ClassifyLine(line) == StyledLine then TextLine else ClassifyLine(line))
  {
  }

  /** The question test comes first: a `Q:` line is a question whatever follows. */
  lemma QuestionFirst(line: string)
    requires StartsWith(Trim(line), "Q:")
    ensures ClassifyLine(line) == QuestionLine && LegacyClassifyLine(line) == QuestionLine
  {
  }

  /** A line whose trimmed text starts with `{end}` ends the procedure, whatever follows it. */
  lemma EndPrefix(line: string, rest: string)
    requires Trim(line) == "{end}" + rest
    ensures ClassifyLine(line) == EndLine && LegacyClassifyLine(line) == EndLine
  {
    var t := Trim(line);
    assert t[..2] != "Q:" by { assert t[0] == '{'; }
    assert t != "{" by { assert |t| >= 5; }
    assert !IsShowIfHeader(t) by {
      assert SpaceRunEnd(t, 1) == 1 by { assert t[1] == 'e'; }
      assert t[1] != "showif"[0];
    }
    assert t[..5] == "{end}";
  }

  /** Only a line that is `---` once trimmed is a separator. */
  lemma SeparatorNeedsDashes(line: string)
    requires !Contains(line, "---")
    ensures ClassifyLine(line) != SeparatorLine && LegacyClassifyLine(line) != SeparatorLine
  {
    var a := TrimIsInfix(line);
    if Trim(line) == "---" {
      assert OccursAt(line, "---", a);
    }
  }

  /** A rewritten header has no brace left, so it opens nothing: it is neither a code block,
      a conditional, an end marker nor a block end. */
  lemma StrippedHeaderOpensNothing(line: string)
    ensures ClassifyLine(StripShowif(line)) !in {CodeStartLine, ShowIfLine, EndLine, BlockEndLine}
    ensures LegacyClassifyLine(StripShowif(line)) !in {CodeStartLine, ShowIfLine, EndLine, BlockEndLine}
  {
    var r := StripShowif(line);
    TrimChars(r, '{');
    TrimChars(r, '}');
    BracelessOpensNothing(Trim(r), true);
    BracelessOpensNothing(Trim(r), false);
  }

  lemma BracelessOpensNothing(t: string, styled: bool)
    requires '{' !in t && '}' !in t
    ensures KindOf(t, styled) !in {CodeStartLine, ShowIfLine, EndLine, BlockEndLine}
  {
    if t != [] {
      assert t[0] in t;
    }
  }

  /** Rewriting a conditional's header removes exactly one conditional from the step. */
  lemma StripDropsCount(lines: seq<string>, i: nat)
    requires i < |lines| && ClassifyLine(lines[i]) == ShowIfLine
    ensures ShowIfCount(lines[i := StripShowif(lines[i])]) == ShowIfCount(lines) - 1
  {
    StrippedHeaderOpensNothing(lines[i]);
    ShowIfsCounted(lines, 0);
    ShowIfsCounted(lines[i := StripShowif(lines[i])], 0);
    CountUpdate(lines, i, StripShowif(lines[i]), IsShowIfLine, 0);
  }

  lemma {:induction false} ShowIfsCounted(lines: seq<string>, k: nat)
    ensures ShowIfsFrom(lines, k) == CountFrom(lines, IsShowIfLine, k)
    decreases |lines| - k
  {
    if k < |lines| {
      ShowIfsCounted(lines, k + 1);
    }
  }

  /** `after` is `before` with some of its conditional headers rewritten by `StripShowif` and
      every other line as it was. */
  predicate HeadersRewritten(before: seq<string>, after: seq<string>) {
    |after| == |before| &&
    forall k :: 0 <= k < |before| ==>
      after[k] == before[k] || (IsShowIfLine(before[k]) && after[k] == StripShowif(before[k]))
  }

  /** A rewritten header opens nothing, so it is never rewritten again: rewrites compose. */
  lemma RewritesCompose(a: seq<string>, b: seq<string>)
    requires HeadersRewritten(a, b)
    ensures forall c :: HeadersRewritten(b, c) ==> HeadersRewritten(a, c)
  {
    forall c | HeadersRewritten(b, c) ensures HeadersRewritten(a, c) {
      forall k | 0 <= k < |a|
        ensures c[k] == a[k] || (IsShowIfLine(a[k]) && c[k] == StripShowif(a[k]))
      {
        if b[k] != a[k] {
          StrippedHeaderOpensNothing(a[k]);
        }
      }
    }
  }
}
