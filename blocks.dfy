/**
 * What the block parser appends to a container, one element per block, and the two small
 * helpers every branch of the parser uses: `appendText`, which flushes the buffered text, and
 * the split of a styled line `[warning_style] text` into its style key and its text.
 */
module Blocks {

  import opened Wrappers
  import opened JsStrings
  import opened Classifier
  import opened Questions

  /** The elements the parser creates, in the order it appends them to a container. */
  datatype Block =
    | TextBlock(text: string)                       // createText(text, "")
    | QuestionBlock(question: Question)             // the question widget
    | CodeBlock(shown: string)                      // <div class="code">, with the text it shows
    | Conditional(expression: string, body: seq<Block>)  // <div class="if" data-expression>
    | StyledBlock(key: string, text: string)        // <p class="block-styling ...">
    | SeparatorBlock(stepIndex: Option<int>)        // <div class="line-separator">
    | EndMarker                                     // <div class="end">
    | EmptyIf                                       // the extra empty <div class="if">
    | BackButton                                    // the final Back button

  /** `appendText` of src/parser.js: the buffer is emitted, trimmed, when the flag asks for
      it or when it is blank, which still makes a paragraph break; then it is emptied.
      Otherwise it is kept as it is. */
  function AppendText(flag: bool, text: string): (r: (seq<Block>, string))
    ensures r.0 != [] <==> flag || Trim(text) == ""
    ensures r.0 != [] ==> r.0 == [TextBlock(Trim(text))] && r.1 == ""
    ensures r.0 == [] ==> r.1 == text
  {
    if flag || Trim(text) == "" then ([TextBlock(Trim(text))], "") else ([], text)
  }

  /** `appendText` of the older parser.js: only the flag decides. */
  function LegacyAppendText(flag: bool, text: string): (r: (seq<Block>, string))
    ensures r.0 != [] <==> flag
    ensures r.0 != [] ==> r.0 == [TextBlock(Trim(text))] && r.1 == ""
    ensures r.0 == [] ==> r.1 == text
  {
    if flag then ([TextBlock(Trim(text))], "") else ([], text)
  }

  /** The two versions agree except on a blank buffer with the flag down, which only the
      newer one turns into an empty paragraph. */
  lemma AppendTextVersions(flag: bool, text: string)
    ensures flag || Trim(text) != "" ==> AppendText(flag, text).0 == LegacyAppendText(flag, text).0
    ensures !flag && Trim(text) == "" ==>
      AppendText(flag, text).0 == [TextBlock("")] && LegacyAppendText(flag, text).0 == []
  {
  }

  /** Once the buffer is flushed, flushing again adds only an empty paragraph. */
  lemma FlushTwice(flag: bool, text: string, again: bool)
    requires AppendText(flag, text).0 != []
    ensures AppendText(again, AppendText(flag, text).1) == ([TextBlock("")], "")
  {
  }

  // ---------------------------------------------------------------------------
  // Code texts
  // ---------------------------------------------------------------------------

  /** The texts the code blocks show, in document order, conditionals included: what the
      page's `querySelectorAll("div.code")` visits. */
  function CodeTexts(blocks: seq<Block>): seq<string>
  {
    if blocks == [] then []
    else CodeTexts(blocks[..|blocks| - 1]) + BlockCodes(blocks[|blocks| - 1])
  }

  /** The code texts inside one block. */
  function BlockCodes(b: Block): seq<string>
  {
    match b
    case CodeBlock(shown) => [shown]
    case Conditional(_, body) => CodeTexts(body)
    case _ => []
  }

  /** What a code block the parser creates can show. `runUserCode` returns nothing, and a
      container given `undefined` shows "" through `textContent` and "undefined" through
      `innerHTML`. */
  predicate IdleText(shown: string) {
    shown == "" || shown == "undefined"
  }

  /** Every code block in `b`, at any depth, shows an idle text. */
  predicate QuietBlock(b: Block) {
    match b
    case CodeBlock(shown) => IdleText(shown)
    case Conditional(_, body) => forall k :: 0 <= k < |body| ==> QuietBlock(body[k])
    case _ => true
  }

  predicate Quiet(blocks: seq<Block>) {
    forall k :: 0 <= k < |blocks| ==> QuietBlock(blocks[k])
  }

  lemma QuietAppend(a: seq<Block>, b: seq<Block>)
    ensures Quiet(a + b) <==> Quiet(a) && Quiet(b)
  {
    if Quiet(a) && Quiet(b) {
      forall k | 0 <= k < |a + b|
        ensures QuietBlock((a + b)[k])
      {
        if k >= |a| {
          assert (a + b)[k] == b[k - |a|];
        }
      }
    }
    if Quiet(a + b) {
      forall k | 0 <= k < |a|
        ensures QuietBlock(a[k])
      {
        assert (a + b)[k] == a[k];
      }
      forall k | 0 <= k < |b|
        ensures QuietBlock(b[k])
      {
        assert (a + b)[|a| + k] == b[k];
      }
    }
  }

  lemma {:induction false} CodeTextsAppend(a: seq<Block>, b: seq<Block>)
    ensures CodeTexts(a + b) == CodeTexts(a) + CodeTexts(b)
    decreases |b|
  {
    if b == [] {
      assert a + b == a;
    } else {
      assert (a + b)[..|a + b| - 1] == a + b[..|b| - 1];
      CodeTextsAppend(a, b[..|b| - 1]);
    }
  }

  /** A list of blocks is quiet exactly when every code text it shows is idle. */
  lemma {:induction false} QuietTexts(blocks: seq<Block>)
    ensures Quiet(blocks) <==> forall c :: c in CodeTexts(blocks) ==> IdleText(c)
    decreases blocks
  {
    if blocks != [] {
      var init, last := blocks[..|blocks| - 1], blocks[|blocks| - 1];
      assert blocks == init + [last];
      QuietTexts(init);
      QuietBlockTexts(last);
      assert Quiet(blocks) <==> Quiet(init) && QuietBlock(last);
    }
  }

  lemma {:induction false} QuietBlockTexts(b: Block)
    ensures QuietBlock(b) <==> forall c :: c in BlockCodes(b) ==> IdleText(c)
    decreases b
  {
    if b.Conditional? {
      QuietTexts(b.body);
    }
  }

  // ---------------------------------------------------------------------------
  // Styled text
  // ---------------------------------------------------------------------------

  /** `[a-z_]` under the `i` flag. */
  predicate IsTagChar(c: char) {
    IsAsciiLetter(c) || c == '_'
  }

  /** End of the run of `[a-z_]` characters that starts at `k`. */
  function TagRunEnd(s: string, k: nat): (r: nat)
    requires k <= |s|
    ensures k <= r <= |s|
    ensures forall m :: k <= m < r ==> IsTagChar(s[m])
    ensures r < |s| ==> !IsTagChar(s[r])
    decreases |s| - k
  {
    if k < |s| && IsTagChar(s[k]) then TagRunEnd(s, k + 1) else k
  }

  /** `trimmed.match(/^\[([a-z_]+)\]\s*(.*)$/i)`: the style key, lower-cased, and the text
      after it. The greedy `\s*` takes every space before the text, and `(.*)$` fails when a
      line terminator is left, since `$` without the `m` flag only holds at the end. */
  function StyledParts(t: string): (r: Option<(string, string)>)
    ensures r.Some? ==> 3 <= |r.value.0| + 2 <= |t| && t[0] == '['
    ensures r.Some? ==> r.value.0 == LowerAsciiString(t[1..|r.value.0| + 1]) && t[|r.value.0| + 1] == ']'
    ensures r.Some? ==> NoLineTerminator(r.value.1) && |r.value.1| <= |t| - |r.value.0| - 2
    ensures r.Some? ==> r.value.1 == t[|t| - |r.value.1|..]
    ensures r.Some? ==> AllSpace(t[|r.value.0| + 2..|t| - |r.value.1|])
  {
    if |t| >= 2 && t[0] == '[' then
      var q := TagRunEnd(t, 1);
      if 1 < q < |t| && t[q] == ']' then
        var r := SpaceRunEnd(t, q + 1);
        if NoLineTerminator(t[r..]) then Some((LowerAsciiString(t[1..q]), t[r..])) else None
      else None
    else None
  }

  /** The four style keys the classifier recognises. */
  const StyleKeys: set<string> := {"warning_style", "error_style", "info_style", "success_style"}

  predicate IsLowerTag(key: string) {
    forall c :: c in key ==> ('a' <= c <= 'z') || c == '_'
  }

  /** A line the classifier calls styled, with no line break in it, always splits, and its key
      is one of the four style keys in lower case, however the tag was written. */
  lemma StyledHeaderSplits(t: string)
    requires IsStyleHeader(t) && NoLineTerminator(t)
    ensures StyledParts(t).Some? && StyledParts(t).value.0 in StyleKeys
  {
    StyleKeysAreTags();
    if HasStyleTag(t, "warning_style") {
      TagSplits(t, "warning_style");
    } else if HasStyleTag(t, "error_style") {
      TagSplits(t, "error_style");
    } else if HasStyleTag(t, "info_style") {
      TagSplits(t, "info_style");
    } else {
      TagSplits(t, "success_style");
    }
  }

  /** Every style key is a non-empty run of `[a-z_]`. */
  lemma StyleKeysAreTags()
    ensures forall key :: key in StyleKeys ==> key != [] && IsLowerTag(key)
  {
  }

  lemma TagSplits(t: string, key: string)
    requires HasStyleTag(t, key) && key != [] && IsLowerTag(key) && NoLineTerminator(t)
    ensures StyledParts(t).Some? && StyledParts(t).value.0 == key
  {
    var e := |key| + 1;
    forall m | 1 <= m < e
      ensures IsTagChar(t[m])
    {
      assert LowerAsciiString(t[1..e])[m - 1] == key[m - 1] && key[m - 1] in key;
      assert t[1..e][m - 1] == t[m];
    }
    TagRunExact(t, 1, e);
    var r := SpaceRunEnd(t, e + 1);
    assert forall k :: 0 <= k < |t[r..]| ==> t[r..][k] == t[r + k];
  }

  lemma {:induction false} TagRunExact(s: string, k: nat, e: nat)
    requires k <= e < |s| && !IsTagChar(s[e])
    requires forall m :: k <= m < e ==> IsTagChar(s[m])
    ensures TagRunEnd(s, k) == e
    decreases e - k
  {
    if k < e {
      TagRunExact(s, k + 1, e);
    }
  }
}
