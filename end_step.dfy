/**
 * A sample step that shows what a nested `{end}` does in the older parser.js: a conditional
 * whose body is only `{end}`, closed on the line after. This module holds what the line
 * classifier and the scope matcher read on its three lines.
 */
module EndStepText {

  import opened Wrappers
  import opened JsStrings
  import opened Classifier
  import opened ScopeMatcher

  /** The step, and the same step once its header is rewritten. */
  const EndStep: seq<string> := ["{showif x", "{end}", "}"]
  const RewrittenEndStep: seq<string> := [" x", "{end}", "}"]

  /** The first line opens a conditional that closes on the third, and its header is
      rewritten to ` x`. */
  lemma EndStepShape()
    ensures |EndStep| == 3 && IsShowIfLine(EndStep[0]) && BlockEnd(EndStep, 0) == Some(2)
    ensures StripShowif(EndStep[0]) == " x" && EndStep[0 := " x"] == RewrittenEndStep
    ensures EndStep[1] == "{end}"
  {
    HeaderOpensConditional();
    EndStepScope();
    HeaderRewritten();
  }

  /** `{end}` ends the procedure in either classifier. */
  lemma EndLineKind()
    ensures Classify("{end}", true) == EndLine && Classify("{end}", false) == EndLine
  {
    EndPrefix("{end}", "");
  }

  /** The header rewritten, and read as text. */
  lemma HeaderRewritten()
    ensures StripShowif("{showif x") == " x" && Trim(" x") == "x"
    ensures Classify(" x", true) == TextLine && Classify(" x", false) == TextLine
  {
    HeaderStripped();
    SpacedTrim();
    ExpressionIsText(true);
    ExpressionIsText(false);
  }

  /** Deleting `{` and `showif` from the header leaves the space and the expression. */
  lemma HeaderStripped()
    ensures StripShowif("{showif x") == " x"
  {
    assert StripShowif("x") == "x";
    assert StripShowif(" x") == " x";
    assert "{showif x"[1..] == "showif x";
    assert "showif x"[6..] == " x";
  }

  /** Trimming the rewritten header leaves the expression. */
  lemma SpacedTrim()
    ensures Trim(" x") == "x"
  {
    assert TrimStart("x") == "x";
    assert TrimStart(" x") == "x";
    assert TrimEnd("x") == "x";
  }

  /** The expression alone is plain text for either classifier. */
  lemma ExpressionIsText(styled: bool)
    ensures KindOf("x", styled) == TextLine
  {
    assert !IsShowIfHeader("x");
    assert !IsStyleHeader("x");
  }

  /** The expression followed by a line feed, trimmed. */
  lemma ExpressionTrimmed()
    ensures Trim("x" + "\n") == "x"
  {
    var s := "x" + "\n";
    assert TrimStart(s) == s;
    assert s[..1] == "x";
    assert TrimEnd(s) == TrimEnd("x");
  }

  /** `{showif x` is a conditional header. */
  lemma HeaderOpensConditional()
    ensures IsShowIfLine("{showif x")
  {
    var t := "{showif x";
    assert Trim(t) == t;
    assert SpaceRunEnd(t, 1) == 1;
    assert t[1..7] == "showif";
  }

  /** The scanner is inside the conditional after the header and after `{end}`, and the
      third line closes it. */
  lemma EndStepScope()
    ensures BlockEnd(EndStep, 0) == Some(2)
  {
    var inside := ScanState(1, false, ' ', true);
    HeaderScan(inside);
    EndLineScan(inside);
    assert ScanChars("}", 0, inside) == Closed;
  }

  /** The header's `{` is the only brace on its line. */
  lemma HeaderScan(inside: ScanState)
    requires inside == ScanState(1, false, ' ', true)
    ensures ScanChars("{showif x", 0, Initial) == Open(inside)
  {
    var t := "{showif x";
    assert forall k :: 1 <= k < |t| ==> !IsSpecial(t[k]);
    NeutralRun(t, 1, |t|, inside);
  }

  /** The braces of `{end}` balance, so the conditional stays open. */
  lemma EndLineScan(inside: ScanState)
    requires inside == ScanState(1, false, ' ', true)
    ensures ScanChars("{end}", 0, inside) == Open(inside)
  {
    var t := "{end}";
    var deeper := inside.(braceCount := 2);
    assert ScanChars(t, 0, inside) == ScanChars(t, 1, deeper);
    assert forall k :: 1 <= k < 4 ==> !IsSpecial(t[k]);
    NeutralRun(t, 1, 4, deeper);
    assert ScanChars(t, 4, deeper) == ScanChars(t, 5, inside);
  }
}
