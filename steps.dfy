/**
 * The text-level helpers of src/parser.js that cut the procedure into steps and lines:
 * `splitSteps`, and `joinToString`/`joinToArray`, which gather the lines of a code block.
 */
module Steps {

  import opened JsStrings
  import opened Seqs
  import opened Classifier

  /** `splitSteps`: the text cut at every `---`, even in the middle of a line, and each piece
      trimmed. */
  function SplitSteps(text: string): seq<string>
  {
    Map(Split(text, "---"), Trim)
  }

  /** `step.split("\n")`: the lines the block parser walks through. */
  function StepLines(step: string): seq<string>
  {
    Split(step, "\n")
  }

  /** One step more than there are `---` occurrences, found left to right. */
  lemma StepCount(text: string)
    ensures |SplitSteps(text)| == CountOccurrences(text, "---") + 1
  {
    SplitCount(text, "---");
  }

  /** No step holds a `---` any more, so no line of a step is ever classified as a
      separator: the separator branches of the block parser are unreachable from the page. */
  lemma StepLinesAreNotSeparators(text: string, k: nat, line: string)
    requires k < |SplitSteps(text)|
    requires line in StepLines(SplitSteps(text)[k])
    ensures ClassifyLine(line) != SeparatorLine && LegacyClassifyLine(line) != SeparatorLine
  {
    var step := SplitSteps(text)[k];
    StepAvoidsDashes(text, k);
    SplitPiecesInherit(step, "\n", "---");
    assert !Contains(line, "---");
    SeparatorNeedsDashes(line);
  }

  lemma StepAvoidsDashes(text: string, k: nat)
    requires k < |SplitSteps(text)|
    ensures !Contains(SplitSteps(text)[k], "---")
  {
    var pieces := Split(text, "---");
    MapIndex(pieces, Trim, k);
    SplitPiecesAvoidSeparator(text, "---");
    assert pieces[k] in pieces;
    TrimAvoids(pieces[k], "---");
  }

  /** `step.slice(start, end + 1)`, with the clamping of `slice` when `end + 1` passes the end. */
  function JoinToArray(step: seq<string>, start: nat, end: nat): (r: seq<string>)
    ensures |r| <= |step|
    ensures forall k :: 0 <= k < |r| ==> start + k < |step| && r[k] == step[start + k]
    ensures start <= end < |step| ==> |r| == end - start + 1
  {
    var stop := if end + 1 <= |step| then end + 1 else |step|;
    if start < stop then step[start..stop] else []
  }

  /** `step.slice(start, end + 1).join("\n")`: the source text of a code block. */
  function JoinToString(step: seq<string>, start: nat, end: nat): string
  {
    Join(JoinToArray(step, start, end), "\n")
  }

  /** Lines that hold no line break come back unchanged when the joined code block is split
      into lines again, as the declaration extractor does. */
  lemma CodeLinesRoundTrip(step: seq<string>, start: nat, end: nat)
    requires start <= end < |step|
    requires forall k :: start <= k <= end ==> '\n' !in step[k]
    ensures Split(JoinToString(step, start, end), "\n") == JoinToArray(step, start, end)
  {
    var r := JoinToArray(step, start, end);
    assert forall k :: 0 <= k < |r| ==> '\n' !in r[k] by {
      forall k | 0 <= k < |r|
        ensures '\n' !in r[k]
      {
        assert r[k] == step[start + k];
      }
    }
    SplitJoin(r, '\n');
  }

  /** The lines of a step never hold a line break. */
  lemma StepLinesHaveNoBreak(step: string)
    ensures forall k :: 0 <= k < |StepLines(step)| ==> '\n' !in StepLines(step)[k]
  {
    SplitPiecesAvoidSeparator(step, "\n");
    forall k | 0 <= k < |StepLines(step)|
      ensures '\n' !in StepLines(step)[k]
    {
      var p := StepLines(step)[k];
      assert p in StepLines(step);
      if '\n' in p {
        var j :| 0 <= j < |p| && p[j] == '\n';
        assert OccursAt(p, "\n", j);
      }
    }
  }
}
