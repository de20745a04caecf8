/**
 * How the flat list of parsed elements becomes the page's steps. The separators the parser
 * emitted cut the list into groups; each group is wrapped in `<div class="step{n}">`, with the
 * step's repeat condition as an attribute and a nav-buttons container at its end.
 *
 * Two versions exist: `flushStep` in src/downloadPage.js skips empty groups, while `flush` in
 * src/initialize.js makes a step for every separator, and only skips an empty last group.
 */
module StepAssembly {

  import opened Wrappers
  import opened Blocks

  /** A child of a step's `div`: a parsed element, or the nav-buttons container. */
  datatype Element = Parsed(block: Block) | NavButtons

  /** `<div class="step{number}">`, with its `data-repeat-step-until` attribute if any. */
  datatype StepDiv = StepDiv(number: nat, repeatUntil: Option<string>, children: seq<Element>)

  /** The repeat conditions, by step index; a missing table is the empty map. */
  type Conditions = map<nat, string>

  /** `wrapStep(elements, stepIndex)`: the step's class carries its index, the repeat condition
      is attached when the table has the index as an own key, and exactly one nav-buttons
      container follows the step's elements. */
  function WrapStep(elements: seq<Block>, stepIndex: nat, conds: Conditions): (r: StepDiv)
    ensures r.number == stepIndex
    ensures r.repeatUntil.Some? <==> stepIndex in conds
    ensures r.repeatUntil.Some? ==> r.repeatUntil.value == conds[stepIndex]
    ensures |r.children| == |elements| + 1 && r.children[|elements|] == NavButtons
    ensures forall k :: 0 <= k < |elements| ==> r.children[k] == Parsed(elements[k])
  {
    StepDiv(stepIndex, if stepIndex in conds then Some(conds[stepIndex]) else None,
            seq(|elements|, k requires 0 <= k < |elements| => Parsed(elements[k])) + [NavButtons])
  }

  /** The steps made from `groups`, numbered from 0 in order. */
  function WrapAll(groups: seq<seq<Block>>, conds: Conditions): (r: seq<StepDiv>)
    ensures |r| == |groups|
    ensures forall j :: 0 <= j < |r| ==> r[j] == WrapStep(groups[j], j, conds)
  {
    seq(|groups|, j requires 0 <= j < |groups| => WrapStep(groups[j], j, conds))
  }

  lemma WrapAllStep(groups: seq<seq<Block>>, g: seq<Block>, conds: Conditions)
    ensures WrapAll(groups + [g], conds) == WrapAll(groups, conds) + [WrapStep(g, |groups|, conds)]
  {
  }

  // ---------------------------------------------------------------------------
  // The code texts of a step
  // ---------------------------------------------------------------------------

  /** The texts of the `div.code` elements among `children`, in document order: the code
      blocks of the parsed elements, those inside a conditional included. */
  function ElementCodes(children: seq<Element>): seq<string>
  {
    if children == [] then []
    else
      ElementCodes(children[..|children| - 1]) +
      (match children[|children| - 1] case Parsed(b) => BlockCodes(b) case NavButtons => [])
  }

  /** What `currentStepDiv.querySelectorAll("div.code")` finds in the step. */
  function StepCodes(d: StepDiv): seq<string>
  {
    ElementCodes(d.children)
  }

  /** The code texts of each step, by step index. */
  function CodesOf(steps: seq<StepDiv>): (r: seq<seq<string>>)
    ensures |r| == |steps|
  {
    seq(|steps|, j requires 0 <= j < |steps| => StepCodes(steps[j]))
  }

  /** The parsed elements of a group, as children of its step. */
  lemma {:induction false} ParsedCodes(g: seq<Block>)
    ensures ElementCodes(seq(|g|, k requires 0 <= k < |g| => Parsed(g[k]))) == CodeTexts(g)
    decreases |g|
  {
    if g != [] {
      var init := g[..|g| - 1];
      ParsedCodes(init);
      var es := seq(|g|, k requires 0 <= k < |g| => Parsed(g[k]));
      assert es[..|es| - 1] == seq(|init|, k requires 0 <= k < |init| => Parsed(init[k]));
    }
  }

  /** The code texts of a wrapped step are those of its group; the nav buttons hold none. */
  lemma WrapStepCodes(g: seq<Block>, stepIndex: nat, conds: Conditions)
    ensures StepCodes(WrapStep(g, stepIndex, conds)) == CodeTexts(g)
  {
    var c := WrapStep(g, stepIndex, conds).children;
    assert c[..|c| - 1] == seq(|g|, k requires 0 <= k < |g| => Parsed(g[k]));
    ParsedCodes(g);
  }

  /** Every code text of every step is idle. */
  predicate IdleSteps(steps: seq<StepDiv>) {
    forall j, c :: 0 <= j < |steps| && c in StepCodes(steps[j]) ==> IdleText(c)
  }

  predicate AllQuiet(groups: seq<seq<Block>>) {
    forall j :: 0 <= j < |groups| ==> Quiet(groups[j])
  }

  /** Quiet nodes make quiet steps: every code text of every step is idle. */
  lemma QuietWrapAll(groups: seq<seq<Block>>, conds: Conditions)
    requires AllQuiet(groups)
    ensures IdleSteps(WrapAll(groups, conds))
  {
    forall j | 0 <= j < |groups|
      ensures forall c :: c in StepCodes(WrapAll(groups, conds)[j]) ==> IdleText(c)
    {
      WrapStepCodes(groups[j], j, conds);
      QuietTexts(groups[j]);
    }
  }

  // ---------------------------------------------------------------------------
  // Reference definitions
  // ---------------------------------------------------------------------------

  function Separators(nodes: seq<Block>): nat
  {
    if nodes == [] then 0
    else Separators(nodes[..|nodes| - 1]) + (if nodes[|nodes| - 1].SeparatorBlock? then 1 else 0)
  }

  /** The nodes that are not separators, in order. */
  function Content(nodes: seq<Block>): (r: seq<Block>)
    ensures forall k :: 0 <= k < |r| ==> !r[k].SeparatorBlock?
  {
    if nodes == [] then []
    else Content(nodes[..|nodes| - 1]) + (if nodes[|nodes| - 1].SeparatorBlock? then [] else [nodes[|nodes| - 1]])
  }

  /** The groups, concatenated. */
  function Flatten(groups: seq<seq<Block>>): seq<Block>
  {
    if groups == [] then [] else Flatten(groups[..|groups| - 1]) + groups[|groups| - 1]
  }

  predicate NoSeparator(g: seq<Block>) {
    forall k :: 0 <= k < |g| ==> !g[k].SeparatorBlock?
  }

  /** The runs of nodes between separators, in order, the last one being the run after the
      last separator; runs may be empty. */
  function Groups(nodes: seq<Block>): (r: seq<seq<Block>>)
    ensures |r| == Separators(nodes) + 1
    ensures forall j :: 0 <= j < |r| ==> NoSeparator(r[j])
  {
    if nodes == [] then [[]]
    else
      var g := Groups(nodes[..|nodes| - 1]);
      var last := nodes[|nodes| - 1];
      if last.SeparatorBlock? then g + [[]] else g[..|g| - 1] + [g[|g| - 1] + [last]]
  }

  /** The non-empty groups, in order. */
  function NonEmpty(groups: seq<seq<Block>>): (r: seq<seq<Block>>)
    ensures |r| <= |groups|
    ensures forall j :: 0 <= j < |r| ==> r[j] != [] && r[j] in groups
  {
    if groups == [] then []
    else
      NonEmpty(groups[..|groups| - 1]) + (if groups[|groups| - 1] == [] then [] else [groups[|groups| - 1]])
  }

  /** The groups src/initialize.js makes into steps: every group a separator closes, and the
      last group when it is not empty. */
  function InitGroups(nodes: seq<Block>): seq<seq<Block>>
  {
    var g := Groups(nodes);
    g[..|g| - 1] + (if g[|g| - 1] != [] then [g[|g| - 1]] else [])
  }

  /** One node more: a separator opens a new group, any other node joins the last one. */
  lemma GroupsExtend(nodes: seq<Block>, k: nat, closed: seq<seq<Block>>, current: seq<Block>)
    requires k < |nodes| && Groups(nodes[..k]) == closed + [current]
    ensures Groups(nodes[..k + 1]) ==
      if nodes[k].SeparatorBlock? then (closed + [current]) + [[]] else closed + [current + [nodes[k]]]
  {
    assert nodes[..k + 1][..k] == nodes[..k];
    assert (closed + [current])[..|closed|] == closed;
  }

  /** The groups made into steps are the closed ones, and the open one when it is not empty. */
  lemma InitGroupsSplit(nodes: seq<Block>, closed: seq<seq<Block>>, current: seq<Block>)
    requires Groups(nodes) == closed + [current]
    ensures InitGroups(nodes) == closed + (if current != [] then [current] else [])
  {
    assert (closed + [current])[..|closed|] == closed;
  }

  /** One group more: it is kept exactly when it is not empty. */
  lemma NonEmptySnoc(closed: seq<seq<Block>>, g: seq<Block>)
    ensures NonEmpty(closed + [g]) == NonEmpty(closed) + (if g == [] then [] else [g])
  {
    assert (closed + [g])[..|closed|] == closed;
  }

  // ---------------------------------------------------------------------------
  // The two partitions
  // ---------------------------------------------------------------------------

  /** `flushStep()` of downloadPage.js: an empty group makes no step; otherwise the group is
      wrapped with the next index and emptied. */
  method FlushStep(rendered: seq<StepDiv>, current: seq<Block>, stepCounter: nat, conds: Conditions)
    returns (rendered': seq<StepDiv>, current': seq<Block>, stepCounter': nat)
    ensures current == [] ==> rendered' == rendered && current' == [] && stepCounter' == stepCounter
    ensures current != [] ==>
      rendered' == rendered + [WrapStep(current, stepCounter, conds)] && current' == [] && stepCounter' == stepCounter + 1
  {
    if |current| == 0 {
      return rendered, current, stepCounter;
    }
    rendered' := rendered + [WrapStep(current, stepCounter, conds)];
    stepCounter' := stepCounter + 1;
    current' := [];
  }

  /** The step loop of `downloadGeneratedPage`: the steps are the non-empty groups, numbered
      from 0. */
  method DownloadSteps(nodes: seq<Block>, conds: Conditions) returns (rendered: seq<StepDiv>)
    ensures rendered == WrapAll(NonEmpty(Groups(nodes)), conds)
  {
    rendered := [];
    var current: seq<Block> := [];
    var stepCounter: nat := 0;
    ghost var closed: seq<seq<Block>> := [];
    for k := 0 to |nodes|
      invariant Groups(nodes[..k]) == closed + [current]
      invariant rendered == WrapAll(NonEmpty(closed), conds) && stepCounter == |rendered|
    {
      GroupsExtend(nodes, k, closed, current);
      if nodes[k].SeparatorBlock? {
        NonEmptySnoc(closed, current);
        WrapAllStep(NonEmpty(closed), current, conds);
        closed := closed + [current];
        rendered, current, stepCounter := FlushStep(rendered, current, stepCounter, conds);
      } else {
        current := current + [nodes[k]];
      }
    }
    assert nodes[..|nodes|] == nodes;
    NonEmptySnoc(closed, current);
    WrapAllStep(NonEmpty(closed), current, conds);
    rendered, current, stepCounter := FlushStep(rendered, current, stepCounter, conds);
  }

  /** `flush()` of `appendParsedSteps`: the group is wrapped with the next index, even when it
      is empty, and emptied. */
  method Flush(steps: seq<StepDiv>, current: seq<Block>, stepCounter: nat, conds: Conditions)
    returns (steps': seq<StepDiv>, current': seq<Block>, stepCounter': nat)
    ensures steps' == steps + [WrapStep(current, stepCounter, conds)]
    ensures current' == [] && stepCounter' == stepCounter + 1
  {
    steps' := steps + [WrapStep(current, stepCounter, conds)];
    stepCounter' := stepCounter + 1;
    current' := [];
  }

  /** `appendParsedSteps`: every separator closes a step, and the last group becomes a step
      only when it is not empty. */
  method AppendParsedSteps(nodes: seq<Block>, conds: Conditions) returns (steps: seq<StepDiv>)
    ensures steps == WrapAll(InitGroups(nodes), conds)
  {
    steps := [];
    var current: seq<Block> := [];
    var stepCounter: nat := 0;
    ghost var closed: seq<seq<Block>> := [];
    for k := 0 to |nodes|
      invariant Groups(nodes[..k]) == closed + [current]
      invariant steps == WrapAll(closed, conds) && stepCounter == |steps|
    {
      GroupsExtend(nodes, k, closed, current);
      if nodes[k].SeparatorBlock? {
        WrapAllStep(closed, current, conds);
        closed := closed + [current];
        steps, current, stepCounter := Flush(steps, current, stepCounter, conds);
      } else {
        current := current + [nodes[k]];
      }
    }
    assert nodes[..|nodes|] == nodes;
    InitGroupsSplit(nodes, closed, current);
    if |current| > 0 {
      WrapAllStep(closed, current, conds);
      steps, current, stepCounter := Flush(steps, current, stepCounter, conds);
    }
  }

  /** The loop after `appendParsedSteps`: only `step0` is displayed. */
  method ShowFirstStep(displayed: array<bool>)
    modifies displayed
    ensures forall i :: 0 <= i < displayed.Length ==> (displayed[i] <==> i == 0)
  {
    for i := 0 to displayed.Length
      invariant forall k :: 0 <= k < i ==> (displayed[k] <==> k == 0)
    {
      displayed[i] := i == 0;
    }
  }

  // ---------------------------------------------------------------------------
  // Properties
  // ---------------------------------------------------------------------------

  /** Cutting at separators loses nothing but the separators and keeps the order. */
  lemma {:induction false} GroupsKeepContent(nodes: seq<Block>)
    ensures Flatten(Groups(nodes)) == Content(nodes)
  {
    if nodes != [] {
      var prefix := nodes[..|nodes| - 1];
      GroupsKeepContent(prefix);
      var g := Groups(prefix);
      var last := nodes[|nodes| - 1];
      if last.SeparatorBlock? {
        assert (g + [[]])[..|g|] == g;
      } else {
        var init := g[..|g| - 1];
        assert (init + [g[|g| - 1] + [last]])[..|g| - 1] == init;
        assert g == init + [g[|g| - 1]];
        assert g[..|g| - 1] == init;
      }
    }
  }

  /** Dropping empty groups does not change the concatenation. */
  lemma {:induction false} NonEmptyKeepsContent(groups: seq<seq<Block>>)
    ensures Flatten(NonEmpty(groups)) == Flatten(groups)
  {
    if groups != [] {
      var init := groups[..|groups| - 1];
      NonEmptyKeepsContent(init);
      var last := groups[|groups| - 1];
      if last != [] {
        assert (NonEmpty(init) + [last])[..|NonEmpty(init)|] == NonEmpty(init);
      } else {
        assert NonEmpty(groups) == NonEmpty(init) + [] == NonEmpty(init);
        assert Flatten(groups) == Flatten(init) + last == Flatten(init);
      }
    }
  }

  /** downloadPage.js: no step is empty, and the steps' elements are exactly the parsed
      elements that are not separators, in their order. */
  lemma DownloadStepsShape(nodes: seq<Block>)
    ensures forall j :: 0 <= j < |NonEmpty(Groups(nodes))| ==>
      NonEmpty(Groups(nodes))[j] != [] && NoSeparator(NonEmpty(Groups(nodes))[j])
    ensures Flatten(NonEmpty(Groups(nodes))) == Content(nodes)
  {
    GroupsKeepContent(nodes);
    NonEmptyKeepsContent(Groups(nodes));
  }

  /** initialize.js: one step per separator, one more when the last group is not empty, and
      the steps' elements are exactly the parsed elements that are not separators, in order. */
  lemma InitStepsShape(nodes: seq<Block>)
    ensures |InitGroups(nodes)| == Separators(nodes) + (if Groups(nodes)[Separators(nodes)] != [] then 1 else 0)
    ensures Flatten(InitGroups(nodes)) == Content(nodes)
  {
    var g := Groups(nodes);
    GroupsKeepContent(nodes);
    var init := g[..|g| - 1];
    assert g == init + [g[|g| - 1]];
    if g[|g| - 1] != [] {
      assert InitGroups(nodes) == g;
    } else {
      assert InitGroups(nodes) == init;
      assert Flatten(g) == Flatten(init) + [];
    }
  }

  /** The two partitions differ only by the empty steps src/initialize.js keeps: dropping
      those gives the steps of the download page. */
  lemma PartitionsAgree(nodes: seq<Block>)
    ensures NonEmpty(InitGroups(nodes)) == NonEmpty(Groups(nodes))
  {
    var g := Groups(nodes);
    var init := g[..|g| - 1];
    var last := g[|g| - 1];
    assert g == init + [last];
    NonEmptySnoc(init, last);
    if last == [] {
      assert InitGroups(nodes) == init;
    } else {
      assert InitGroups(nodes) == g;
    }
  }

  /** Cutting quiet nodes at separators gives quiet groups. */
  lemma {:induction false} GroupsQuiet(nodes: seq<Block>)
    requires Quiet(nodes)
    ensures AllQuiet(Groups(nodes))
  {
    if nodes != [] {
      var prefix := nodes[..|nodes| - 1];
      var last := nodes[|nodes| - 1];
      QuietAppend(prefix, [last]);
      assert nodes == prefix + [last];
      GroupsQuiet(prefix);
      var g := Groups(prefix);
      if !last.SeparatorBlock? {
        QuietAppend(g[|g| - 1], [last]);
      }
    }
  }

  /** The code blocks of a page the parser built show only "" or "undefined", so every code
      text of every step of the download page, and of the page src/initialize.js builds, is
      idle. */
  lemma QuietSteps(nodes: seq<Block>, conds: Conditions)
    requires Quiet(nodes)
    ensures IdleSteps(WrapAll(NonEmpty(Groups(nodes)), conds))
    ensures IdleSteps(WrapAll(InitGroups(nodes), conds))
  {
    GroupsQuiet(nodes);
    var g := Groups(nodes);
    assert AllQuiet(NonEmpty(g)) by {
      forall j | 0 <= j < |NonEmpty(g)| ensures Quiet(NonEmpty(g)[j]) {
        var i :| 0 <= i < |g| && g[i] == NonEmpty(g)[j];
      }
    }
    QuietWrapAll(NonEmpty(g), conds);
    QuietWrapAll(InitGroups(nodes), conds);
  }
}
