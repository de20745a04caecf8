/**
 * The runtime script of a generated page (src/downloadPage.js, the same functions in
 * src/initialize.js): answers written into the variables object, the expression evaluator,
 * the conditions shown or hidden, the code blocks of the current step, and the pass that runs
 * the three after the page is built and after every step change.
 *
 * JavaScript evaluation is not modelled. `Evaluator` stands for `evaluateExpression`'s
 * `new Function` call: the truth of the expression's value, or `None` when the call throws.
 * `StepCode` stands for running a code block with `with (vars)`: the variables object after
 * the code ran, whether it finished or threw half-way.
 */
module PageRuntime {

  import opened Wrappers
  import opened JsStrings
  import opened Variables
  import opened InlineVariables
  import Blocks

  type Evaluator = (string, Registry) -> Option<bool>

  type StepCode = (string, Registry) -> Registry

  // ---------------------------------------------------------------------------
  // Answers
  // ---------------------------------------------------------------------------

  /** What the reader does: type into an input (its `name`, its `value`, and whether the
      browser's constraint validation accepts it), or click a button of a question block
      (the block's `data-var`, empty when absent, and the button's text). */
  datatype Answer = Typed(name: string, value: string, valid: bool) | Choice(dataVar: string, buttonText: string)

  function AnswerKey(a: Answer): string {
    match a
    case Typed(name, _, _) => name
    case Choice(dataVar, _) => dataVar
  }

  function AnswerText(a: Answer): string {
    match a
    case Typed(_, value, _) => value
    case Choice(_, buttonText) => buttonText
  }

  /** `handleInput` takes a value whose trimmed text is not empty and that the browser finds
      valid; a question block without a `data-var` gets no click handler. */
  predicate Accepted(a: Answer) {
    match a
    case Typed(_, value, valid) => Trim(value) != "" && valid
    case Choice(dataVar, _) => dataVar != ""
  }

  /** `handleInput(input)` and the click handler of `initializeQuestionButtons`: an accepted
      answer for a name the variables object already has replaces that variable's value with
      the answer's text, untrimmed; nothing else changes and no variable is added. */
  function Answered(vars: Registry, a: Answer): (r: Registry)
    ensures r.Keys == vars.Keys
    ensures forall k :: k in vars && k != AnswerKey(a) ==> r[k] == vars[k]
    ensures AnswerKey(a) in vars && Accepted(a) ==> r[AnswerKey(a)] == Str(AnswerText(a))
    ensures !Accepted(a) ==> r == vars
  {
    if Accepted(a) && AnswerKey(a) in vars then vars[AnswerKey(a) := Str(AnswerText(a))] else vars
  }

  /** The answers in the order the reader gives them. */
  function AnsweredAll(vars: Registry, answers: seq<Answer>): Registry
    decreases |answers|
  {
    if answers == [] then vars else AnsweredAll(Answered(vars, answers[0]), answers[1..])
  }

  /** However many answers are given, the variables object keeps exactly its names. */
  lemma {:induction false} AnswersKeepNames(vars: Registry, answers: seq<Answer>)
    ensures AnsweredAll(vars, answers).Keys == vars.Keys
    decreases |answers|
  {
    if answers != [] {
      AnswersKeepNames(Answered(vars, answers[0]), answers[1..]);
    }
  }

  /** A variable no answer names keeps its value. */
  lemma {:induction false} UnansweredKept(vars: Registry, answers: seq<Answer>, k: string)
    requires k in vars && forall j :: 0 <= j < |answers| ==> AnswerKey(answers[j]) != k
    ensures k in AnsweredAll(vars, answers) && AnsweredAll(vars, answers)[k] == vars[k]
    decreases |answers|
  {
    if answers != [] {
      UnansweredKept(Answered(vars, answers[0]), answers[1..], k);
    }
  }

  /** The last accepted answer for a variable is the value it keeps. */
  lemma {:induction false} LastAnswerWins(vars: Registry, answers: seq<Answer>, j: nat)
    requires j < |answers| && AnswerKey(answers[j]) in vars && Accepted(answers[j])
    requires forall m :: j < m < |answers| ==> AnswerKey(answers[m]) != AnswerKey(answers[j])
    ensures AnswerKey(answers[j]) in AnsweredAll(vars, answers)
    ensures AnsweredAll(vars, answers)[AnswerKey(answers[j])] == Str(AnswerText(answers[j]))
    decreases j
  {
    AnswersKeepNames(vars, answers);
    var a := answers[j];
    if j == 0 {
      var after := Answered(vars, a);
      assert forall m :: 0 <= m < |answers[1..]| ==> AnswerKey(answers[1..][m]) != AnswerKey(a);
      UnansweredKept(after, answers[1..], AnswerKey(a));
    } else {
      assert answers[1..][j - 1] == a;
      LastAnswerWins(Answered(vars, answers[0]), answers[1..], j - 1);
    }
  }

  /** The variables object a downloaded page starts from: the compiler's, written into the
      page by `JSON.stringify`, which leaves out every variable whose value is `undefined`.
      The other values keep what the model carries of them. */
  function PageVariables(vars: Registry): (r: Registry)
    ensures forall k :: k in r <==> k in vars && vars[k] != Undefined
    ensures forall k :: k in r ==> r[k] == vars[k]
  {
    map k | k in vars && vars[k] != Undefined :: vars[k]
  }

  /** So on a downloaded page an answer for a variable declared without a value (`let x;`),
      which the compiler still asks about, is skipped: the page has no such variable. */
  lemma UndefinedAnswerSkipped(vars: Registry, a: Answer)
    requires AnswerKey(a) in vars && vars[AnswerKey(a)] == Undefined
    ensures Answered(PageVariables(vars), a) == PageVariables(vars)
  {
  }

  /** An accepted answer for any other variable of the compiler is taken by the page. */
  lemma DefinedAnswerTaken(vars: Registry, a: Answer)
    requires AnswerKey(a) in vars && vars[AnswerKey(a)] != Undefined && Accepted(a)
    ensures AnswerKey(a) in Answered(PageVariables(vars), a)
    ensures Answered(PageVariables(vars), a)[AnswerKey(a)] == Str(AnswerText(a))
  {
  }

  // ---------------------------------------------------------------------------
  // evaluateExpression and executeShowIf
  // ---------------------------------------------------------------------------

  /** `evaluateExpression(expr, variables)`: true exactly when the trimmed expression is not
      empty and evaluates, without throwing, to a truthy value. */
  function EvaluateExpression(eval: Evaluator, expr: string, vars: Registry): (r: bool)
    ensures r <==> Trim(expr) != "" && eval(Trim(expr), vars) == Some(true)
  {
    if Trim(expr) == "" then false
    else
      match eval(Trim(expr), vars)
      case None => false
      case Some(b) => b
  }

  /** A conditional block of the page: its `data-expression`, and whether the step that holds
      it is displayed (false when it sits in no step). */
  datatype IfBlock = IfBlock(expression: string, stepShown: bool)

  /** Whether the conditional is displayed after `executeShowIf`, given whether it was. */
  function ShownAfter(eval: Evaluator, b: IfBlock, vars: Registry, was: bool): (r: bool)
    ensures !b.stepShown || Trim(b.expression) == "" ==> r == was
    ensures b.stepShown && Trim(b.expression) != "" ==> r == EvaluateExpression(eval, Trim(b.expression), vars)
  {
    if b.stepShown && Trim(b.expression) != "" then EvaluateExpression(eval, Trim(b.expression), vars) else was
  }

  /** `executeShowIf(variables)` over the page's conditional blocks: each block of a displayed
      step with a non-blank expression is shown exactly when the expression holds; the others
      keep their display. */
  method ExecuteShowIf(eval: Evaluator, blocks: seq<IfBlock>, shown: array<bool>, vars: Registry)
    requires shown.Length == |blocks|
    modifies shown
    ensures forall k :: 0 <= k < |blocks| ==> shown[k] == ShownAfter(eval, blocks[k], vars, old(shown[k]))
  {
    var k := 0;
    while k < |blocks|
      invariant 0 <= k <= |blocks|
      invariant forall j :: 0 <= j < k ==> shown[j] == ShownAfter(eval, blocks[j], vars, old(shown[j]))
      invariant forall j :: k <= j < |blocks| ==> shown[j] == old(shown[j])
    {
      var expr := Trim(blocks[k].expression);
      if blocks[k].stepShown && expr != "" {
        shown[k] := EvaluateExpression(eval, expr, vars);
      }
      k := k + 1;
    }
  }

  /** The display the conditions settle on does not depend on the display before, except for
      blocks the pass skips: a second evaluation with the same variables changes nothing. */
  lemma ShowIfSettles(eval: Evaluator, b: IfBlock, vars: Registry, was: bool)
    ensures ShownAfter(eval, b, vars, ShownAfter(eval, b, vars, was)) == ShownAfter(eval, b, vars, was)
    ensures b.stepShown && Trim(b.expression) != "" ==>
      forall other :: ShownAfter(eval, b, vars, other) == ShownAfter(eval, b, vars, was)
  {
  }

  // ---------------------------------------------------------------------------
  // executeCodeBlocks
  // ---------------------------------------------------------------------------

  /** The variables after the code blocks `codes` ran in order, blank ones skipped. */
  function RunAll(run: StepCode, codes: seq<string>, vars: Registry): Registry
    decreases |codes|
  {
    if codes == [] then vars
    else
      var last := codes[|codes| - 1];
      var before := RunAll(run, codes[..|codes| - 1], vars);
      if Trim(last) == "" then before else run(Trim(last), before)
  }

  /** `executeCodeBlocks(variables)` on the text of the code blocks of the current step: each
      non-blank text, trimmed, runs on the variables the previous ones left. */
  method ExecuteCodeBlocks(run: StepCode, codes: seq<string>, vars: Registry) returns (after: Registry)
    ensures after == RunAll(run, codes, vars)
  {
    after := vars;
    var k := 0;
    while k < |codes|
      invariant 0 <= k <= |codes|
      invariant after == RunAll(run, codes[..k], vars)
    {
      assert codes[..k + 1][..k] == codes[..k];
      var userCode := Trim(codes[k]);
      if userCode != "" {
        after := run(userCode, after);
      }
      k := k + 1;
    }
    assert codes[..k] == codes;
  }

  /** Running the blocks of two lists is running the second list on what the first left. */
  lemma {:induction false} RunAllAppend(run: StepCode, a: seq<string>, b: seq<string>, vars: Registry)
    ensures RunAll(run, a + b, vars) == RunAll(run, b, RunAll(run, a, vars))
    decreases |b|
  {
    if b == [] {
      assert a + b == a;
    } else {
      assert (a + b)[..|a + b| - 1] == a + b[..|b| - 1];
      RunAllAppend(run, a, b[..|b| - 1], vars);
    }
  }

  /** A step whose code blocks are all blank leaves the variables as they are. */
  lemma {:induction false} BlankCodeRunsNothing(run: StepCode, codes: seq<string>, vars: Registry)
    requires forall k :: 0 <= k < |codes| ==> Trim(codes[k]) == ""
    ensures RunAll(run, codes, vars) == vars
    decreases |codes|
  {
    if codes != [] {
      BlankCodeRunsNothing(run, codes[..|codes| - 1], vars);
    }
  }

  /** `undefined` as a statement: JavaScript evaluates the name and changes nothing. This is
      what the runtime runs for a code block inside a conditional, whose `innerHTML` was set to
      the missing return value of `runUserCode`. */
  ghost predicate IdleOnUndefined(run: StepCode) {
    forall v :: run("undefined", v) == v
  }

  /** A step whose code blocks show only "" or "undefined", the only texts the parser leaves in
      them, leaves the variables as they are, however often it is run. */
  lemma {:induction false} IdleCodeRunsNothing(run: StepCode, codes: seq<string>, vars: Registry)
    requires IdleOnUndefined(run)
    requires forall c :: c in codes ==> Blocks.IdleText(c)
    ensures RunAll(run, codes, vars) == vars
    decreases |codes|
  {
    if codes != [] {
      var init, last := codes[..|codes| - 1], codes[|codes| - 1];
      assert forall c :: c in init ==> c in codes;
      IdleCodeRunsNothing(run, init, vars);
      assert last in codes;
      TrimOfTrimmed("undefined");
      if last == "undefined" {
        assert run(Trim(last), vars) == vars;
      }
    }
  }

  // ---------------------------------------------------------------------------
  // The pass after the page is built and after each step change
  // ---------------------------------------------------------------------------

  /** `executeCodeBlocks`, `updateInlineVariables`, `executeShowIf`, in this order: the
      placeholders and the conditions see the variables the code blocks left. */
  method RuntimePass(run: StepCode, eval: Evaluator, codes: seq<string>,
                     texts: array<string>, cache: array<Option<string>>, slot: seq<nat>, visits: seq<nat>,
                     blocks: seq<IfBlock>, shown: array<bool>, vars: Registry)
    returns (after: Registry)
    requires Fits(Page(texts[..], cache[..]), slot) && Visits(Page(texts[..], cache[..]), visits)
    requires shown.Length == |blocks|
    modifies texts, cache, shown
    ensures after == RunAll(run, codes, vars)
    ensures Page(texts[..], cache[..]) == Pass(Page(old(texts[..]), old(cache[..])), slot, visits, after)
    ensures forall k :: 0 <= k < |blocks| ==> shown[k] == ShownAfter(eval, blocks[k], after, old(shown[k]))
  {
    after := ExecuteCodeBlocks(run, codes, vars);
    UpdateInlineVariables(texts, cache, slot, visits, after);
    ExecuteShowIf(eval, blocks, shown, after);
  }
}
