/**
 * `initializeNavigation` and `setupRepeatStepNavigation` of the page runtime
 * (src/downloadPage.js): the reader moves between steps with Back and Next, and the steps
 * visited so far are kept on a stack. A step with a repeat condition lets Next through only
 * when the condition holds; otherwise the step is run again.
 */
module Navigation {

  import opened Wrappers
  import opened JsStrings
  import opened Variables
  import opened InlineVariables
  import opened PageRuntime
  import StepAssembly
  import BlockParser

  /** The steps from the first up to `n`, in order. */
  function Path(n: nat): (r: seq<nat>)
    ensures |r| == n + 1 && forall k :: 0 <= k < |r| ==> r[k] == k
  {
    if n == 0 then [0] else Path(n - 1) + [n]
  }

  /** The state of `initializeNavigation`: the step shown last and the stack of visited steps. */
  class Navigator {
    var currentStep: nat
    var visitedSteps: seq<nat>
    /** `getTotalSteps()`: the page's steps do not change once it is built. */
    const totalSteps: nat

    /** Next moves one step on and Back one step back, so the stack always holds every step
        from the first to the current one. */
    ghost predicate Valid()
      reads this
    {
      visitedSteps == Path(currentStep) && (currentStep == 0 || currentStep < totalSteps)
    }

    /** `let currentStep = 0; const visitedSteps = [0];` */
    constructor(totalSteps: nat)
      ensures Valid() && this.totalSteps == totalSteps
      ensures currentStep == 0 && visitedSteps == [0]
    {
      this.totalSteps := totalSteps;
      currentStep := 0;
      visitedSteps := [0];
    }

    /** `appendNavButtons` adds Back when the stack holds more than one step. */
    predicate BackOffered()
      reads this
    {
      |visitedSteps| > 1
    }

    /** `appendNavButtons` adds Next when the step shows no end and is not the last one. */
    predicate NextOffered(isEndStep: bool)
      reads this
    {
      !isEndStep && currentStep < totalSteps - 1
    }

    /** Back: the stack is popped and its new top becomes the current step. */
    method Back()
      requires Valid() && BackOffered()
      modifies this
      ensures Valid()
      ensures visitedSteps == old(visitedSteps)[..|old(visitedSteps)| - 1]
      ensures currentStep == old(currentStep) - 1
    {
      visitedSteps := visitedSteps[..|visitedSteps| - 1];
      currentStep := visitedSteps[|visitedSteps| - 1];
    }

    /** Next: the following step becomes the current one and is pushed on the stack. */
    method Next(isEndStep: bool)
      requires Valid() && NextOffered(isEndStep)
      modifies this
      ensures Valid()
      ensures currentStep == old(currentStep) + 1
      ensures visitedSteps == old(visitedSteps) + [currentStep]
    {
      currentStep := currentStep + 1;
      visitedSteps := visitedSteps + [currentStep];
    }
  }

  /** Back is offered exactly away from the first step, and Next exactly before the last one
      when the step shows no end. */
  lemma OfferedButtons(nav: Navigator, isEndStep: bool)
    requires nav.Valid()
    ensures nav.BackOffered() <==> nav.currentStep > 0
    ensures nav.NextOffered(isEndStep) <==> !isEndStep && nav.currentStep + 1 < nav.totalSteps
  {
  }

  /** Next and then Back leave the reader where they were. */
  method NextThenBack(nav: Navigator, isEndStep: bool)
    requires nav.Valid() && nav.NextOffered(isEndStep)
    modifies nav
    ensures nav.Valid()
    ensures nav.currentStep == old(nav.currentStep) && nav.visitedSteps == old(nav.visitedSteps)
  {
    nav.Next(isEndStep);
    nav.Back();
  }

  /** The capture listener of `setupRepeatStepNavigation`: Next goes through when the step
      has no `data-repeat-step-until` (absent is the empty text) or its expression holds. */
  function PassesGate(eval: Evaluator, until: string, vars: Registry): (r: bool)
    ensures until == "" ==> r
    ensures until != "" && Trim(until) == "" ==> !r
    ensures until != "" ==> (r <==> Trim(until) != "" && eval(Trim(until), vars) == Some(true))
  {
    until == "" || EvaluateExpression(eval, until, vars)
  }

  /** A click on Next. When the gate lets it through, the Next handler moves on and runs the
      new step's pass; otherwise the listener stops the event, clears the step's inputs (the
      variables keep the answers) and runs the pass of the same step again, so its code
      blocks run once more on the variables; when they hold only idle texts, as on a page
      the parser built (`GeneratedCodesIdle`), that changes no variable. `stepCodes[s]` is the
      text of step `s`'s code blocks, and `blocks` says which conditionals sit in a displayed
      step afterwards. */
  method ClickNext(nav: Navigator, isEndStep: bool, until: string, eval: Evaluator, run: StepCode,
                   stepCodes: seq<seq<string>>, texts: array<string>, cache: array<Option<string>>,
                   slot: seq<nat>, visits: seq<nat>, blocks: seq<IfBlock>, shown: array<bool>, vars: Registry)
    returns (advanced: bool, after: Registry)
    requires nav.Valid() && nav.NextOffered(isEndStep) && |stepCodes| == nav.totalSteps
    requires Fits(Page(texts[..], cache[..]), slot) && Visits(Page(texts[..], cache[..]), visits)
    requires shown.Length == |blocks|
    modifies nav, texts, cache, shown
    ensures advanced == PassesGate(eval, until, vars)
    ensures nav.Valid()
    ensures advanced ==> nav.currentStep == old(nav.currentStep) + 1 &&
                         nav.visitedSteps == old(nav.visitedSteps) + [nav.currentStep]
    ensures !advanced ==> nav.currentStep == old(nav.currentStep) && nav.visitedSteps == old(nav.visitedSteps)
    ensures after == RunAll(run, stepCodes[nav.currentStep], vars)
    ensures IdleOnUndefined(run) && (forall c :: c in stepCodes[nav.currentStep] ==> Blocks.IdleText(c)) ==>
      after == vars
    ensures Page(texts[..], cache[..]) == Pass(Page(old(texts[..]), old(cache[..])), slot, visits, after)
    ensures forall k :: 0 <= k < |blocks| ==> shown[k] == ShownAfter(eval, blocks[k], after, old(shown[k]))
  {
    advanced := PassesGate(eval, until, vars);
    if advanced {
      nav.Next(isEndStep);
    }
    after := RuntimePass(run, eval, stepCodes[nav.currentStep], texts, cache, slot, visits, blocks, shown, vars);
    if IdleOnUndefined(run) && (forall c :: c in stepCodes[nav.currentStep] ==> Blocks.IdleText(c)) {
      IdleCodeRunsNothing(run, stepCodes[nav.currentStep], vars);
    }
  }

  /** The code texts the runtime reads on a page built from the parser's output: those of the
      download page's steps and those of the steps src/initialize.js builds. Every one is ""
      or "undefined", so on such a page a click the repeat gate stops runs the step again and
      changes no variable (`ClickNext` with these texts as `stepCodes`). */
  lemma GeneratedCodesIdle(env: BlockParser.Env, steps: seq<seq<string>>, vars0: Registry,
                           parsed: (Registry, seq<Blocks.Block>), conds: StepAssembly.Conditions)
    requires BlockParser.ParseSteps(env, steps, 0, vars0, []) == Ok(parsed)
    ensures forall s, c :: 0 <= s < |DownloadCodes(parsed.1, conds)| && c in DownloadCodes(parsed.1, conds)[s] ==>
      Blocks.IdleText(c)
    ensures forall s, c :: 0 <= s < |InitCodes(parsed.1, conds)| && c in InitCodes(parsed.1, conds)[s] ==>
      Blocks.IdleText(c)
  {
    assert Blocks.Quiet([]);
    StepAssembly.QuietSteps(parsed.1, conds);
  }

  /** `stepCodes` of the download page built from the parsed elements `nodes`. */
  function DownloadCodes(nodes: seq<Blocks.Block>, conds: StepAssembly.Conditions): seq<seq<string>>
  {
    StepAssembly.CodesOf(StepAssembly.WrapAll(StepAssembly.NonEmpty(StepAssembly.Groups(nodes)), conds))
  }

  /** `stepCodes` of the page src/initialize.js builds from the parsed elements `nodes`. */
  function InitCodes(nodes: seq<Blocks.Block>, conds: StepAssembly.Conditions): seq<seq<string>>
  {
    StepAssembly.CodesOf(StepAssembly.WrapAll(StepAssembly.InitGroups(nodes), conds))
  }

  /** `initializePage()`: only the first step is displayed, and the pass runs on the code
      blocks of the last displayed step, which is the first one; a page without steps runs
      none. The navigation starts on the first step. On a downloaded page, `vars` is
      `PageVariables` of the compiler's variables. */
  method InitializePage(eval: Evaluator, run: StepCode, stepCodes: seq<seq<string>>, displayed: array<bool>,
                        texts: array<string>, cache: array<Option<string>>, slot: seq<nat>, visits: seq<nat>,
                        blocks: seq<IfBlock>, shown: array<bool>, vars: Registry)
    returns (nav: Navigator, after: Registry)
    requires displayed.Length == |stepCodes| && displayed != shown
    requires Fits(Page(texts[..], cache[..]), slot) && Visits(Page(texts[..], cache[..]), visits)
    requires shown.Length == |blocks|
    modifies displayed, texts, cache, shown
    ensures fresh(nav) && nav.Valid() && nav.currentStep == 0 && nav.totalSteps == |stepCodes|
    ensures forall i :: 0 <= i < displayed.Length ==> (displayed[i] <==> i == 0)
    ensures after == RunAll(run, if stepCodes == [] then [] else stepCodes[0], vars)
    ensures IdleOnUndefined(run) && (forall s, c :: 0 <= s < |stepCodes| && c in stepCodes[s] ==> Blocks.IdleText(c)) ==>
      after == vars
    ensures Page(texts[..], cache[..]) == Pass(Page(old(texts[..]), old(cache[..])), slot, visits, after)
    ensures forall k :: 0 <= k < |blocks| ==> shown[k] == ShownAfter(eval, blocks[k], after, old(shown[k]))
  {
    nav := new Navigator(|stepCodes|);
    StepAssembly.ShowFirstStep(displayed);
    var codes := if stepCodes == [] then [] else stepCodes[0];
    after := RuntimePass(run, eval, codes, texts, cache, slot, visits, blocks, shown, vars);
    if IdleOnUndefined(run) && (forall s, c :: 0 <= s < |stepCodes| && c in stepCodes[s] ==> Blocks.IdleText(c)) {
      IdleCodeRunsNothing(run, codes, vars);
    }
  }
}
