/**
 * The block parser as the source runs it: `createShowif` and `parseSection` walk the lines of
 * a step held in an array, with a cursor the nested calls move, and `createShowif` rewrites its
 * header line in the array itself. Each method is proved to compute what the reference
 * definition in `BlockParser` says, and to leave the array holding the rewritten lines.
 */
module StepParser {

  import opened Wrappers
  import opened JsStrings
  import opened Seqs
  import opened Variables
  import opened Classifier
  import opened ScopeMatcher
  import opened Steps
  import opened ConstMacros
  import opened Questions
  import opened Blocks
  import opened CodeRunner
  import opened BlockParser

  /** `createShowif(i, step, contentContainer)` over the array `step`. A thrown exception is
      the `Err` result; the lines the array then holds are not specified. */
  method CreateShowif(env: Env, step: array<string>, vars: Registry, i: nat, parent: seq<Block>)
    returns (r: Result<Outcome>)
    requires i < step.Length && IsShowIfLine(step[i])
    modifies step
    ensures r == BlockParser.CreateShowif(env, old(step[..]), vars, i, parent)
    ensures r.Ok? ==> step[..] == r.value.lines
    decreases ShowIfCount(step[..]), 1
  {
    var end := FindBlockEnd(step[..], i);
    if end.None? {
      return Err(UnmatchedBrace);
    }
    StripDropsCount(step[..], i);
    step[i] := StripShowif(step[i]);
    r := ShowifRun(env, Trim(step[i]), end.value, step, ShowifState(vars, i, parent, [], "", false));
  }

  /** The `for (; i < end; i++)` loop of `createShowif`, from the given state. */
  method ShowifRun(env: Env, expr: string, end: nat, step: array<string>, start: ShowifState)
    returns (r: Result<Outcome>)
    requires end < step.Length
    modifies step
    ensures r == ShowifLoop(env, expr, end, old(step[..]), start)
    ensures r.Ok? ==> step[..] == r.value.lines
    decreases ShowIfCount(step[..]), 3
  {
    ghost var total := ShowifLoop(env, expr, end, step[..], start);
    var st := start;
    while st.i < end
      invariant ShowIfCount(step[..]) <= ShowIfCount(old(step[..]))
      invariant ShowifLoop(env, expr, end, step[..], st) == total
      decreases ShowIfCount(step[..]), if st.i <= step.Length then step.Length - st.i else 0
    {
      var turn;
      if Kind(env, step[st.i]) == ShowIfLine {
        turn := ShowifNested(env, expr, end, step, st);
      } else {
        turn := ShowifSwitch(env, expr, end, step, st);
      }
      if turn.Stop? {
        return turn.result;
      }
      st := turn.state;
    }
    var (emitted, _) := Flush(env, st.flag, st.saved);
    return Ok(Outcome(step[..], st.vars, st.parent + [Conditional(expr, st.inner + emitted)], st.i));
  }

  /** A conditional nested in a conditional: the buffer is flushed into the outer one's
      children, the inner one is parsed, and the loop goes on after the cursor it returns. */
  method ShowifNested(env: Env, expr: string, end: nat, step: array<string>, st: ShowifState)
    returns (turn: Turn<ShowifState>)
    requires end < step.Length && st.i < end && Kind(env, step[st.i]) == ShowIfLine
    modifies step
    ensures turn.Stop? ==> turn.result == ShowifNestedStep(env, expr, end, old(step[..]), st)
    ensures turn.Stop? && turn.result.Ok? ==> step[..] == turn.result.value.lines
    ensures turn.Next? ==> ShowIfCount(step[..]) < ShowIfCount(old(step[..]))
    ensures turn.Next? ==>
      ShowifLoop(env, expr, end, step[..], turn.state) == ShowifNestedStep(env, expr, end, old(step[..]), st)
    decreases ShowIfCount(step[..]), 2
  {
    ShowIfKind(env, step[st.i]);
    var (emitted, kept) := Flush(env, st.flag, st.saved);
    var nested := CreateShowif(env, step, st.vars, st.i, st.inner + emitted);
    if nested.Err? {
      return Stop(Err(nested.error));
    }
    var o := nested.value;
    if o.cursor == -1 && env.version == LegacyHalting {
      return Stop(Ok(Outcome(step[..], o.vars, st.parent + [Conditional(expr, o.blocks)], -1)));
    }
    return Next(ShowifState(o.vars, o.cursor + 1, st.parent, o.blocks, kept, false));
  }

  /** The `switch` of `createShowif`'s loop on a line that opens no nested conditional. Only
      a code block reads more than its own line: its end is searched for in the array. */
  method ShowifSwitch(env: Env, expr: string, end: nat, step: array<string>, st: ShowifState)
    returns (turn: Turn<ShowifState>)
    requires end < step.Length && st.i < end && Kind(env, step[st.i]) != ShowIfLine
    ensures turn.Stop? ==> turn.result == ShowifPlainStep(env, expr, end, step[..], st)
    ensures turn.Stop? && turn.result.Ok? ==> turn.result.value.lines == step[..]
    ensures turn.Next? ==> st.i < turn.state.i <= step.Length
    ensures turn.Next? ==>
      ShowifLoop(env, expr, end, step[..], turn.state) == ShowifPlainStep(env, expr, end, step[..], st)
  {
    if Kind(env, step[st.i]) == CodeStartLine {
      var flushed := Flush(env, st.flag, st.saved);
      var ran := CodeBlockAt(env, step, st.i, st.vars);
      if ran.Err? {
        turn := Stop(Err(ran.error));
      } else {
        turn := Next(st.(vars := ran.value.0, i := ran.value.1 + 1,
                         inner := st.inner + flushed.0 + [CodeBlock("undefined")], saved := flushed.1, flag := false));
      }
      CodeTurn(env, expr, step[..], st, ran, turn);
    } else {
      turn := ShowifTurn(env, expr, step[..], st);
    }
    PlainStepIs(env, expr, end, step[..], st, turn);
  }

  /** Helper: one turn of the `switch`, and then the loop unless the turn stops it. */
  lemma PlainStepIs(env: Env, expr: string, end: nat, lines: seq<string>, st: ShowifState, turn: Turn<ShowifState>)
    requires end < |lines| && st.i < end && Kind(env, lines[st.i]) != ShowIfLine
    requires turn == ShowifTurn(env, expr, lines, st)
    ensures turn.Stop? ==> ShowifPlainStep(env, expr, end, lines, st) == turn.result
    ensures turn.Next? ==> ShowifPlainStep(env, expr, end, lines, st) == ShowifLoop(env, expr, end, lines, turn.state)
  {
  }

  /** Helper: the code-block case of the `switch`. */
  lemma CodeTurn(env: Env, expr: string, lines: seq<string>, st: ShowifState, ran: Result<(Registry, nat)>,
                 turn: Turn<ShowifState>)
    requires st.i < |lines| && Kind(env, lines[st.i]) == CodeStartLine
    requires ran == RunCodeBlock(env, lines, st.i, st.vars)
    requires ran.Err? ==> turn == Stop(Err(ran.error))
    requires ran.Ok? ==> turn == Next(st.(vars := ran.value.0, i := ran.value.1 + 1,
      inner := st.inner + Flush(env, st.flag, st.saved).0 + [CodeBlock("undefined")],
      saved := Flush(env, st.flag, st.saved).1, flag := false))
    ensures turn == ShowifTurn(env, expr, lines, st)
  {
  }

  /** The `codeStartLine` case of both loops: the matching brace is searched for, and the
      lines up to it are joined and run. */
  method CodeBlockAt(env: Env, step: array<string>, i: nat, vars: Registry) returns (r: Result<(Registry, nat)>)
    requires i < step.Length
    ensures r == RunCodeBlock(env, step[..], i, vars)
  {
    var close := FindBlockEnd(step[..], i);
    if close.None? {
      return Err(UnmatchedBrace);
    }
    var ran := env.run(JoinToString(step[..], i, close.value), vars);
    if ran.Err? {
      return Err(ran.error);
    }
    return Ok((ran.value, close.value));
  }

  /** `parseSection(step, stepNumber, start, contentContainer, constVars)` over the array `step`,
      appending to a container whose children are `out`. */
  method ParseSection(env: Env, step: array<string>, stepNumber: int, start: nat, vars: Registry,
                      out: seq<Block>)
    returns (r: Result<Outcome>)
    modifies step
    ensures r == BlockParser.ParseSection(env, old(step[..]), stepNumber, start, vars, out)
    ensures r.Ok? ==> step[..] == r.value.lines
  {
    ghost var total := BlockParser.ParseSection(env, step[..], stepNumber, start, vars, out);
    var st := SectionState(vars, start, out, "", false, stepNumber);
    while st.i < step.Length
      invariant SectionLoop(env, step[..], st) == total
      decreases ShowIfCount(step[..]), if st.i <= step.Length then step.Length - st.i else 0
    {
      var turn;
      if Kind(env, step[st.i]) == ShowIfLine {
        turn := SectionNested(env, step, st);
      } else {
        turn := SectionSwitch(env, step, st);
      }
      if turn.Stop? {
        return turn.result;
      }
      st := turn.state;
    }
    var (emitted, _) := Flush(env, st.flag, st.saved);
    return Ok(Outcome(step[..], st.vars, st.out + emitted, st.i));
  }

  /** A conditional at the top level of a step: the buffer is flushed, the conditional is
      parsed, the older parser appends its extra empty container, and the loop goes on after
      the cursor the conditional returns. */
  method SectionNested(env: Env, step: array<string>, st: SectionState) returns (turn: Turn<SectionState>)
    requires st.i < step.Length && Kind(env, step[st.i]) == ShowIfLine
    modifies step
    ensures turn.Stop? ==> turn.result == SectionNestedStep(env, old(step[..]), st)
    ensures turn.Stop? && turn.result.Ok? ==> step[..] == turn.result.value.lines
    ensures turn.Next? ==> ShowIfCount(step[..]) < ShowIfCount(old(step[..]))
    ensures turn.Next? ==> SectionLoop(env, step[..], turn.state) == SectionNestedStep(env, old(step[..]), st)
  {
    ShowIfKind(env, step[st.i]);
    var (emitted, kept) := Flush(env, st.flag, st.saved);
    ghost var before := step[..];
    var nested := CreateShowif(env, step, st.vars, st.i, st.out + emitted);
    if nested.Err? {
      return Stop(Err(nested.error));
    }
    var o := nested.value;
    assert SectionNestedStep(env, before, st) == SectionAfterShowif(env, before, o, kept, st.stepNumber);
    return AfterShowifTurn(env, o, kept, st.stepNumber);
  }

  /** The `switch` of `parseSection`'s loop on a line that opens no conditional. */
  method SectionSwitch(env: Env, step: array<string>, st: SectionState) returns (turn: Turn<SectionState>)
    requires st.i < step.Length && Kind(env, step[st.i]) != ShowIfLine
    ensures turn.Stop? ==> turn.result == SectionPlainStep(env, step[..], st)
    ensures turn.Stop? && turn.result.Ok? ==> turn.result.value.lines == step[..]
    ensures turn.Next? ==> st.i < turn.state.i <= step.Length
    ensures turn.Next? ==> SectionLoop(env, step[..], turn.state) == SectionPlainStep(env, step[..], st)
  {
    if Kind(env, step[st.i]) == CodeStartLine {
      var flushed := Flush(env, st.flag, st.saved);
      var ran := CodeBlockAt(env, step, st.i, st.vars);
      if ran.Err? {
        turn := Stop(Err(ran.error));
      } else {
        turn := Next(st.(vars := ran.value.0, i := ran.value.1 + 1, out := st.out + flushed.0 + [CodeBlock("")],
                         saved := flushed.1, flag := false));
      }
      SectionCodeTurn(env, step[..], st, ran, turn);
    } else {
      turn := SectionTurn(env, step[..], st);
    }
    SectionStepIs(env, step[..], st, turn);
  }

  /** Helper: one turn of the `switch`, and then the loop unless the turn stops it. */
  lemma SectionStepIs(env: Env, lines: seq<string>, st: SectionState, turn: Turn<SectionState>)
    requires st.i < |lines| && Kind(env, lines[st.i]) != ShowIfLine
    requires turn == SectionTurn(env, lines, st)
    ensures turn.Stop? ==> SectionPlainStep(env, lines, st) == turn.result
    ensures turn.Next? ==> SectionPlainStep(env, lines, st) == SectionLoop(env, lines, turn.state)
  {
  }

  /** Helper: the code-block case of the `switch`. */
  lemma SectionCodeTurn(env: Env, lines: seq<string>, st: SectionState, ran: Result<(Registry, nat)>,
                        turn: Turn<SectionState>)
    requires st.i < |lines| && Kind(env, lines[st.i]) == CodeStartLine
    requires ran == RunCodeBlock(env, lines, st.i, st.vars)
    requires ran.Err? ==> turn == Stop(Err(ran.error))
    requires ran.Ok? ==> turn == Next(st.(vars := ran.value.0, i := ran.value.1 + 1,
      out := st.out + Flush(env, st.flag, st.saved).0 + [CodeBlock("")],
      saved := Flush(env, st.flag, st.saved).1, flag := false))
    ensures turn == SectionTurn(env, lines, st)
  {
  }

  /** `parser(steps, startIndex, textFile)`: the constants are read from the whole text, each
      step is cut into lines and parsed into the one container, and the loop stops after the
      first step whose `parseSection` returns 0, which gets the final Back button. */
  method Parser(version: Version, exec: CodeOracle, steps: seq<string>, startIndex: nat, textFile: string,
                variables: Registry)
    returns (r: Result<(Registry, seq<Block>)>)
    ensures r == ParseSteps(SourceEnv(version, ConstsFrom(textFile, 0, map[]), exec), Map(steps, StepLines),
                            startIndex, variables, [])
  {
    var consts := ConstVariableReader(textFile);
    var env := SourceEnv(version, consts, exec);
    var linesPerStep := Map(steps, StepLines);
    var current := variables;
    var children: seq<Block> := [];
    var index := startIndex;
    while index < |linesPerStep|
      invariant ParseSteps(env, linesPerStep, index, current, children) ==
        ParseSteps(env, linesPerStep, startIndex, variables, [])
      decreases |linesPerStep| - index
    {
      var lines := linesPerStep[index];
      var step := new string[|lines|](j requires 0 <= j < |lines| => lines[j]);
      assert step[..] == lines;
      var res := ParseSection(env, step, index, 0, current, children);
      if res.Err? {
        return Err(res.error);
      }
      if res.value.cursor == 0 {
        return Ok((res.value.vars, res.value.blocks + [BackButton]));
      }
      current, children := res.value.vars, res.value.blocks;
      index := index + 1;
    }
    return Ok((current, children));
  }
}
