/**
 * The block parser: `parseSection`, the recursive `createShowif` and the `parser` loop over the
 * steps, in the two versions the repository carries (src/parser.js and the older parser.js).
 *
 * A step is an array of lines. The parser walks it with a cursor shared with the nested calls,
 * buffers text, appends blocks to a container and rewrites each conditional's header line in
 * place. Here the containers are sequences of blocks, and the functions below are the
 * reference definition; the methods at the end walk an `array<string>` as the source does and
 * are proved to compute what the functions say.
 *
 * `Version` selects the behaviour of each version where they differ; `LegacyHalting` is the
 * older parser with the return value -1 of a conditional honoured as the end of the step.
 */
module BlockParser {

  import opened Wrappers
  import opened JsStrings
  import opened Seqs
  import opened Variables
  import opened Classifier
  import opened ScopeMatcher
  import opened Steps
  import opened ConstMacros
  import opened Questions
  import opened Blocks
  import opened CodeRunner

  datatype Version = Current | Legacy | LegacyHalting

  /** The two operations the parser imports from other files: `runUserCode` of
      codeExecution.js and `questionParsing`. */
  type Runner = (string, Registry) -> Result<Registry>
  type Asker = (string, Registry) -> Result<Option<Question>>

  /** What a parse reads and never changes: the version, the constant macros of the page, and
      the code runner and question parser it calls. */
  datatype Env = Env(version: Version, consts: ConstMap, run: Runner, ask: Asker)

  /** The environment of the repository's own parser: code blocks run by `runUserCode` over
      the JavaScript evaluator `exec`, and questions read by `questionParsing`. */
  function SourceEnv(version: Version, consts: ConstMap, exec: CodeOracle): (env: Env)
    ensures forall code, vars :: env.run(code, vars) == RunUserCode(code, vars, exec)
    ensures forall line, vars :: env.ask(line, vars) == QuestionParsing(line, vars)
    ensures env.version == version && env.consts == consts
  {
    Env(version, consts, (code, vars) => RunUserCode(code, vars, exec), QuestionParsing)
  }

  /** What a parse leaves behind: the step's lines with the conditional headers rewritten, the
      variables, the children of the container it appended to, and the cursor it returns. */
  datatype Outcome = Outcome(lines: seq<string>, vars: Registry, blocks: seq<Block>, cursor: int)

  /** The text the older parser shows for `{end}`. */
  const EndText := "End of procedure"

  /** `classifyLine` of the version. */
  function Kind(env: Env, line: string): LineKind
  {
    Classify(line, env.version == Current)
  }

  /** `appendText` of the version. */
  function Flush(env: Env, flag: bool, saved: string): (seq<Block>, string)
  {
    if env.version == Current then AppendText(flag, saved) else LegacyAppendText(flag, saved)
  }

  /** What `questionParsing` appends: the widget, if the question's name is a variable. */
  function Asked(q: Option<Question>): seq<Block>
  {
    if q.Some? then [QuestionBlock(q.value)] else []
  }

  /** What a styled line appends: nothing when its pattern fails; at the top level the text
      also has its constants substituted. */
  function Styled(env: Env, line: string, topLevel: bool): seq<Block>
  {
    match StyledParts(Trim(line))
    case None => []
    case Some((key, text)) =>
      [StyledBlock(key, if topLevel then ReplaceConstVars(text, env.consts) else text)]
  }

  /** `classifyLine` of either version finds the same conditional headers. */
  lemma ShowIfKind(env: Env, line: string)
    ensures (Kind(env, line) == ShowIfLine) == IsShowIfLine(line)
  {
  }

  /** The variables of `createShowif`'s loop: the cursor, the parent's children, the
      conditional's own children, and the text buffer with its flag. */
  datatype ShowifState =
    ShowifState(vars: Registry, i: nat, parent: seq<Block>, inner: seq<Block>, saved: string, flag: bool)

  /** The variables of `parseSection`'s loop: the cursor, the container's children, the text
      buffer with its flag, and the index the next separator records. */
  datatype SectionState =
    SectionState(vars: Registry, i: nat, out: seq<Block>, saved: string, flag: bool, stepNumber: int)

  /** One turn of a loop on a line that opens no conditional: the loop goes on from the next
      state, or the call ends with the given result. */
  datatype Turn<S> = Next(state: S) | Stop(result: Result<Outcome>)

  /** A code block that starts on line `i`: its lines up to the one where its braces close are
      joined and run; the result is the new variables and the closing line, where the loop
      goes on. An unclosed block throws. */
  function RunCodeBlock(env: Env, lines: seq<string>, i: nat, vars: Registry): (r: Result<(Registry, nat)>)
    requires i < |lines|
    ensures r.Ok? ==> i <= r.value.1 < |lines| && BlockEnd(lines, i) == Some(r.value.1)
    ensures BlockEnd(lines, i).None? ==> r == Err(UnmatchedBrace)
  {
    match BlockEnd(lines, i)
    case None => Err(UnmatchedBrace)
    case Some(e) =>
      match env.run(JoinToString(lines, i, e), vars)
      case Err(err) => Err(err)
      case Ok(next) => Ok((next, e))
  }

  // ---------------------------------------------------------------------------
  // createShowif
  // ---------------------------------------------------------------------------

  /** `createShowif(i, step, contentContainer)`: the body of the conditional whose header is
      line `i` runs up to the line where its braces close. The header is rewritten without
      `showif` and braces, and what remains, trimmed, is the expression. */
  function CreateShowif(env: Env, lines: seq<string>, vars: Registry, i: nat, parent: seq<Block>)
    : (r: Result<Outcome>)
    requires i < |lines| && IsShowIfLine(lines[i])
    ensures r.Ok? ==> |r.value.lines| == |lines| && ShowIfCount(r.value.lines) < ShowIfCount(lines)
    ensures r.Ok? ==> HeadersRewritten(lines, r.value.lines) && r.value.lines[i] == StripShowif(lines[i])
    ensures r.Ok? ==> r.value.cursor >= -1
    ensures r.Ok? && Quiet(parent) ==> Quiet(r.value.blocks)
    decreases ShowIfCount(lines), 1, 0, 0
  {
    match BlockEnd(lines, i)
    case None => Err(UnmatchedBrace)
    case Some(end) =>
      StripDropsCount(lines, i);
      StrippedHeaderOpensNothing(lines[i]);
      RewritesCompose(lines, lines[i := StripShowif(lines[i])]);
      var header := StripShowif(lines[i]);
      ShowifLoop(env, Trim(header), end, lines[i := header], ShowifState(vars, i, parent, [], "", false))
  }

  /** The `for (; i < end; i++)` loop of `createShowif` from the given state. */
  function ShowifLoop(env: Env, expr: string, end: nat, lines: seq<string>, st: ShowifState)
    : (r: Result<Outcome>)
    requires end < |lines|
    ensures r.Ok? ==> HeadersRewritten(lines, r.value.lines)
    ensures r.Ok? ==> |r.value.lines| == |lines| && ShowIfCount(r.value.lines) <= ShowIfCount(lines)
    ensures r.Ok? ==> r.value.cursor >= -1
    ensures r.Ok? && Quiet(st.parent) && Quiet(st.inner) ==> Quiet(r.value.blocks)
    decreases ShowIfCount(lines), 2, if st.i <= |lines| then |lines| - st.i else 0, 3
  {
    if st.i >= end then Ok(CloseShowif(env, expr, lines, st)) else ShowifBody(env, expr, end, lines, st)
  }

  /** The loop's body on line `i`: a nested conditional or one turn of the `switch`. */
  function ShowifBody(env: Env, expr: string, end: nat, lines: seq<string>, st: ShowifState)
    : (r: Result<Outcome>)
    requires end < |lines| && st.i < end
    ensures r.Ok? ==> HeadersRewritten(lines, r.value.lines)
    ensures r.Ok? ==> |r.value.lines| == |lines| && ShowIfCount(r.value.lines) <= ShowIfCount(lines)
    ensures r.Ok? ==> r.value.cursor >= -1
    ensures r.Ok? && Quiet(st.parent) && Quiet(st.inner) ==> Quiet(r.value.blocks)
    decreases ShowIfCount(lines), 2, if st.i <= |lines| then |lines| - st.i else 0, 2
  {
    if Kind(env, lines[st.i]) == ShowIfLine then ShowifNestedStep(env, expr, end, lines, st)
    else ShowifPlainStep(env, expr, end, lines, st)
  }

  /** A nested conditional: the buffer is flushed into the outer conditional's children, the
      inner one is parsed into them, and the loop goes on after the cursor it returns. With
      the -1 of a `{end}` honoured, the outer conditional stops there too. */
  function ShowifNestedStep(env: Env, expr: string, end: nat, lines: seq<string>, st: ShowifState)
    : (r: Result<Outcome>)
    requires end < |lines| && st.i < end && Kind(env, lines[st.i]) == ShowIfLine
    ensures r.Ok? ==> HeadersRewritten(lines, r.value.lines)
    ensures r.Ok? ==> |r.value.lines| == |lines| && ShowIfCount(r.value.lines) <= ShowIfCount(lines)
    ensures r.Ok? ==> r.value.cursor >= -1
    ensures r.Ok? && Quiet(st.parent) && Quiet(st.inner) ==> Quiet(r.value.blocks)
    decreases ShowIfCount(lines), 2, if st.i <= |lines| then |lines| - st.i else 0, 1
  {
    ShowIfKind(env, lines[st.i]);
    var (emitted, kept) := Flush(env, st.flag, st.saved);
    match CreateShowif(env, lines, st.vars, st.i, st.inner + emitted)
    case Err(e) => Err(e)
    case Ok(o) => ShowifAfterNested(env, expr, end, lines, st, o, kept)
  }

  /** After the nested conditional `o`, with `kept` left in the buffer: with the -1 of a
      `{end}` honoured, the outer conditional stops there too; otherwise the loop goes on
      after the cursor. */
  function ShowifAfterNested(env: Env, expr: string, end: nat, lines: seq<string>, st: ShowifState,
                             o: Outcome, kept: string)
    : (r: Result<Outcome>)
    requires end < |lines| && HeadersRewritten(lines, o.lines) && ShowIfCount(o.lines) < ShowIfCount(lines)
    requires o.cursor >= -1
    ensures r.Ok? ==> HeadersRewritten(lines, r.value.lines)
    ensures r.Ok? ==> |r.value.lines| == |lines| && ShowIfCount(r.value.lines) <= ShowIfCount(lines)
    ensures r.Ok? ==> r.value.cursor >= -1
    ensures r.Ok? && Quiet(st.parent) && Quiet(o.blocks) ==> Quiet(r.value.blocks)
    decreases ShowIfCount(lines), 2, if st.i <= |lines| then |lines| - st.i else 0, 0
  {
    RewritesCompose(lines, o.lines);
    if o.cursor == -1 && env.version == LegacyHalting then
      Ok(Outcome(o.lines, o.vars, st.parent + [Conditional(expr, o.blocks)], -1))
    else
      ShowifLoop(env, expr, end, o.lines, ShowifState(o.vars, o.cursor + 1, st.parent, o.blocks, kept, false))
  }

  /** Any other line: one turn of the `switch`, then the loop goes on unless the turn ends it. */
  function ShowifPlainStep(env: Env, expr: string, end: nat, lines: seq<string>, st: ShowifState)
    : (r: Result<Outcome>)
    requires end < |lines| && st.i < end && Kind(env, lines[st.i]) != ShowIfLine
    ensures r.Ok? ==> HeadersRewritten(lines, r.value.lines)
    ensures r.Ok? ==> |r.value.lines| == |lines| && ShowIfCount(r.value.lines) <= ShowIfCount(lines)
    ensures r.Ok? ==> r.value.cursor >= -1
    ensures r.Ok? && Quiet(st.parent) && Quiet(st.inner) ==> Quiet(r.value.blocks)
    decreases ShowIfCount(lines), 2, if st.i <= |lines| then |lines| - st.i else 0, 1
  {
    ShowifTurnQuiet(env, expr, lines, st);
    match ShowifTurn(env, expr, lines, st)
    case Stop(r) => r
    case Next(next) => ShowifLoop(env, expr, end, lines, next)
  }

  /** After the loop: the buffer is flushed into the conditional, which is appended to the
      parent, and the cursor is returned. */
  function CloseShowif(env: Env, expr: string, lines: seq<string>, st: ShowifState): Outcome
  {
    Outcome(lines, st.vars, st.parent + [Conditional(expr, st.inner + Flush(env, st.flag, st.saved).0)], st.i)
  }

  /** The `switch` of `createShowif`'s loop on a line that opens no nested conditional. */
  function ShowifTurn(env: Env, expr: string, lines: seq<string>, st: ShowifState): (r: Turn<ShowifState>)
    requires st.i < |lines| && Kind(env, lines[st.i]) != ShowIfLine
    ensures r.Next? ==> st.i < r.state.i <= |lines|
    ensures r.Stop? && r.result.Ok? ==> r.result.value.lines == lines && r.result.value.cursor == -1
  {
    var line := lines[st.i];
    var (emitted, kept) := Flush(env, st.flag, st.saved);
    match Kind(env, line)
    case QuestionLine =>
      (match env.ask(line, st.vars)
       case Err(e) => Stop(Err(e))
       case Ok(q) =>
         Next(st.(i := st.i + 1, inner := st.inner + emitted + Asked(q), saved := kept, flag := false)))
    case CodeStartLine =>
      (match RunCodeBlock(env, lines, st.i, st.vars)
       case Err(err) => Stop(Err(err))
       case Ok((vars, e)) =>
         Next(st.(vars := vars, i := e + 1, inner := st.inner + emitted + [CodeBlock("undefined")],
                  saved := kept, flag := false)))
    case SeparatorLine =>
      Next(st.(i := st.i + 1, parent := st.parent + [Conditional(expr, st.inner + emitted), SeparatorBlock(None)],
               inner := [], saved := kept, flag := false))
    case StyledLine =>
      Next(st.(i := st.i + 1, inner := st.inner + emitted + Styled(env, line, false), saved := kept, flag := false))
    case EndLine =>
      if env.version == Current then
        Next(st.(i := st.i + 1, inner := st.inner + emitted + [EndMarker], saved := kept))
      else
        Stop(Ok(Outcome(lines, st.vars, st.parent + [Conditional(expr, st.inner + emitted + [TextBlock(EndText)])], -1)))
    case TextLine =>
      if Trim(line) != "}" && Trim(line) != expr then
        Next(st.(i := st.i + 1, saved := st.saved + line + "\n", flag := true))
      else
        Next(st.(i := st.i + 1))
    case BlockEndLine =>
      Next(st.(i := st.i + 1))
  }

  /** The loop goes on with quiet containers, or ends with a quiet outcome. */
  predicate QuietShowifTurn(turn: Turn<ShowifState>) {
    match turn
    case Next(s) => Quiet(s.parent) && Quiet(s.inner)
    case Stop(r) => r.Ok? ==> Quiet(r.value.blocks)
  }

  predicate QuietSectionTurn(turn: Turn<SectionState>) {
    match turn
    case Next(s) => Quiet(s.out)
    case Stop(r) => r.Ok? ==> Quiet(r.value.blocks)
  }

  /** A turn of `createShowif`'s loop adds only quiet blocks: its one code block shows
      "undefined". */
  lemma ShowifTurnQuiet(env: Env, expr: string, lines: seq<string>, st: ShowifState)
    requires st.i < |lines| && Kind(env, lines[st.i]) != ShowIfLine
    ensures Quiet(st.parent) && Quiet(st.inner) ==> QuietShowifTurn(ShowifTurn(env, expr, lines, st))
  {
    if Quiet(st.parent) && Quiet(st.inner) {
      FlushQuiet(env, st.flag, st.saved);
      var k := Kind(env, lines[st.i]);
      if k == QuestionLine || k == CodeStartLine || k == StyledLine {
        ShowifAddsQuiet(env, expr, lines, st);
      } else {
        ShowifMovesQuiet(env, expr, lines, st);
      }
    }
  }

  /** Helper: the turns that add a question, a code block or a styled paragraph. */
  lemma ShowifAddsQuiet(env: Env, expr: string, lines: seq<string>, st: ShowifState)
    requires st.i < |lines| && Quiet(st.parent) && Quiet(st.inner) && Quiet(Flush(env, st.flag, st.saved).0)
    requires Kind(env, lines[st.i]) in {QuestionLine, CodeStartLine, StyledLine}
    ensures QuietShowifTurn(ShowifTurn(env, expr, lines, st))
  {
    var line := lines[st.i];
    var emitted := Flush(env, st.flag, st.saved).0;
    QuietAppend(st.inner, emitted);
    match Kind(env, line)
    case QuestionLine =>
      if env.ask(line, st.vars).Ok? {
        QuietAppend(st.inner + emitted, Asked(env.ask(line, st.vars).value));
      }
    case CodeStartLine =>
      QuietAppend(st.inner + emitted, [CodeBlock("undefined")]);
    case StyledLine =>
      QuietAppend(st.inner + emitted, Styled(env, line, false));
  }

  /** Helper: the other turns, which move blocks that are already quiet. */
  lemma ShowifMovesQuiet(env: Env, expr: string, lines: seq<string>, st: ShowifState)
    requires st.i < |lines| && Quiet(st.parent) && Quiet(st.inner) && Quiet(Flush(env, st.flag, st.saved).0)
    requires Kind(env, lines[st.i]) in {SeparatorLine, EndLine, TextLine, BlockEndLine}
    ensures QuietShowifTurn(ShowifTurn(env, expr, lines, st))
  {
    var emitted := Flush(env, st.flag, st.saved).0;
    QuietAppend(st.inner, emitted);
    match Kind(env, lines[st.i])
    case SeparatorLine =>
      assert QuietBlock(Conditional(expr, st.inner + emitted));
      QuietAppend(st.parent, [Conditional(expr, st.inner + emitted), SeparatorBlock(None)]);
    case EndLine =>
      QuietAppend(st.inner + emitted, [EndMarker]);
      QuietAppend(st.inner + emitted, [TextBlock(EndText)]);
      assert QuietBlock(Conditional(expr, st.inner + emitted + [TextBlock(EndText)]));
      QuietAppend(st.parent, [Conditional(expr, st.inner + emitted + [TextBlock(EndText)])]);
    case TextLine =>
    case BlockEndLine =>
  }

  // ---------------------------------------------------------------------------
  // parseSection
  // ---------------------------------------------------------------------------

  /** The step ends: the buffer is flushed and `parseSection` returns 0. */
  function Halt(env: Env, lines: seq<string>, vars: Registry, out: seq<Block>, saved: string, flag: bool)
    : Outcome
  {
    Outcome(lines, vars, out + Flush(env, flag, saved).0, 0)
  }

  /** The `for (i = start; i < step.length; i++)` loop of `parseSection` from the given state. */
  function SectionLoop(env: Env, lines: seq<string>, st: SectionState): (r: Result<Outcome>)
    ensures r.Ok? ==> HeadersRewritten(lines, r.value.lines)
    ensures r.Ok? ==> |r.value.lines| == |lines|
    ensures r.Ok? ==> r.value.cursor == 0 || r.value.cursor >= |lines|
    ensures r.Ok? && env.version == Current ==> r.value.cursor >= |lines|
    ensures r.Ok? && Quiet(st.out) ==> Quiet(r.value.blocks)
    decreases ShowIfCount(lines), if st.i <= |lines| then |lines| - st.i else 0, 3
  {
    if st.i >= |lines| then Ok(Outcome(lines, st.vars, st.out + Flush(env, st.flag, st.saved).0, st.i))
    else SectionBody(env, lines, st)
  }

  /** The loop's body on line `i`: a conditional or one turn of the `switch`. */
  function SectionBody(env: Env, lines: seq<string>, st: SectionState): (r: Result<Outcome>)
    requires st.i < |lines|
    ensures r.Ok? ==> HeadersRewritten(lines, r.value.lines)
    ensures r.Ok? ==> |r.value.lines| == |lines|
    ensures r.Ok? ==> r.value.cursor == 0 || r.value.cursor >= |lines|
    ensures r.Ok? && env.version == Current ==> r.value.cursor >= |lines|
    ensures r.Ok? && Quiet(st.out) ==> Quiet(r.value.blocks)
    decreases ShowIfCount(lines), if st.i <= |lines| then |lines| - st.i else 0, 2
  {
    if Kind(env, lines[st.i]) == ShowIfLine then SectionNestedStep(env, lines, st)
    else SectionPlainStep(env, lines, st)
  }

  /** A conditional at the top level: the buffer is flushed, the conditional is parsed, and
      the loop goes on as `SectionAfterShowif` says. */
  function SectionNestedStep(env: Env, lines: seq<string>, st: SectionState): (r: Result<Outcome>)
    requires st.i < |lines| && Kind(env, lines[st.i]) == ShowIfLine
    ensures r.Ok? ==> HeadersRewritten(lines, r.value.lines)
    ensures r.Ok? ==> |r.value.lines| == |lines|
    ensures r.Ok? ==> r.value.cursor == 0 || r.value.cursor >= |lines|
    ensures r.Ok? && env.version == Current ==> r.value.cursor >= |lines|
    ensures r.Ok? && Quiet(st.out) ==> Quiet(r.value.blocks)
    decreases ShowIfCount(lines), if st.i <= |lines| then |lines| - st.i else 0, 1
  {
    ShowIfKind(env, lines[st.i]);
    var (emitted, kept) := Flush(env, st.flag, st.saved);
    match CreateShowif(env, lines, st.vars, st.i, st.out + emitted)
    case Err(e) => Err(e)
    case Ok(o) => SectionAfterShowif(env, lines, o, kept, st.stepNumber)
  }

  /** After a top-level conditional `o`: the loop goes on as `AfterShowifTurn` says. */
  function SectionAfterShowif(env: Env, lines: seq<string>, o: Outcome, kept: string, stepNumber: int)
    : (r: Result<Outcome>)
    requires HeadersRewritten(lines, o.lines) && ShowIfCount(o.lines) < ShowIfCount(lines) && o.cursor >= -1
    ensures r.Ok? ==> HeadersRewritten(lines, r.value.lines)
    ensures r.Ok? ==> |r.value.lines| == |lines|
    ensures r.Ok? ==> r.value.cursor == 0 || r.value.cursor >= |lines|
    ensures r.Ok? && env.version == Current ==> r.value.cursor >= |lines|
    ensures r.Ok? && Quiet(o.blocks) ==> Quiet(r.value.blocks)
    decreases ShowIfCount(lines), 0, 0
  {
    RewritesCompose(lines, o.lines);
    match AfterShowifTurn(env, o, kept, stepNumber)
    case Stop(r) => r
    case Next(next) => SectionLoop(env, o.lines, next)
  }

  /** The older parser appends its extra empty container after a top-level conditional; then
      the loop goes on after the cursor the conditional returns, or, with its -1 honoured,
      the step ends. */
  function AfterShowifTurn(env: Env, o: Outcome, kept: string, stepNumber: int): (r: Turn<SectionState>)
    requires o.cursor >= -1
    ensures r.Stop? ==> r.result.Ok? && r.result.value.lines == o.lines && r.result.value.cursor == 0
    ensures r.Stop? <==> o.cursor == -1 && env.version == LegacyHalting
    ensures r.Next? && Quiet(o.blocks) ==> Quiet(r.state.out)
    ensures r.Stop? && Quiet(o.blocks) ==> Quiet(r.result.value.blocks)
  {
    var out := o.blocks + (if env.version == Current then [] else [EmptyIf]);
    if o.cursor == -1 && env.version == LegacyHalting then
      Stop(Ok(Halt(env, o.lines, o.vars, out, kept, false)))
    else
      Next(SectionState(o.vars, o.cursor + 1, out, kept, false, stepNumber))
  }

  /** Any other line: one turn of the `switch`, then the loop goes on unless the turn ends it. */
  function SectionPlainStep(env: Env, lines: seq<string>, st: SectionState): (r: Result<Outcome>)
    requires st.i < |lines| && Kind(env, lines[st.i]) != ShowIfLine
    ensures r.Ok? ==> HeadersRewritten(lines, r.value.lines)
    ensures r.Ok? ==> |r.value.lines| == |lines|
    ensures r.Ok? ==> r.value.cursor == 0 || r.value.cursor >= |lines|
    ensures r.Ok? && env.version == Current ==> r.value.cursor >= |lines|
    ensures r.Ok? && Quiet(st.out) ==> Quiet(r.value.blocks)
    decreases ShowIfCount(lines), if st.i <= |lines| then |lines| - st.i else 0, 1
  {
    SectionTurnQuiet(env, lines, st);
    match SectionTurn(env, lines, st)
    case Stop(r) => r
    case Next(next) => SectionLoop(env, lines, next)
  }

  /** The `switch` of `parseSection`'s loop on a line that opens no conditional. */
  function SectionTurn(env: Env, lines: seq<string>, st: SectionState): (r: Turn<SectionState>)
    requires st.i < |lines| && Kind(env, lines[st.i]) != ShowIfLine
    ensures r.Next? ==> st.i < r.state.i <= |lines|
    ensures r.Stop? && r.result.Ok? ==>
      r.result.value.lines == lines && r.result.value.cursor == 0 && env.version != Current
  {
    var line := lines[st.i];
    var (emitted, kept) := Flush(env, st.flag, st.saved);
    match Kind(env, line)
    case QuestionLine =>
      (match env.ask(line, st.vars)
       case Err(e) => Stop(Err(e))
       case Ok(q) => Next(st.(i := st.i + 1, out := st.out + emitted + Asked(q), saved := kept, flag := false)))
    case CodeStartLine =>
      (match RunCodeBlock(env, lines, st.i, st.vars)
       case Err(err) => Stop(Err(err))
       case Ok((vars, e)) =>
         Next(st.(vars := vars, i := e + 1, out := st.out + emitted + [CodeBlock("")], saved := kept, flag := false)))
    case StyledLine =>
      Next(st.(i := st.i + 1, out := st.out + emitted + Styled(env, line, true), saved := kept, flag := false))
    case EndLine =>
      if env.version == Current then
        Next(st.(i := st.i + 1, out := st.out + emitted + [EndMarker], saved := kept))
      else
        Stop(Ok(Halt(env, lines, st.vars, st.out + emitted + [TextBlock(EndText)], kept, st.flag)))
    case SeparatorLine =>
      Next(st.(i := st.i + 1, out := st.out + emitted + [SeparatorBlock(Some(st.stepNumber))], saved := "",
               flag := false, stepNumber := st.stepNumber + 1))
    case TextLine =>
      var t := ReplaceConstVars(Trim(line), env.consts);
      if Trim(t) == "}" then Next(st.(i := st.i + 1))
      else if env.version == Current then Next(st.(i := st.i + 1, out := st.out + [TextBlock(Trim(t))]))
      else Next(st.(i := st.i + 1, saved := st.saved + t + "\n", flag := true))
    case BlockEndLine =>
      Next(st.(i := st.i + 1))
  }

  /** A turn of `parseSection`'s loop adds only quiet blocks: its one code block shows "". */
  lemma SectionTurnQuiet(env: Env, lines: seq<string>, st: SectionState)
    requires st.i < |lines| && Kind(env, lines[st.i]) != ShowIfLine
    ensures Quiet(st.out) ==> QuietSectionTurn(SectionTurn(env, lines, st))
  {
    if Quiet(st.out) {
      FlushQuiet(env, st.flag, st.saved);
      var k := Kind(env, lines[st.i]);
      if k == QuestionLine || k == CodeStartLine {
        SectionAddsQuiet(env, lines, st);
      } else if k == StyledLine {
        SectionStyledQuiet(env, lines, st);
      } else {
        SectionMovesQuiet(env, lines, st);
      }
    }
  }

  /** Helper: the turns that add a question or a code block. */
  lemma SectionAddsQuiet(env: Env, lines: seq<string>, st: SectionState)
    requires st.i < |lines| && Quiet(st.out) && Quiet(Flush(env, st.flag, st.saved).0)
    requires Kind(env, lines[st.i]) in {QuestionLine, CodeStartLine}
    ensures QuietSectionTurn(SectionTurn(env, lines, st))
  {
    var line := lines[st.i];
    var emitted := Flush(env, st.flag, st.saved).0;
    QuietAppend(st.out, emitted);
    if Kind(env, line) == QuestionLine {
      if env.ask(line, st.vars).Ok? {
        QuietAppend(st.out + emitted, Asked(env.ask(line, st.vars).value));
      }
    } else {
      QuietAppend(st.out + emitted, [CodeBlock("")]);
    }
  }

  /** Helper: the turn that adds a styled paragraph. */
  lemma SectionStyledQuiet(env: Env, lines: seq<string>, st: SectionState)
    requires st.i < |lines| && Quiet(st.out) && Quiet(Flush(env, st.flag, st.saved).0)
    requires Kind(env, lines[st.i]) == StyledLine
    ensures QuietSectionTurn(SectionTurn(env, lines, st))
  {
    var emitted := Flush(env, st.flag, st.saved).0;
    QuietAppend(st.out, emitted);
    QuietAppend(st.out + emitted, Styled(env, lines[st.i], true));
  }

  /** Helper: the other turns, which add text, markers and separators. */
  lemma SectionMovesQuiet(env: Env, lines: seq<string>, st: SectionState)
    requires st.i < |lines| && Quiet(st.out) && Quiet(Flush(env, st.flag, st.saved).0)
    requires Kind(env, lines[st.i]) in {SeparatorLine, EndLine, TextLine, BlockEndLine}
    ensures QuietSectionTurn(SectionTurn(env, lines, st))
  {
    var line := lines[st.i];
    var (emitted, kept) := Flush(env, st.flag, st.saved);
    QuietAppend(st.out, emitted);
    match Kind(env, line)
    case SeparatorLine =>
      QuietAppend(st.out + emitted, [SeparatorBlock(Some(st.stepNumber))]);
    case EndLine =>
      QuietAppend(st.out + emitted, [EndMarker]);
      QuietAppend(st.out + emitted, [TextBlock(EndText)]);
      FlushQuiet(env, st.flag, kept);
      QuietAppend(st.out + emitted + [TextBlock(EndText)], Flush(env, st.flag, kept).0);
    case TextLine =>
      var t := ReplaceConstVars(Trim(line), env.consts);
      QuietAppend(st.out, [TextBlock(Trim(t))]);
    case BlockEndLine =>
  }

  /** The buffer flushes into text paragraphs only. */
  lemma FlushQuiet(env: Env, flag: bool, saved: string)
    ensures Quiet(Flush(env, flag, saved).0)
  {
  }

  /** `parseSection(step, stepNumber, start, contentContainer, constVars)`. */
  function ParseSection(env: Env, lines: seq<string>, stepNumber: int, start: nat, vars: Registry,
                        out: seq<Block>)
    : (r: Result<Outcome>)
    ensures r.Ok? && Quiet(out) ==> Quiet(r.value.blocks)
  {
    SectionLoop(env, lines, SectionState(vars, start, out, "", false, stepNumber))
  }

  /** The loop of `parser` over the steps from `index`: every step is parsed into the same
      container, and the first step whose `parseSection` returns 0 gets the final Back button
      and stops the loop. */
  function ParseSteps(env: Env, steps: seq<seq<string>>, index: nat, vars: Registry, out: seq<Block>)
    : (r: Result<(Registry, seq<Block>)>)
    ensures r.Ok? && Quiet(out) ==> Quiet(r.value.1)
    decreases |steps| - index
  {
    if index >= |steps| then Ok((vars, out))
    else
      match ParseSection(env, steps[index], index, 0, vars, out)
      case Err(e) => Err(e)
      case Ok(o) =>
        if o.cursor == 0 then Ok((o.vars, o.blocks + [BackButton]))
        else ParseSteps(env, steps, index + 1, o.vars, o.blocks)
  }
}
