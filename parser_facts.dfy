/**
 * What the two block parsers promise about the containers they build: a conditional gives its
 * parent only conditionals with its own expression and plain separators, a header that closes
 * on its own line has an empty body, `{end}` halts only in the older parser (and, inside a
 * conditional, sends it back to the first line of the step), the older parser gathers a run of
 * text lines into one paragraph, and the newer parser never ends a step early, so the final
 * Back button is never added.
 */
module ParserFacts {

  import opened Wrappers
  import opened JsStrings
  import opened Variables
  import opened Classifier
  import opened ScopeMatcher
  import opened Seqs
  import opened Steps
  import opened Blocks
  import opened BlockParser
  import ConstMacros
  import Questions
  import opened EndStepText

  /** What a conditional may append to its parent besides the parent's own children: its
      pieces, all with its expression, and the separators between them. */
  predicate Siblings(expr: string, xs: seq<Block>) {
    forall b :: b in xs ==> b == SeparatorBlock(None) || (b.Conditional? && b.expression == expr)
  }

  /** `parent` followed by a non-empty run of siblings of `expr`, the last one a conditional. */
  predicate ExtendsWithConditional(parent: seq<Block>, expr: string, blocks: seq<Block>) {
    |parent| < |blocks| && blocks[..|parent|] == parent && Siblings(expr, blocks[|parent|..])
    && blocks[|blocks| - 1].Conditional? && blocks[|blocks| - 1].expression == expr
  }

  /** One turn of `createShowif`'s loop touches the parent only at a separator, which closes
      the conditional built so far and appends it with a separator; ending at `{end}` closes it
      too. */
  lemma TurnKeepsParent(env: Env, expr: string, lines: seq<string>, st: ShowifState)
    requires st.i < |lines| && Kind(env, lines[st.i]) != ShowIfLine
    ensures ShowifTurn(env, expr, lines, st).Next? ==>
      var p := ShowifTurn(env, expr, lines, st).state.parent;
      p == st.parent || (|p| == |st.parent| + 2 && p[..|st.parent|] == st.parent &&
                         Siblings(expr, p[|st.parent|..]))
    ensures ShowifTurn(env, expr, lines, st).Stop? && ShowifTurn(env, expr, lines, st).result.Ok? ==>
      ExtendsWithConditional(st.parent, expr, ShowifTurn(env, expr, lines, st).result.value.blocks)
  {
    var r := ShowifTurn(env, expr, lines, st);
    if r.Next? && r.state.parent != st.parent {
      var p := r.state.parent;
      assert p[|st.parent|..] == [Conditional(expr, st.inner + Flush(env, st.flag, st.saved).0), SeparatorBlock(None)];
    }
    if r.Stop? && r.result.Ok? {
      var b := r.result.value.blocks;
      assert b[|st.parent|..] == [b[|b| - 1]];
    }
  }

  /** Appending more siblings after siblings keeps the shape. */
  lemma ExtendsTrans(parent: seq<Block>, mid: seq<Block>, expr: string, blocks: seq<Block>)
    requires mid == parent || (|parent| <= |mid| && mid[..|parent|] == parent && Siblings(expr, mid[|parent|..]))
    requires ExtendsWithConditional(mid, expr, blocks)
    ensures ExtendsWithConditional(parent, expr, blocks)
  {
    assert blocks[..|parent|] == mid[..|parent|];
    forall b | b in blocks[|parent|..]
      ensures b == SeparatorBlock(None) || (b.Conditional? && b.expression == expr)
    {
      var k :| |parent| <= k < |blocks| && blocks[k] == b;
      if k >= |mid| {
        assert b == blocks[|mid|..][k - |mid|];
      } else {
        assert b == mid[|parent|..][k - |parent|];
      }
    }
  }

  /** The loop of `createShowif` leaves the parent's children in front and adds after them only
      pieces of this conditional and separators, ending with a piece. */
  lemma {:induction false} LoopExtendsParent(env: Env, expr: string, end: nat, lines: seq<string>, st: ShowifState)
    requires end < |lines|
    ensures ShowifLoop(env, expr, end, lines, st).Ok? ==>
      ExtendsWithConditional(st.parent, expr, ShowifLoop(env, expr, end, lines, st).value.blocks)
    decreases ShowIfCount(lines), if st.i <= |lines| then |lines| - st.i else 0, 2
  {
    if st.i >= end {
      var b := ShowifLoop(env, expr, end, lines, st).value.blocks;
      assert b[|st.parent|..] == [b[|b| - 1]];
    } else if Kind(env, lines[st.i]) == ShowIfLine {
      NestedExtendsParent(env, expr, end, lines, st);
    } else {
      PlainExtendsParent(env, expr, end, lines, st);
    }
  }

  lemma {:induction false} NestedExtendsParent(env: Env, expr: string, end: nat, lines: seq<string>, st: ShowifState)
    requires end < |lines| && st.i < end && Kind(env, lines[st.i]) == ShowIfLine
    ensures ShowifNestedStep(env, expr, end, lines, st).Ok? ==>
      ExtendsWithConditional(st.parent, expr, ShowifNestedStep(env, expr, end, lines, st).value.blocks)
    ensures ShowifLoop(env, expr, end, lines, st) == ShowifNestedStep(env, expr, end, lines, st)
    decreases ShowIfCount(lines), if st.i <= |lines| then |lines| - st.i else 0, 1
  {
    ShowIfKind(env, lines[st.i]);
    var flushed := Flush(env, st.flag, st.saved);
    var nested := CreateShowif(env, lines, st.vars, st.i, st.inner + flushed.0);
    if nested.Ok? {
      var o := nested.value;
      NestedStepGoesOn(env, expr, end, lines, st, o);
      AfterNestedExtendsParent(env, expr, end, lines, st, o, flushed.1);
    }
  }

  lemma {:induction false} AfterNestedExtendsParent(env: Env, expr: string, end: nat, lines: seq<string>, st: ShowifState,
                                                    o: Outcome, kept: string)
    requires end < |lines| && HeadersRewritten(lines, o.lines) && ShowIfCount(o.lines) < ShowIfCount(lines)
    requires o.cursor >= -1
    ensures ShowifAfterNested(env, expr, end, lines, st, o, kept).Ok? ==>
      ExtendsWithConditional(st.parent, expr, ShowifAfterNested(env, expr, end, lines, st, o, kept).value.blocks)
    decreases ShowIfCount(lines), if st.i <= |lines| then |lines| - st.i else 0, 0
  {
    if o.cursor == -1 && env.version == LegacyHalting {
      HaltedExtendsParent(expr, st.parent, o.blocks);
    } else {
      var next := ShowifState(o.vars, o.cursor + 1, st.parent, o.blocks, kept, false);
      AfterNestedGoesOn(env, expr, end, lines, st, o, kept, next);
      LoopExtendsParent(env, expr, end, o.lines, next);
    }
  }

  /** Helper: without a halt, the loop goes on after the nested conditional. */
  lemma AfterNestedGoesOn(env: Env, expr: string, end: nat, lines: seq<string>, st: ShowifState,
                          o: Outcome, kept: string, next: ShowifState)
    requires end < |lines| && HeadersRewritten(lines, o.lines) && ShowIfCount(o.lines) < ShowIfCount(lines)
    requires o.cursor >= -1 && !(o.cursor == -1 && env.version == LegacyHalting)
    requires next == ShowifState(o.vars, o.cursor + 1, st.parent, o.blocks, kept, false)
    ensures ShowifAfterNested(env, expr, end, lines, st, o, kept) == ShowifLoop(env, expr, end, o.lines, next)
  {
  }

  /** Helper: a conditional halted by a nested `{end}` is appended to the parent alone. */
  lemma HaltedExtendsParent(expr: string, parent: seq<Block>, children: seq<Block>)
    ensures ExtendsWithConditional(parent, expr, parent + [Conditional(expr, children)])
  {
    var b := parent + [Conditional(expr, children)];
    assert b[|parent|..] == [b[|b| - 1]];
  }

  /** Helper: once the nested conditional is parsed into `o`, the rest is decided after it. */
  lemma NestedStepGoesOn(env: Env, expr: string, end: nat, lines: seq<string>, st: ShowifState, o: Outcome)
    requires end < |lines| && st.i < end && Kind(env, lines[st.i]) == ShowIfLine
    requires IsShowIfLine(lines[st.i])
    requires CreateShowif(env, lines, st.vars, st.i, st.inner + Flush(env, st.flag, st.saved).0) == Ok(o)
    ensures ShowifNestedStep(env, expr, end, lines, st) ==
      ShowifAfterNested(env, expr, end, lines, st, o, Flush(env, st.flag, st.saved).1)
  {
  }

  lemma {:induction false} PlainExtendsParent(env: Env, expr: string, end: nat, lines: seq<string>, st: ShowifState)
    requires end < |lines| && st.i < end && Kind(env, lines[st.i]) != ShowIfLine
    ensures ShowifPlainStep(env, expr, end, lines, st).Ok? ==>
      ExtendsWithConditional(st.parent, expr, ShowifPlainStep(env, expr, end, lines, st).value.blocks)
    ensures ShowifLoop(env, expr, end, lines, st) == ShowifPlainStep(env, expr, end, lines, st)
    decreases ShowIfCount(lines), if st.i <= |lines| then |lines| - st.i else 0, 1
  {
    TurnKeepsParent(env, expr, lines, st);
    var t := ShowifTurn(env, expr, lines, st);
    if t.Next? {
      var r := ShowifLoop(env, expr, end, lines, t.state);
      assert ShowifPlainStep(env, expr, end, lines, st) == r;
      LoopExtendsParent(env, expr, end, lines, t.state);
      if r.Ok? {
        ExtendsTrans(st.parent, t.state.parent, expr, r.value.blocks);
      }
    }
  }

  /** A conditional gives its container, after the children it already had, only pieces with
      its expression (the header without `showif` and braces, trimmed) and the separators that
      split it, the last element being a piece. */
  lemma ConditionalExtendsParent(env: Env, lines: seq<string>, vars: Registry, i: nat, parent: seq<Block>)
    requires i < |lines| && IsShowIfLine(lines[i])
    ensures CreateShowif(env, lines, vars, i, parent).Ok? ==>
      ExtendsWithConditional(parent, Trim(StripShowif(lines[i])), CreateShowif(env, lines, vars, i, parent).value.blocks)
  {
    if BlockEnd(lines, i).Some? {
      var header := StripShowif(lines[i]);
      LoopExtendsParent(env, Trim(header), BlockEnd(lines, i).value, lines[i := header],
                        ShowifState(vars, i, parent, [], "", false));
    }
  }

  /** A header whose braces balance on its own line ends the conditional at once: its body is
      only what flushing the empty buffer gives, an empty paragraph in the newer parser and
      nothing in the older one, and the cursor stays on the header. */
  lemma SameLineHeaderIsEmpty(env: Env, lines: seq<string>, vars: Registry, i: nat, parent: seq<Block>)
    requires i < |lines| && IsShowIfLine(lines[i]) && BlockEnd(lines, i) == Some(i)
    ensures CreateShowif(env, lines, vars, i, parent) ==
      Ok(Outcome(lines[i := StripShowif(lines[i])], vars,
                 parent + [Conditional(Trim(StripShowif(lines[i])),
                                       if env.version == Current then [TextBlock("")] else [])], i))
  {
    var header := StripShowif(lines[i]);
    var st := ShowifState(vars, i, parent, [], "", false);
    assert CreateShowif(env, lines, vars, i, parent) == ShowifLoop(env, Trim(header), i, lines[i := header], st);
    assert ShowifLoop(env, Trim(header), i, lines[i := header], st) == Ok(CloseShowif(env, Trim(header), lines[i := header], st));
    assert Trim("") == "";
    var body: seq<Block> := if env.version == Current then [TextBlock("")] else [];
    assert Flush(env, false, "").0 == body;
    assert [] + body == body;
  }

  /** In the older parser, `{end}` inside a conditional closes it with the end text and answers
      -1; the newer parser only adds an end marker and goes on. */
  lemma EndInConditional(env: Env, expr: string, end: nat, lines: seq<string>, st: ShowifState)
    requires end < |lines| && st.i < end && Kind(env, lines[st.i]) == EndLine
    ensures env.version != Current ==>
      ShowifPlainStep(env, expr, end, lines, st) ==
        Ok(Outcome(lines, st.vars, st.parent + [Conditional(expr, st.inner + Flush(env, st.flag, st.saved).0 + [TextBlock(EndText)])], -1))
    ensures env.version == Current ==>
      ShowifTurn(env, expr, lines, st) ==
        Next(st.(i := st.i + 1, inner := st.inner + Flush(env, st.flag, st.saved).0 + [EndMarker],
                 saved := Flush(env, st.flag, st.saved).1))
  {
  }

  /** At the top level, the older parser's `{end}` flushes the buffer, adds the end text and
      makes `parseSection` answer 0; the newer one adds an end marker and goes on. */
  lemma EndAtTopLevel(env: Env, lines: seq<string>, st: SectionState)
    requires st.i < |lines| && Kind(env, lines[st.i]) == EndLine
    ensures env.version != Current ==>
      SectionPlainStep(env, lines, st) ==
        Ok(Halt(env, lines, st.vars, st.out + Flush(env, st.flag, st.saved).0 + [TextBlock(EndText)],
                Flush(env, st.flag, st.saved).1, st.flag)) &&
      SectionPlainStep(env, lines, st).value.cursor == 0
    ensures env.version == Current ==>
      SectionTurn(env, lines, st) ==
        Next(st.(i := st.i + 1, out := st.out + Flush(env, st.flag, st.saved).0 + [EndMarker],
                 saved := Flush(env, st.flag, st.saved).1))
  {
  }

  /** parser.js as written: a conditional that answers -1 sets the cursor to -1, the loop's
      `i++` makes it 0, and the step is parsed again from its first line, now with the
      conditional's header rewritten. */
  lemma LegacyReparsesFromTop(env: Env, lines: seq<string>, st: SectionState, o: Outcome)
    requires env.version == Legacy && st.i < |lines| && IsShowIfLine(lines[st.i])
    requires Kind(env, lines[st.i]) == ShowIfLine
    requires CreateShowif(env, lines, st.vars, st.i, st.out + Flush(env, st.flag, st.saved).0) == Ok(o)
    requires o.cursor == -1
    ensures SectionNestedStep(env, lines, st) ==
      SectionLoop(env, o.lines, SectionState(o.vars, 0, o.blocks + [EmptyIf], Flush(env, st.flag, st.saved).1,
                                             false, st.stepNumber))
  {
    ShowIfKind(env, lines[st.i]);
  }

  /** With the -1 honoured, the step ends right after the conditional: the buffer is flushed
      and `parseSection` answers 0, so `parser` stops there. */
  lemma HaltingEndsStep(env: Env, lines: seq<string>, st: SectionState, o: Outcome)
    requires env.version == LegacyHalting && st.i < |lines| && IsShowIfLine(lines[st.i])
    requires Kind(env, lines[st.i]) == ShowIfLine
    requires CreateShowif(env, lines, st.vars, st.i, st.out + Flush(env, st.flag, st.saved).0) == Ok(o)
    requires o.cursor == -1
    ensures SectionNestedStep(env, lines, st) ==
      Ok(Halt(env, o.lines, o.vars, o.blocks + [EmptyIf], Flush(env, st.flag, st.saved).1, false))
    ensures SectionNestedStep(env, lines, st).value.cursor == 0
  {
    ShowIfKind(env, lines[st.i]);
  }

  /** The older parser.js as written, on the step `{showif x` / `{end}` / `}`: the conditional
      closes with the end text and answers -1, the step is parsed again from its first line,
      now the rewritten header ` x`, which becomes a paragraph `x` outside the conditional, and
      `{end}` adds the end text a second time before the step ends. */
  lemma LegacyEndStepRepeats(env: Env, vars: Registry, stepNumber: int)
    requires env.version == Legacy
    ensures ParseSection(env, EndStep, stepNumber, 0, vars, []) ==
      Ok(Outcome(RewrittenEndStep, vars,
                 [Conditional("x", [TextBlock(EndText)]), EmptyIf, TextBlock("x"), TextBlock(EndText), TextBlock("")], 0))
  {
    EndStepFacts(env);
    ReparsedEndStep(env, EndStep, vars, stepNumber, " x", "x");
  }

  /** With the -1 honoured, the same step ends right after the conditional, which holds only
      the end text. */
  lemma HaltingEndStepStops(env: Env, vars: Registry, stepNumber: int)
    requires env.version == LegacyHalting
    ensures ParseSection(env, EndStep, stepNumber, 0, vars, []) ==
      Ok(Outcome(RewrittenEndStep, vars, [Conditional("x", [TextBlock(EndText)]), EmptyIf], 0))
  {
    EndStepFacts(env);
    HaltedEndStep(env, EndStep, vars, stepNumber, " x", "x");
  }

  /** Helper: what the older parser reads on the lines of the step. */
  lemma EndStepFacts(env: Env)
    requires env.version != Current
    ensures |EndStep| == 3 && IsShowIfLine(EndStep[0]) && BlockEnd(EndStep, 0) == Some(2)
    ensures StripShowif(EndStep[0]) == " x" && Trim(" x") == "x"
    ensures Kind(env, " x") == TextLine && Kind(env, EndStep[1]) == EndLine
    ensures EndStep[0 := " x"] == RewrittenEndStep
    ensures ConstMacros.ReplaceConstVars("x", env.consts) == "x" && Trim("x" + "\n") == "x"
  {
    EndStepShape();
    HeaderRewritten();
    EndLineKind();
    ConstMacros.NoMacroUnchanged("x", 0, env.consts);
    ExpressionTrimmed();
  }

  /** Helper: a conditional whose header line is followed by `{end}` and closed on the line
      after, in the older parser: its body is the end text, and it answers -1. */
  lemma EndStepConditional(env: Env, lines: seq<string>, vars: Registry, header: string, expr: string)
    requires env.version != Current
    requires |lines| == 3 && IsShowIfLine(lines[0]) && BlockEnd(lines, 0) == Some(2)
    requires StripShowif(lines[0]) == header && Trim(header) == expr
    requires Kind(env, header) == TextLine && Kind(env, lines[1]) == EndLine
    ensures CreateShowif(env, lines, vars, 0, []) ==
      Ok(Outcome(lines[0 := header], vars, [Conditional(expr, [TextBlock(EndText)])], -1))
  {
    var rewritten := lines[0 := header];
    var st := ShowifState(vars, 0, [], [], "", false);
    assert CreateShowif(env, lines, vars, 0, []) == ShowifLoop(env, expr, 2, rewritten, st);
    BodyTextTurn(env, expr, rewritten, st);
    ShowifGoesOn(env, expr, 2, rewritten, st, st.(i := 1));
    assert ShowifLoop(env, expr, 2, rewritten, st.(i := 1)) == ShowifPlainStep(env, expr, 2, rewritten, st.(i := 1));
    assert Flush(env, false, "").0 == [];
    assert rewritten[1] == lines[1];
    EndInConditional(env, expr, 2, rewritten, st.(i := 1));
    var body: seq<Block> := [TextBlock(EndText)];
    assert [] + Flush(env, false, "").0 + body == body;
    assert [] + [Conditional(expr, body)] == [Conditional(expr, body)];
    assert ShowifPlainStep(env, expr, 2, rewritten, st.(i := 1)) ==
      Ok(Outcome(rewritten, vars, [Conditional(expr, [TextBlock(EndText)])], -1));
    assert ShowifLoop(env, expr, 2, rewritten, st) == Ok(Outcome(rewritten, vars, [Conditional(expr, [TextBlock(EndText)])], -1));
  }

  /** Helper: the older parser as written on such a step, whose rewritten header is plain
      text: after the -1, the header is read again as text and `{end}` ends the step. */
  lemma ReparsedEndStep(env: Env, lines: seq<string>, vars: Registry, stepNumber: int, header: string, expr: string)
    requires env.version == Legacy
    requires |lines| == 3 && IsShowIfLine(lines[0]) && BlockEnd(lines, 0) == Some(2)
    requires StripShowif(lines[0]) == header && Trim(header) == expr
    requires Kind(env, header) == TextLine && Kind(env, lines[1]) == EndLine
    requires ConstMacros.ReplaceConstVars(expr, env.consts) == expr && Trim(expr + "\n") == expr && expr != "}"
    ensures ParseSection(env, lines, stepNumber, 0, vars, []) ==
      Ok(Outcome(lines[0 := header], vars,
                 [Conditional(expr, [TextBlock(EndText)]), EmptyIf, TextBlock(expr), TextBlock(EndText), TextBlock("")], 0))
  {
    var rewritten := lines[0 := header];
    var out := [Conditional(expr, [TextBlock(EndText)]), EmptyIf];
    EndStepFirstPass(env, lines, vars, stepNumber, header, expr);
    HeaderReadAgain(env, rewritten, vars, stepNumber, expr);
  }

  /** Helper: read again from the top, the rewritten header is a paragraph of its own, and
      `{end}` ends the step. */
  lemma HeaderReadAgain(env: Env, lines: seq<string>, vars: Registry, stepNumber: int, expr: string)
    requires env.version == Legacy && |lines| == 3
    requires Kind(env, lines[0]) == TextLine && Trim(lines[0]) == expr && Kind(env, lines[1]) == EndLine
    requires ConstMacros.ReplaceConstVars(expr, env.consts) == expr && Trim(expr + "\n") == expr && expr != "}"
    ensures SectionLoop(env, lines, SectionState(vars, 0, [Conditional(expr, [TextBlock(EndText)]), EmptyIf], "", false, stepNumber)) ==
      Ok(Outcome(lines, vars,
                 [Conditional(expr, [TextBlock(EndText)]), EmptyIf, TextBlock(expr), TextBlock(EndText), TextBlock("")], 0))
  {
    var out := [Conditional(expr, [TextBlock(EndText)]), EmptyIf];
    var again := SectionState(vars, 0, out, "", false, stepNumber);
    assert BufferedLine(env, lines[0]);
    TextRunThenEnd(env, lines, again, 1);
    assert lines[0..1] == [lines[0]];
    assert Buffered(env.consts, lines[0..1]) == expr + "\n";
    assert out + [TextBlock(expr), TextBlock(EndText), TextBlock("")] ==
      [Conditional(expr, [TextBlock(EndText)]), EmptyIf, TextBlock(expr), TextBlock(EndText), TextBlock("")];
  }

  /** Helper: the older parser with the -1 honoured, on such a step: the conditional, the extra
      empty container, and the step ends. */
  lemma HaltedEndStep(env: Env, lines: seq<string>, vars: Registry, stepNumber: int, header: string, expr: string)
    requires env.version == LegacyHalting
    requires |lines| == 3 && IsShowIfLine(lines[0]) && BlockEnd(lines, 0) == Some(2)
    requires StripShowif(lines[0]) == header && Trim(header) == expr
    requires Kind(env, header) == TextLine && Kind(env, lines[1]) == EndLine
    ensures ParseSection(env, lines, stepNumber, 0, vars, []) ==
      Ok(Outcome(lines[0 := header], vars, [Conditional(expr, [TextBlock(EndText)]), EmptyIf], 0))
  {
    var st := SectionState(vars, 0, [], "", false, stepNumber);
    EndStepConditional(env, lines, vars, header, expr);
    var o := Outcome(lines[0 := header], vars, [Conditional(expr, [TextBlock(EndText)])], -1);
    ShowIfKind(env, lines[0]);
    assert st.out + Flush(env, st.flag, st.saved).0 == [];
    HaltingEndsStep(env, lines, st, o);
    SectionOpensConditional(env, lines, st);
    assert Flush(env, false, "") == ([], "");
    assert o.blocks + [EmptyIf] + [] == [Conditional(expr, [TextBlock(EndText)]), EmptyIf];
  }

  /** Helper: the first pass over such a step ends in the -1, and the loop starts again from
      the first line with the conditional and the extra empty container appended. */
  lemma EndStepFirstPass(env: Env, lines: seq<string>, vars: Registry, stepNumber: int, header: string, expr: string)
    requires env.version == Legacy
    requires |lines| == 3 && IsShowIfLine(lines[0]) && BlockEnd(lines, 0) == Some(2)
    requires StripShowif(lines[0]) == header && Trim(header) == expr
    requires Kind(env, header) == TextLine && Kind(env, lines[1]) == EndLine
    ensures ParseSection(env, lines, stepNumber, 0, vars, []) ==
      SectionLoop(env, lines[0 := header],
                  SectionState(vars, 0, [Conditional(expr, [TextBlock(EndText)]), EmptyIf], "", false, stepNumber))
  {
    var st := SectionState(vars, 0, [], "", false, stepNumber);
    EndStepConditional(env, lines, vars, header, expr);
    var o := Outcome(lines[0 := header], vars, [Conditional(expr, [TextBlock(EndText)])], -1);
    ShowIfKind(env, lines[0]);
    assert st.out + Flush(env, st.flag, st.saved).0 == [];
    LegacyReparsesFromTop(env, lines, st, o);
    SectionOpensConditional(env, lines, st);
    assert Flush(env, false, "").1 == "";
    assert o.blocks + [EmptyIf] == [Conditional(expr, [TextBlock(EndText)]), EmptyIf];
  }

  /** Helper: on a conditional's header, the loop of `parseSection` parses the conditional. */
  lemma SectionOpensConditional(env: Env, lines: seq<string>, st: SectionState)
    requires st.i < |lines| && Kind(env, lines[st.i]) == ShowIfLine
    ensures SectionLoop(env, lines, st) == SectionNestedStep(env, lines, st)
  {
  }

  /** Helper: in the older parser, the loop of `parseSection` stops at `{end}`. */
  lemma SectionStopsAtEnd(env: Env, lines: seq<string>, st: SectionState)
    requires env.version != Current && st.i < |lines| && Kind(env, lines[st.i]) == EndLine
    ensures SectionLoop(env, lines, st) ==
      Ok(Halt(env, lines, st.vars, st.out + Flush(env, st.flag, st.saved).0 + [TextBlock(EndText)],
              Flush(env, st.flag, st.saved).1, st.flag))
  {
    assert SectionLoop(env, lines, st) == SectionPlainStep(env, lines, st);
    EndAtTopLevel(env, lines, st);
  }

  /** Helper: the loop of `parseSection` past the last line flushes the buffer and returns. */
  lemma SectionEnds(env: Env, lines: seq<string>, st: SectionState)
    requires st.i >= |lines|
    ensures SectionLoop(env, lines, st) == Ok(Outcome(lines, st.vars, st.out + Flush(env, st.flag, st.saved).0, st.i))
  {
  }

  /** Helper: a turn of `createShowif`'s loop that goes on is followed by the rest of the loop. */
  lemma ShowifGoesOn(env: Env, expr: string, end: nat, lines: seq<string>, st: ShowifState, next: ShowifState)
    requires end < |lines| && st.i < end && Kind(env, lines[st.i]) != ShowIfLine
    requires ShowifTurn(env, expr, lines, st) == Next(next)
    ensures ShowifLoop(env, expr, end, lines, st) == ShowifLoop(env, expr, end, lines, next)
  {
    assert ShowifLoop(env, expr, end, lines, st) == ShowifPlainStep(env, expr, end, lines, st);
  }

  /** Helper: a turn of `parseSection`'s loop that goes on is followed by the rest of the loop. */
  lemma SectionGoesOn(env: Env, lines: seq<string>, st: SectionState, next: SectionState)
    requires st.i < |lines| && Kind(env, lines[st.i]) != ShowIfLine
    requires SectionTurn(env, lines, st) == Next(next)
    ensures SectionLoop(env, lines, st) == SectionLoop(env, lines, next)
  {
    assert SectionLoop(env, lines, st) == SectionPlainStep(env, lines, st);
  }

  /** Helper: a question at the top level flushes the buffer, then adds what it asks. */
  lemma TopQuestionTurn(env: Env, lines: seq<string>, st: SectionState, q: Option<Questions.Question>)
    requires st.i < |lines| && Kind(env, lines[st.i]) == QuestionLine && env.ask(lines[st.i], st.vars) == Ok(q)
    ensures SectionTurn(env, lines, st) ==
      Next(st.(i := st.i + 1, out := st.out + Flush(env, st.flag, st.saved).0 + Asked(q),
               saved := Flush(env, st.flag, st.saved).1, flag := false))
  {
  }

  /** Helper: a buffered text line at the top level of the older parser. */
  lemma TopTextTurn(env: Env, lines: seq<string>, st: SectionState)
    requires env.version != Current && st.i < |lines| && BufferedLine(env, lines[st.i])
    ensures SectionTurn(env, lines, st) ==
      Next(st.(i := st.i + 1, saved := st.saved + ConstMacros.ReplaceConstVars(Trim(lines[st.i]), env.consts) + "\n",
               flag := true))
  {
  }

  // ---------------------------------------------------------------------------
  // Text
  // ---------------------------------------------------------------------------

  /** Inside a conditional, a text line that is only `}` or repeats the conditional's
      expression, as its own rewritten header does, adds nothing; any other text line is
      buffered with a line feed and raises the flag. */
  lemma BodyTextTurn(env: Env, expr: string, lines: seq<string>, st: ShowifState)
    requires st.i < |lines| && Kind(env, lines[st.i]) == TextLine
    ensures Trim(lines[st.i]) == "}" || Trim(lines[st.i]) == expr ==>
      ShowifTurn(env, expr, lines, st) == Next(st.(i := st.i + 1))
    ensures Trim(lines[st.i]) != "}" && Trim(lines[st.i]) != expr ==>
      ShowifTurn(env, expr, lines, st) ==
        Next(st.(i := st.i + 1, saved := st.saved + lines[st.i] + "\n", flag := true))
  {
  }

  /** The older parser's buffer after the top-level text lines `run`: each line trimmed, with
      its constants substituted, and followed by a line feed. */
  function Buffered(consts: ConstMacros.ConstMap, run: seq<string>): string
  {
    if run == [] then "" else ConstMacros.ReplaceConstVars(Trim(run[0]), consts) + "\n" + Buffered(consts, run[1..])
  }

  /** Helper: the buffer of a run is its first line's text, then the rest's. */
  lemma BufferedCons(consts: ConstMacros.ConstMap, lines: seq<string>, i: nat, j: nat)
    requires i < j <= |lines|
    ensures Buffered(consts, lines[i..j]) ==
      ConstMacros.ReplaceConstVars(Trim(lines[i]), consts) + "\n" + Buffered(consts, lines[i + 1..j])
  {
    assert lines[i..j][1..] == lines[i + 1..j];
  }

  /** A top-level line the older parser buffers: text that is not a lone `}` once its
      constants are substituted. */
  predicate BufferedLine(env: Env, line: string) {
    Kind(env, line) == TextLine && Trim(ConstMacros.ReplaceConstVars(Trim(line), env.consts)) != "}"
  }

  /** In the older parser, consecutive top-level text lines add no block: each is appended to
      the buffer, and the flag goes up. */
  lemma {:induction false} TextRunBuffered(env: Env, lines: seq<string>, st: SectionState, j: nat)
    requires env.version != Current && st.i <= j <= |lines|
    requires forall k :: st.i <= k < j ==> BufferedLine(env, lines[k])
    ensures SectionLoop(env, lines, st) == SectionLoop(env, lines, AfterRun(env.consts, lines, st, j))
    decreases j - st.i
  {
    if st.i < j {
      var next := TopTextGoesOn(env, lines, st);
      TextRunBuffered(env, lines, next, j);
      AfterRunStep(env.consts, lines, st, j);
    } else {
      AfterNoRun(env.consts, lines, st);
    }
  }

  /** The loop state once the text lines from `st.i` up to `j` are in the buffer. */
  function AfterRun(consts: ConstMacros.ConstMap, lines: seq<string>, st: SectionState, j: nat): SectionState
    requires st.i <= j <= |lines|
  {
    st.(i := j, saved := st.saved + Buffered(consts, lines[st.i..j]), flag := st.flag || st.i < j)
  }

  /** Helper: buffering the first line, then the rest of the run, ends in the same state. */
  lemma AfterRunStep(consts: ConstMacros.ConstMap, lines: seq<string>, st: SectionState, j: nat)
    requires st.i < j <= |lines|
    ensures AfterRun(consts, lines, st.(i := st.i + 1, saved := st.saved + ConstMacros.ReplaceConstVars(Trim(lines[st.i]), consts) + "\n",
                                        flag := true), j) == AfterRun(consts, lines, st, j)
  {
    BufferedCons(consts, lines, st.i, j);
  }

  /** Helper: an empty run leaves the state as it is. */
  lemma AfterNoRun(consts: ConstMacros.ConstMap, lines: seq<string>, st: SectionState)
    requires st.i <= |lines|
    ensures AfterRun(consts, lines, st, st.i) == st
  {
    assert lines[st.i..st.i] == [];
    assert st.saved + Buffered(consts, []) == st.saved;
  }

  /** Helper: after a buffered text line, the loop goes on with the line's text in the buffer. */
  lemma TopTextGoesOn(env: Env, lines: seq<string>, st: SectionState) returns (next: SectionState)
    requires env.version != Current && st.i < |lines| && BufferedLine(env, lines[st.i])
    ensures next == st.(i := st.i + 1, saved := st.saved + ConstMacros.ReplaceConstVars(Trim(lines[st.i]), env.consts) + "\n",
                        flag := true)
    ensures SectionLoop(env, lines, st) == SectionLoop(env, lines, next)
  {
    next := st.(i := st.i + 1, saved := st.saved + ConstMacros.ReplaceConstVars(Trim(lines[st.i]), env.consts) + "\n",
                flag := true);
    TopTextTurn(env, lines, st);
    SectionGoesOn(env, lines, st, next);
  }

  /** So a run of text lines, from an empty buffer, becomes one paragraph holding their texts
      when the step ends. */
  lemma TextRunAtStepEnd(env: Env, lines: seq<string>, st: SectionState)
    requires env.version != Current && st.i < |lines| && st.saved == "" && !st.flag
    requires forall k :: st.i <= k < |lines| ==> BufferedLine(env, lines[k])
    ensures SectionLoop(env, lines, st) ==
      Ok(Outcome(lines, st.vars, st.out + [TextBlock(Trim(Buffered(env.consts, lines[st.i..])))], |lines|))
  {
    TextRunBuffered(env, lines, st, |lines|);
    assert lines[st.i..|lines|] == lines[st.i..];
    var b := Buffered(env.consts, lines[st.i..]);
    assert "" + b == b;
    assert AfterRun(env.consts, lines, st, |lines|) == st.(i := |lines|, saved := b, flag := true);
    SectionEnds(env, lines, st.(i := |lines|, saved := b, flag := true));
    assert Flush(env, true, b).0 == [TextBlock(Trim(b))];
  }

  /** Helper: a raised buffer `b` is flushed whole, in both versions. */
  lemma RaisedFlush(env: Env, b: string)
    ensures Flush(env, true, b) == ([TextBlock(Trim(b))], "")
  {
  }

  /** Helper: a question after a raised buffer `b` emits the paragraph, then what it asks. */
  lemma QuestionAfterText(env: Env, lines: seq<string>, st: SectionState, q: Option<Questions.Question>)
    requires st.i < |lines| && st.flag
    requires Kind(env, lines[st.i]) == QuestionLine && env.ask(lines[st.i], st.vars) == Ok(q)
    ensures SectionLoop(env, lines, st) ==
      SectionLoop(env, lines, st.(i := st.i + 1, out := st.out + [TextBlock(Trim(st.saved))] + Asked(q),
                                  saved := "", flag := false))
  {
    TopQuestionTurn(env, lines, st, q);
    RaisedFlush(env, st.saved);
    SectionGoesOn(env, lines, st, st.(i := st.i + 1, out := st.out + [TextBlock(Trim(st.saved))] + Asked(q),
                                      saved := "", flag := false));
  }

  /** Helper: `{end}` after a raised buffer `b` emits the paragraph, the end text, and the
      empty paragraph of the final flush. */
  lemma EndAfterText(env: Env, lines: seq<string>, st: SectionState)
    requires env.version != Current && st.i < |lines| && st.flag && Kind(env, lines[st.i]) == EndLine
    ensures SectionLoop(env, lines, st) ==
      Ok(Outcome(lines, st.vars, st.out + [TextBlock(Trim(st.saved)), TextBlock(EndText), TextBlock("")], 0))
  {
    SectionStopsAtEnd(env, lines, st);
    RaisedFlush(env, st.saved);
    RaisedFlush(env, "");
    assert st.out + [TextBlock(Trim(st.saved))] + [TextBlock(EndText)] + [TextBlock(Trim(""))] ==
      st.out + [TextBlock(Trim(st.saved)), TextBlock(EndText), TextBlock("")];
  }

  /** Helper: once a run has left `b` in the buffer before a question, the question emits
      the paragraph and what it asks. */
  lemma QuestionEndsRun(env: Env, lines: seq<string>, st: SectionState, j: nat, q: Option<Questions.Question>, b: string)
    requires j < |lines| && st.saved == "" && !st.flag
    requires Kind(env, lines[j]) == QuestionLine && env.ask(lines[j], st.vars) == Ok(q)
    requires SectionLoop(env, lines, st) == SectionLoop(env, lines, st.(i := j, saved := b, flag := true))
    ensures SectionLoop(env, lines, st) ==
      SectionLoop(env, lines, st.(i := j + 1, out := st.out + [TextBlock(Trim(b))] + Asked(q)))
  {
    var at := st.(i := j, saved := b, flag := true);
    QuestionAfterText(env, lines, at, q);
    assert at.(i := j + 1, out := st.out + [TextBlock(Trim(b))] + Asked(q), saved := "", flag := false) ==
      st.(i := j + 1, out := st.out + [TextBlock(Trim(b))] + Asked(q));
  }

  /** ... and also when a question follows: one paragraph, then the question. */
  lemma TextRunThenQuestion(env: Env, lines: seq<string>, st: SectionState, j: nat, q: Option<Questions.Question>)
    requires env.version != Current && st.i < j < |lines| && st.saved == "" && !st.flag
    requires forall k :: st.i <= k < j ==> BufferedLine(env, lines[k])
    requires Kind(env, lines[j]) == QuestionLine && env.ask(lines[j], st.vars) == Ok(q)
    ensures SectionLoop(env, lines, st) ==
      SectionLoop(env, lines, st.(i := j + 1, out := st.out + [TextBlock(Trim(Buffered(env.consts, lines[st.i..j])))] + Asked(q)))
  {
    TextRunBuffered(env, lines, st, j);
    var b := Buffered(env.consts, lines[st.i..j]);
    assert "" + b == b;
    assert AfterRun(env.consts, lines, st, j) == st.(i := j, saved := b, flag := true);
    QuestionEndsRun(env, lines, st, j, q, b);
  }

  /** ... and when `{end}` follows: one paragraph, the end text, and the empty paragraph the
      final flush makes because the flag is still up. */
  lemma TextRunThenEnd(env: Env, lines: seq<string>, st: SectionState, j: nat)
    requires env.version != Current && st.i < j < |lines| && st.saved == "" && !st.flag
    requires forall k :: st.i <= k < j ==> BufferedLine(env, lines[k])
    requires Kind(env, lines[j]) == EndLine
    ensures SectionLoop(env, lines, st) ==
      Ok(Outcome(lines, st.vars,
                 st.out + [TextBlock(Trim(Buffered(env.consts, lines[st.i..j]))), TextBlock(EndText), TextBlock("")], 0))
  {
    TextRunBuffered(env, lines, st, j);
    var b := Buffered(env.consts, lines[st.i..j]);
    assert "" + b == b;
    var at := st.(i := j, saved := b, flag := true);
    assert AfterRun(env.consts, lines, st, j) == at;
    EndAfterText(env, lines, at);
  }

  /** Parsing every step, never stopping early: what `parser` does when no step answers 0. */
  function ParseEverySteps(env: Env, steps: seq<seq<string>>, index: nat, vars: Registry, out: seq<Block>)
    : (r: Result<(Registry, seq<Block>)>)
    decreases |steps| - index
  {
    if index >= |steps| then Ok((vars, out))
    else
      match ParseSection(env, steps[index], index, 0, vars, out)
      case Err(e) => Err(e)
      case Ok(o) => ParseEverySteps(env, steps, index + 1, o.vars, o.blocks)
  }

  /** In src/parser.js `parseSection` never answers 0 for a step with lines, and a step cut
      by `split` always has one, so `parser` goes through every step and never adds the final
      Back button. */
  lemma {:induction false} CurrentParsesEveryStep(env: Env, steps: seq<seq<string>>, index: nat, vars: Registry,
                                                  out: seq<Block>)
    requires env.version == Current
    requires forall k :: index <= k < |steps| ==> steps[k] != []
    ensures ParseSteps(env, steps, index, vars, out) == ParseEverySteps(env, steps, index, vars, out)
    decreases |steps| - index
  {
    if index < |steps| {
      var r := ParseSection(env, steps[index], index, 0, vars, out);
      if r.Ok? {
        CurrentParsesEveryStep(env, steps, index + 1, r.value.vars, r.value.blocks);
      }
    }
  }

  /** The steps `parser` receives are cut into lines by `split`, which never gives an empty
      list, so the newer parser never adds the final Back button. */
  lemma CurrentParserNeverHalts(env: Env, steps: seq<string>, startIndex: nat, vars: Registry)
    requires env.version == Current
    ensures ParseSteps(env, Map(steps, StepLines), startIndex, vars, []) ==
      ParseEverySteps(env, Map(steps, StepLines), startIndex, vars, [])
  {
    var lps := Map(steps, StepLines);
    forall k | startIndex <= k < |lps|
      ensures lps[k] != []
    {
      MapIndex(steps, StepLines, k);
    }
    CurrentParsesEveryStep(env, lps, startIndex, vars, []);
  }
}
