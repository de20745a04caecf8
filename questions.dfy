/**
 * `questionParsing` (src/parser.js): a `Q:` line becomes a multiple-choice question
 * `Q: prompt [name] (One of: a, b, c)` or a typed input `Q: prompt [name] (type)`, provided
 * `name` is already a variable of the procedure. The three regular expressions are written
 * out with their backtracking order: `.` stops at line terminators, `$` is the end of the
 * text (no `m` flag), greedy groups try their longest choice first, lazy groups their
 * shortest.
 */
module Questions {

  import opened Wrappers
  import opened JsStrings
  import opened Seqs
  import opened Variables

  datatype Question =
    | Choice(prompt: string, options: seq<string>, name: string)
    | Input(prompt: string, kind: string, name: string)

  // ---------------------------------------------------------------------------
  // The test `/^(.*?)\[(\w+)\]\s*\(\s*One of:\s*([\w\s,]+)\)$/`, on the raw line
  // ---------------------------------------------------------------------------

  /** `[\w\s,]`. */
  predicate InOptionClass(c: char) {
    IsWordChar(c) || IsSpace(c) || c == ','
  }

  /** Everything after the `[` at `a`. Each `\s*` is followed by a character that is not a
      space, so it must take its whole run; `[\w\s,]+` must then run up to a final `)`. */
  predicate ChoiceTailAt(s: string, a: nat)
    requires a < |s|
  {
    var b := WordRunEnd(s, a + 1);
    a + 1 < b < |s| && s[b] == ']' &&
    var c := SpaceRunEnd(s, b + 1);
    c < |s| && s[c] == '(' &&
    var d := SpaceRunEnd(s, c + 1);
    OccursAt(s, "One of:", d) && d + 7 < |s| - 1 && s[|s| - 1] == ')' &&
    forall k :: d + 7 <= k < |s| - 1 ==> InOptionClass(s[k])
  }

  /** The test holds when some `[`, reached by `.*?` without crossing a line terminator,
      starts a tail that matches. */
  predicate IsChoiceLine(s: string) {
    exists a :: 0 <= a < |s| && s[a] == '[' && NoLineTerminator(s[..a]) && ChoiceTailAt(s, a)
  }

  // ---------------------------------------------------------------------------
  // The split `/^(.*)\[(.*?)\]\s*\(\s*One of:\s*(.*?)\)$/`
  // ---------------------------------------------------------------------------

  /** After the `]` at `q`: where the options group starts, if the rest matches. The lazy
      group can only end at the final `)`, and it cannot cross a line terminator. */
  function ChoiceRestAt(s: string, q: nat): (r: Option<nat>)
    requires q < |s|
    ensures r.Some? ==> q < r.value < |s| && s[|s| - 1] == ')'
  {
    var c := SpaceRunEnd(s, q + 1);
    if c < |s| && s[c] == '(' then
      var d := SpaceRunEnd(s, c + 1);
      if OccursAt(s, "One of:", d) then
        var r := SpaceRunEnd(s, d + 7);
        if r < |s| - 1 && s[|s| - 1] == ')' && NoLineTerminator(s[r..|s| - 1]) then Some(r)
        else if r == |s| - 1 && s[r] == ')' then Some(r)
        else None
      else None
    else None
  }

  /** The lazy `(.*?)\]` after the `[` at `p`: the first `]` from `q` on whose rest matches. */
  function ChoiceCloseFrom(s: string, q: nat): (r: Option<nat>)
    ensures r.Some? ==> q <= r.value < |s| && s[r.value] == ']' && ChoiceRestAt(s, r.value).Some?
    decreases |s| - q
  {
    if q >= |s| then None
    else if s[q] == ']' && ChoiceRestAt(s, q).Some? then Some(q)
    else if IsLineTerminator(s[q]) then None
    else ChoiceCloseFrom(s, q + 1)
  }

  /** The greedy `^(.*)\[`: the `[` positions below `hi` tried from the right. */
  function ChoiceSearch(s: string, hi: nat): (r: Option<(nat, nat, nat)>)
    requires hi <= |s|
    ensures r.Some? ==> r.value.0 < r.value.1 < r.value.2 < |s|
    decreases hi
  {
    if hi == 0 then None
    else
      var p := hi - 1;
      if s[p] == '[' then
        match ChoiceCloseFrom(s, p + 1)
        case Some(q) => Some((p, q, ChoiceRestAt(s, q).value))
        case None => ChoiceSearch(s, p)
      else ChoiceSearch(s, p)
  }

  // ---------------------------------------------------------------------------
  // The split `/^(.*?)\[(.*?)\]\s*(?:\(([^)]+)\))?$/`
  // ---------------------------------------------------------------------------

  /** After the `]` at `q`: `None` if the rest fails, otherwise the optional type text. The
      group is tried first and needs its `)` at the very end; without it `$` must follow the
      spaces. */
  function InputRestAt(s: string, q: nat): Option<Option<string>>
    requires q < |s|
  {
    var r := SpaceRunEnd(s, q + 1);
    if r < |s| && s[r] == '(' then
      match IndexOf(s, ")", r + 1)
      case Some(c) => if r + 1 < c && c + 1 == |s| then Some(Some(s[r + 1..c])) else None
      case None => None
    else if r == |s| then Some(None)
    else None
  }

  /** The lazy `(.*?)\]`: the first `]` from `q` on whose rest matches. */
  function InputCloseFrom(s: string, q: nat): (r: Option<nat>)
    ensures r.Some? ==> q <= r.value < |s| && s[r.value] == ']' && InputRestAt(s, r.value).Some?
    decreases |s| - q
  {
    if q >= |s| then None
    else if s[q] == ']' && InputRestAt(s, q).Some? then Some(q)
    else if IsLineTerminator(s[q]) then None
    else InputCloseFrom(s, q + 1)
  }

  /** The lazy `^(.*?)\[`: the `[` positions from `p` on, tried from the left. */
  function InputSearch(s: string, p: nat): (r: Option<(nat, nat, Option<string>)>)
    ensures r.Some? ==> p <= r.value.0 < r.value.1 < |s|
    decreases |s| - p
  {
    if p >= |s| then None
    else if s[p] == '[' && InputCloseFrom(s, p + 1).Some? then
      var q := InputCloseFrom(s, p + 1).value;
      Some((p, q, InputRestAt(s, q).value))
    else if IsLineTerminator(s[p]) then None
    else InputSearch(s, p + 1)
  }

  // ---------------------------------------------------------------------------
  // questionParsing
  // ---------------------------------------------------------------------------

  function NameOf(q: Question): string {
    match q
    case Choice(_, _, name) => name
    case Input(_, _, name) => name
  }

  /** `line.substring(2).trim()`. */
  function QuestionText(line: string): string {
    Trim(if |line| >= 2 then line[2..] else [])
  }

  /** `/^(.*)\[(.*?)\]\s*\(\s*One of:\s*(.*?)\)$/` on the question text: the prompt, the
      options split at commas and trimmed, and the name. */
  function ChoiceQuestionOf(str: string): Option<Question>
  {
    match ChoiceSearch(str, DotRunEnd(str, 0))
    case None => None
    case Some((p, q, r)) =>
      Some(Choice(str[..p], Map(Split(str[r..|str| - 1], ","), Trim), str[p + 1..q]))
  }

  /** `/^(.*?)\[(.*?)\]\s*(?:\(([^)]+)\))?$/` on the question text: the prompt, the trimmed
      type or `text`, and the name. */
  function InputQuestionOf(str: string): Option<Question>
  {
    match InputSearch(str, 0)
    case None => None
    case Some((p, q, kind)) =>
      var shown := match kind case Some(t) => Trim(t) case None => "text";
      Some(Input(str[..p], shown, str[p + 1..q]))
  }

  /** The question a `Q:` line asks, whatever its variable: the test on the raw line picks
      which expression reads it; `None` when that one does not match. */
  function MatchQuestion(line: string): Option<Question>
  {
    if IsChoiceLine(line) then ChoiceQuestionOf(QuestionText(line))
    else InputQuestionOf(QuestionText(line))
  }

  /** `questionParsing`, with `known` the names the test `match[2] in variables` accepts. A
      null match throws (the source reads a property of `null`). */
  function ParseQuestionWith(line: string, known: set<string>): (r: Result<Option<Question>>)
    ensures r.Ok? && r.value.Some? ==> NameOf(r.value.value) in known
  {
    match MatchQuestion(line)
    case None => Err(MalformedQuestion)
    case Some(q) => if NameOf(q) in known then Ok(Some(q)) else Ok(None)
  }

  /** The question a `Q:` line asks, if its variable exists. The variable must be one of the
      procedure's own: see `ParseQuestionAsWritten` for the source's `in` test. */
  function QuestionParsing(line: string, variables: Registry): Result<Option<Question>>
  {
    ParseQuestionWith(line, variables.Keys)
  }

  /** The names every plain object inherits from `Object.prototype`, which the `in`
      operator also accepts. */
  const ObjectPrototypeNames: set<string> := {
    "constructor", "hasOwnProperty", "isPrototypeOf", "propertyIsEnumerable",
    "toString", "toLocaleString", "valueOf", "__proto__",
    "__defineGetter__", "__defineSetter__", "__lookupGetter__", "__lookupSetter__"
  }

  /** `questionParsing` as written: `match[2] in variables` is also true for inherited names. */
  function ParseQuestionAsWritten(line: string, variables: Registry): Result<Option<Question>>
  {
    ParseQuestionWith(line, variables.Keys + ObjectPrototypeNames)
  }

  // ---------------------------------------------------------------------------
  // Properties
  // ---------------------------------------------------------------------------

  /** A `Q:` line with no `[` at all has no name to read: the parse throws. */
  lemma NoBracketThrows(line: string, variables: Registry)
    requires '[' !in line
    ensures QuestionParsing(line, variables) == Err(MalformedQuestion)
  {
    var str := QuestionText(line);
    var rest := if |line| >= 2 then line[2..] else [];
    TrimChars(rest, '[');
    assert '[' !in str;
    NoBracketNoInput(str, 0);
    assert !IsChoiceLine(line);
  }

  lemma {:induction false} NoBracketNoInput(s: string, p: nat)
    requires '[' !in s
    ensures InputSearch(s, p).None?
    decreases |s| - p
  {
    if p < |s| {
      assert s[p] in s;
      NoBracketNoInput(s, p + 1);
    }
  }

  /** Only a line ending in `)` can pass the multiple-choice test. */
  lemma NotChoiceLine(s: string)
    requires s == [] || s[|s| - 1] != ')'
    ensures !IsChoiceLine(s)
  {
  }

  /** A plain input question: `Q: prompt [name]` reads `name` with the default type `text`,
      and the prompt keeps the space before the bracket. */
  lemma InputQuestion(prompt: string, name: string)
    requires prompt == [] || !IsSpace(prompt[0])
    requires '[' !in prompt && NoLineTerminator(prompt)
    requires ']' !in name && NoLineTerminator(name)
    ensures MatchQuestion("Q: " + prompt + "[" + name + "]") == Some(Input(prompt, "text", name))
  {
    var line := "Q: " + prompt + "[" + name + "]";
    var str := prompt + "[" + name + "]";
    assert line == "Q: " + str;
    assert str[0] == (if prompt == [] then '[' else prompt[0]);
    QuestionTextOf(str);
    assert line[|line| - 1] == ']';
    NotChoiceLine(line);
    var p := |prompt|;
    var q := p + 1 + |name|;
    InputBracketsAt(str, prompt, name);
    BracketSlices(str, prompt, name);
  }

  lemma BracketSlices(s: string, prompt: string, name: string)
    requires s == prompt + "[" + name + "]"
    ensures s[..|prompt|] == prompt && s[|prompt| + 1..|prompt| + 1 + |name|] == name
  {
  }

  /** Helper: `line.substring(2).trim()` drops the space after `Q:`. */
  lemma QuestionTextOf(body: string)
    requires body != [] && !IsSpace(body[0]) && !IsSpace(body[|body| - 1])
    ensures QuestionText("Q: " + body) == body
  {
    assert ("Q: " + body)[2..] == [' '] + body;
    TrimLeadingSpace(' ', body);
    TrimOfTrimmed(body);
  }

  /** Helper: the lazy searches stop at the first `[` and the following `]`. */
  lemma InputBracketsAt(str: string, prompt: string, name: string)
    requires str == prompt + "[" + name + "]"
    requires '[' !in prompt && NoLineTerminator(prompt)
    requires ']' !in name && NoLineTerminator(name)
    ensures InputSearch(str, 0) == Some((|prompt|, |prompt| + 1 + |name|, None))
  {
    var p := |prompt|;
    var q := p + 1 + |name|;
    assert InputRestAt(str, q) == Some(None);
    assert InputCloseFrom(str, p + 1) == Some(q) by {
      LazyClose(str, p + 1, q);
    }
    assert str[p] == '[';
    LazyOpen(str, 0, p);
  }

  lemma {:induction false} LazyClose(s: string, k: nat, q: nat)
    requires k <= q < |s| && s[q] == ']' && InputRestAt(s, q).Some?
    requires forall m :: k <= m < q ==> s[m] != ']' && !IsLineTerminator(s[m])
    ensures InputCloseFrom(s, k) == Some(q)
    decreases q - k
  {
    if k < q {
      LazyClose(s, k + 1, q);
    }
  }

  lemma {:induction false} LazyOpen(s: string, k: nat, p: nat)
    requires k <= p < |s| && s[p] == '[' && InputCloseFrom(s, p + 1).Some?
    requires forall m :: k <= m < p ==> s[m] != '[' && !IsLineTerminator(s[m])
    ensures InputSearch(s, k) == InputSearch(s, p)
    decreases p - k
  {
    if k < p {
      LazyOpen(s, k + 1, p);
    }
  }

  /** `\w+`. */
  predicate IsWord(name: string) {
    name != [] && forall k :: 0 <= k < |name| ==> IsWordChar(name[k])
  }

  /** A multiple-choice question: `Q: prompt [name] (One of: a, b, c)` reads `name`, with the
      options split at the commas and trimmed. */
  lemma ChoiceQuestion(prompt: string, name: string, opts: string)
    requires prompt == [] || !IsSpace(prompt[0])
    requires NoLineTerminator(prompt) && IsWord(name)
    requires opts != [] && !IsSpace(opts[0]) && NoLineTerminator(opts)
    requires forall k :: 0 <= k < |opts| ==> InOptionClass(opts[k])
    ensures MatchQuestion("Q: " + prompt + "[" + name + "] (One of: " + opts + ")") ==
      Some(Choice(prompt, Map(Split(opts, ","), Trim), name))
  {
    var line := "Q: " + prompt + "[" + name + "] (One of: " + opts + ")";
    var body := prompt + "[" + name + "] (One of: " + opts + ")";
    calc {
      MatchQuestion(line);
    == { ChoiceLineTest(line, prompt, name, opts); }
      ChoiceQuestionOf(QuestionText(line));
    == { ChoiceBodyText(line, body, prompt, name, opts); }
      ChoiceQuestionOf(body);
    == { ChoiceBodyFacts(body, prompt, name, opts);
         ChoiceBodyRead(body, prompt, name, opts); }
      Some(Choice(prompt, Map(Split(opts, ","), Trim), name));
    }
  }

  /** Helper: the raw line passes the multiple-choice test. */
  lemma ChoiceLineTest(line: string, prompt: string, name: string, opts: string)
    requires line == "Q: " + prompt + "[" + name + "] (One of: " + opts + ")"
    requires NoLineTerminator(prompt) && IsWord(name) && opts != []
    requires forall k :: 0 <= k < |opts| ==> InOptionClass(opts[k])
    ensures IsChoiceLine(line)
  {
    var head := "Q: " + prompt;
    ChoiceTail(line, head, name, opts);
    assert line[..|head|] == head by {
      ChoiceLayout(line, head, name, opts);
    }
    assert NoLineTerminator(head) by {
      forall m | 0 <= m < |head|
        ensures !IsLineTerminator(head[m])
      {
        if m >= 3 {
          assert head[m] == prompt[m - 3];
        }
      }
    }
  }

  /** Helper: `line.substring(2).trim()` of a choice line is everything after `Q: `. */
  lemma ChoiceBodyText(line: string, body: string, prompt: string, name: string, opts: string)
    requires line == "Q: " + prompt + "[" + name + "] (One of: " + opts + ")"
    requires body == prompt + "[" + name + "] (One of: " + opts + ")"
    requires prompt == [] || !IsSpace(prompt[0])
    ensures QuestionText(line) == body
  {
    assert line == "Q: " + body;
    ChoiceLayout(body, prompt, name, opts);
    assert body[0] == (if prompt == [] then '[' else prompt[0]);
    QuestionTextOf(body);
  }

  /** Helper: where each part of a choice line sits. */
  lemma ChoiceLayout(s: string, prompt: string, name: string, opts: string)
    requires s == prompt + "[" + name + "] (One of: " + opts + ")"
    ensures |s| == |prompt| + 1 + |name| + 12 + |opts|
    ensures s[..|prompt|] == prompt && s[|prompt|] == '['
    ensures s[|prompt| + 1..|prompt| + 1 + |name|] == name
    ensures ChoiceSeparatorAt(s, |prompt| + 1 + |name|)
    ensures s[|prompt| + 1 + |name| + 11..|s| - 1] == opts && s[|s| - 1] == ')'
  {
    var q := |prompt| + 1 + |name|;
    assert s[q..q + 11] == "] (One of: ";
  }

  /** `] (One of: ` at `q`. */
  predicate ChoiceSeparatorAt(s: string, q: nat) {
    q + 11 <= |s| && s[q] == ']' && s[q + 1] == ' ' && s[q + 2] == '(' &&
    s[q + 3..q + 10] == "One of:" && s[q + 10] == ' '
  }

  /** What both expressions look at in a choice line: a `[` at `p`, a word up to `q`, then
      `] (One of: `, option characters, and a final `)`. */
  predicate ChoiceShape(s: string, p: nat, q: nat) {
    p + 1 < q && q + 12 < |s| && s[p] == '[' &&
    (forall m :: p < m < q ==> IsWordChar(s[m])) &&
    ChoiceSeparatorAt(s, q) &&
    (forall m :: q + 11 <= m < |s| - 1 ==> InOptionClass(s[m])) &&
    s[|s| - 1] == ')'
  }

  /** No `[` after `p`, and no line terminator at all. */
  predicate PlainAfter(s: string, p: nat) {
    (forall m :: p < m < |s| ==> s[m] != '[') && NoLineTerminator(s)
  }

  lemma ChoicePositions(s: string, prompt: string, name: string, opts: string)
    requires s == prompt + "[" + name + "] (One of: " + opts + ")"
    requires IsWord(name) && opts != []
    requires forall k :: 0 <= k < |opts| ==> InOptionClass(opts[k])
    ensures ChoiceShape(s, |prompt|, |prompt| + 1 + |name|)
  {
    ChoiceLayout(s, prompt, name, opts);
    var p := |prompt|;
    var q := p + 1 + |name|;
    forall m | p < m < q
      ensures IsWordChar(s[m])
    {
      assert s[m] == s[p + 1..q][m - p - 1];
    }
    forall m | q + 11 <= m < |s| - 1
      ensures InOptionClass(s[m])
    {
      assert s[m] == s[q + 11..|s| - 1][m - q - 11];
    }
  }

  /** Helper: after the `[` of the name no other `[` follows, and no line terminator occurs. */
  lemma ChoiceChars(s: string, prompt: string, name: string, opts: string)
    requires s == prompt + "[" + name + "] (One of: " + opts + ")"
    requires NoLineTerminator(prompt) && IsWord(name) && NoLineTerminator(opts)
    requires forall k :: 0 <= k < |opts| ==> InOptionClass(opts[k])
    ensures PlainAfter(s, |prompt|)
  {
    ChoiceLayout(s, prompt, name, opts);
    var p := |prompt|;
    var q := p + 1 + |name|;
    forall m | 0 <= m < |s|
      ensures (m > p ==> s[m] != '[') && !IsLineTerminator(s[m])
    {
      if m < p {
        assert s[m] == s[..p][m];
      } else if p < m < q {
        assert s[m] == s[p + 1..q][m - p - 1];
      } else if q + 3 <= m < q + 10 {
        assert s[m] == s[q + 3..q + 10][m - q - 3];
      } else if q + 11 <= m < |s| - 1 {
        assert s[m] == s[q + 11..|s| - 1][m - q - 11];
      }
    }
  }

  /** The multiple-choice test at `p`, from the shape alone. */
  lemma ChoiceTailFrom(s: string, p: nat, q: nat)
    requires ChoiceShape(s, p, q)
    ensures ChoiceTailAt(s, p)
  {
    WordRunExact(s, p + 1, q);
    assert SpaceRunEnd(s, q + 1) == q + 2;
    assert SpaceRunEnd(s, q + 3) == q + 3 by {
      assert s[q + 3] == s[q + 3..q + 10][0];
    }
    assert OccursAt(s, "One of:", q + 3);
    forall k | q + 10 <= k < |s| - 1
      ensures InOptionClass(s[k])
    {
    }
  }

  /** Helper: the line passes the multiple-choice test at its `[`. */
  lemma ChoiceTail(s: string, prompt: string, name: string, opts: string)
    requires s == prompt + "[" + name + "] (One of: " + opts + ")"
    requires IsWord(name) && opts != []
    requires forall k :: 0 <= k < |opts| ==> InOptionClass(opts[k])
    ensures |prompt| < |s| && s[|prompt|] == '[' && ChoiceTailAt(s, |prompt|)
  {
    ChoicePositions(s, prompt, name, opts);
    ChoiceTailFrom(s, |prompt|, |prompt| + 1 + |name|);
  }

  /** Helper: the facts about a choice line's text that its split depends on. */
  lemma ChoiceBodyFacts(s: string, prompt: string, name: string, opts: string)
    requires s == prompt + "[" + name + "] (One of: " + opts + ")"
    requires NoLineTerminator(prompt) && IsWord(name)
    requires opts != [] && !IsSpace(opts[0]) && NoLineTerminator(opts)
    requires forall k :: 0 <= k < |opts| ==> InOptionClass(opts[k])
    ensures ChoiceBody(s, prompt, name, opts)
  {
    ChoiceLayout(s, prompt, name, opts);
    ChoicePositions(s, prompt, name, opts);
    ChoiceChars(s, prompt, name, opts);
    assert s[|prompt| + 1 + |name| + 11] == s[|prompt| + 1 + |name| + 11..|s| - 1][0];
  }

  /** The text of a choice line, described by positions and pieces. */
  predicate ChoiceBody(s: string, prompt: string, name: string, opts: string) {
    var p, q := |prompt|, |prompt| + 1 + |name|;
    ChoiceShape(s, p, q) && PlainAfter(s, p) && !IsSpace(s[q + 11]) &&
    s[..p] == prompt && s[p + 1..q] == name && s[q + 11..|s| - 1] == opts
  }

  /** Helper: the split expression reads the prompt, the name and the options back. */
  lemma ChoiceBodyRead(s: string, prompt: string, name: string, opts: string)
    requires ChoiceBody(s, prompt, name, opts)
    ensures ChoiceQuestionOf(s) == Some(Choice(prompt, Map(Split(opts, ","), Trim), name))
  {
    var p, q := |prompt|, |prompt| + 1 + |name|;
    assert ChoiceSearch(s, DotRunEnd(s, 0)) == Some((p, q, q + 11)) by {
      ChoiceReadFrom(s, p, q);
    }
    ChoiceOfSearch(s, p, q, q + 11, prompt, name, opts);
  }

  /** The split expression at `p` and `q`, from the shape alone: the greedy `(.*)` stops at
      the last `[`, and the options start after the space that follows `One of:`. */
  lemma ChoiceReadFrom(s: string, p: nat, q: nat)
    requires ChoiceShape(s, p, q) && PlainAfter(s, p) && !IsSpace(s[q + 11])
    ensures ChoiceSearch(s, DotRunEnd(s, 0)) == Some((p, q, q + 11))
  {
    DotRunToEnd(s, 0);
    ChoiceRestRead(s, p, q);
    ChoiceLazyClose(s, p + 1, q);
    GreedyOpen(s, |s|, p);
  }

  /** The `]` at `q` closes the name: the separator and the options after it match. */
  lemma ChoiceRestRead(s: string, p: nat, q: nat)
    requires ChoiceShape(s, p, q) && PlainAfter(s, p) && !IsSpace(s[q + 11])
    ensures ChoiceRestAt(s, q) == Some(q + 11) && ChoiceCloseFrom(s, q) == Some(q)
  {
    assert SpaceRunEnd(s, q + 1) == q + 2;
    assert SpaceRunEnd(s, q + 3) == q + 3 by {
      assert s[q + 3] == s[q + 3..q + 10][0];
    }
    assert SpaceRunEnd(s, q + 10) == q + 11;
    assert NoLineTerminator(s[q + 11..|s| - 1]);
  }

  lemma ChoiceOfSearch(s: string, p: nat, q: nat, r: nat, prompt: string, name: string, opts: string)
    requires ChoiceSearch(s, DotRunEnd(s, 0)) == Some((p, q, r))
    requires s[..p] == prompt && s[p + 1..q] == name && s[r..|s| - 1] == opts
    ensures ChoiceQuestionOf(s) == Some(Choice(prompt, Map(Split(opts, ","), Trim), name))
  {
  }

  lemma {:induction false} ChoiceLazyClose(s: string, k: nat, q: nat)
    requires k <= q < |s| && ChoiceCloseFrom(s, q) == Some(q)
    requires forall m :: k <= m < q ==> s[m] != ']' && !IsLineTerminator(s[m])
    ensures ChoiceCloseFrom(s, k) == Some(q)
    decreases q - k
  {
    if k < q {
      ChoiceLazyClose(s, k + 1, q);
    }
  }

  lemma {:induction false} GreedyOpen(s: string, hi: nat, p: nat)
    requires p < hi <= |s|
    requires forall m :: p < m < hi ==> s[m] != '['
    ensures ChoiceSearch(s, hi) == ChoiceSearch(s, p + 1)
    decreases hi
  {
    if hi > p + 1 {
      GreedyOpen(s, hi - 1, p);
    }
  }

  // ---------------------------------------------------------------------------
  // Finding: inherited names pass the `in` test
  // ---------------------------------------------------------------------------

  /** As written, `Q: Name [constructor]` asks a question for a variable that was never
      declared, and its answer would overwrite an inherited property. */
  lemma InheritedNameAsked()
    ensures ParseQuestionAsWritten("Q: Name [constructor]", map[]) ==
      Ok(Some(Input("Name ", "text", "constructor")))
  {
    ConstructorLine("Q: Name [constructor]");
  }

  /** With the registry's own keys, the same line asks nothing. */
  lemma InheritedNameIgnored()
    ensures QuestionParsing("Q: Name [constructor]", map[]) == Ok(None)
  {
    ConstructorLine("Q: Name [constructor]");
  }

  lemma ConstructorLine(line: string)
    requires line == "Q: Name [constructor]"
    ensures MatchQuestion(line) == Some(Input("Name ", "text", "constructor"))
  {
    var prompt, name := "Name ", "constructor";
    assert NoLineTerminator(prompt) && '[' !in prompt by {
      assert prompt == ['N', 'a', 'm', 'e', ' '];
    }
    assert NoLineTerminator(name) && ']' !in name by {
      assert name == ['c', 'o', 'n', 's', 't', 'r', 'u', 'c', 't', 'o', 'r'];
    }
    InputQuestion(prompt, name);
    ConstructorText();
  }

  lemma ConstructorText()
    ensures "Q: " + "Name " + "[" + "constructor" + "]" == "Q: Name [constructor]"
  {
  }
}
