/**
 * The scope matcher `findBlockEnd` of codeExecution.js: starting at a line,
 * scan the following lines character by character, counting braces once the
 * first `{` has been seen, skipping string literals and comments, and report
 * the line on which the depth returns to zero.
 */
module ScopeMatcher {

  import opened Wrappers
  import opened JsStrings

  /** The variables the JavaScript scanner keeps across characters and lines. */
  predicate IsQuote(c: char) {
    c == '"' || c == '\''
  }

  datatype ScanState = ScanState(braceCount: int, inString: bool, stringChar: char, foundOpening: bool)

  /** Initial state. `stringChar` starts as "" in the source; it is only read while in a string. */
  const Initial := ScanState(0, false, ' ', false)

  /** Depth is zero until the first `{`, and at least one after it (it returns as soon as it
      hits zero); an open string literal remembers the quote that opened it. */
  predicate Valid(st: ScanState) {
    && (!st.foundOpening ==> st.braceCount == 0)
    && (st.foundOpening ==> st.braceCount >= 1)
    && (st.inString ==> IsQuote(st.stringChar))
  }

  datatype LineOutcome = Closed | Open(st: ScanState)

  /** A block-comment closer `*` `/` starts at `m`. */
  predicate CloserAt(line: string, m: int) {
    0 <= m && m + 1 < |line| && line[m] == '*' && line[m + 1] == '/'
  }

  /** Position of the inner loop that looks for the `*` `/` closer of a block comment. */
  function CloserFrom(line: string, k: nat): (r: nat)
    ensures k <= r
    ensures k < r ==> r < |line|
    ensures r + 1 < |line| ==> CloserAt(line, r)
    ensures forall m :: k <= m < r ==> !CloserAt(line, m)
    decreases |line| - k
  {
    if k + 1 < |line| && !(line[k] == '*' && line[k + 1] == '/') then CloserFrom(line, k + 1) else k
  }

  /** String-literal bookkeeping for the character at `j`: a quote opens a string only when
      it does not follow a word character; the remembered quote closes it. */
  function QuoteStep(line: string, j: nat, st: ScanState): (r: ScanState)
    requires j < |line| && Valid(st)
    ensures Valid(r)
    ensures r.braceCount == st.braceCount && r.foundOpening == st.foundOpening
  {
    var c := line[j];
    if !st.inString && IsQuote(c) then
      if j > 0 && IsWordChar(line[j - 1]) then st else st.(inString := true, stringChar := c)
    else if st.inString && c == st.stringChar then st.(inString := false)
    else st
  }

  /** The inner `while (j < chunk.length)` loop: the rest of one line from position `j`. */
  function ScanChars(line: string, j: nat, st: ScanState): (r: LineOutcome)
    requires Valid(st)
    ensures r.Open? ==> Valid(r.st)
    ensures r.Closed? ==> exists m :: j <= m < |line| && line[m] == '}'
    decreases if j < |line| then |line| - j else 0
  {
    if j >= |line| then Open(st)
    else
      var c := line[j];
      if c == '/' && j + 1 < |line| && line[j + 1] == '/' then Open(st)
      else if c == '/' && j + 1 < |line| && line[j + 1] == '*' then
        ScanChars(line, CloserFrom(line, j + 2) + 2, st)
      else
        var st1 := QuoteStep(line, j, st);
        if st1.inString then ScanChars(line, j + 1, st1)
        else if c == '{' then
          ScanChars(line, j + 1, st1.(foundOpening := true, braceCount := st1.braceCount + 1))
        else if c == '}' && st1.foundOpening then
          if st1.braceCount - 1 == 0 then Closed
          else ScanChars(line, j + 1, st1.(braceCount := st1.braceCount - 1))
        else ScanChars(line, j + 1, st1)
  }

  /** The outer `for` loop over lines `i`, `i+1`, ...: the index of the closing line, or
      None where the source throws "Unmatched closing brace". */
  function ScanLines(text: seq<string>, i: nat, st: ScanState): (r: Option<nat>)
    requires Valid(st)
    ensures r.Some? ==> i <= r.value < |text| && '}' in text[r.value]
    decreases |text| - i
  {
    if i >= |text| then None
    else match ScanChars(text[i], 0, st)
      case Closed => Some(i)
      case Open(next) => ScanLines(text, i + 1, next)
  }

  /** What `findBlockEnd(text, startIndex)` computes. */
  function BlockEnd(text: seq<string>, startIndex: nat): (r: Option<nat>)
    ensures r.Some? ==> startIndex <= r.value < |text| && '}' in text[r.value]
  {
    ScanLines(text, startIndex, Initial)
  }

  /** `findBlockEnd` itself: a loop over the lines that carries the scanner's variables from
      line to line and returns the line on which the depth goes back to zero. */
  method FindBlockEnd(text: seq<string>, startIndex: nat) returns (r: Option<nat>)
    ensures r == BlockEnd(text, startIndex)
    ensures r.Some? ==> startIndex <= r.value < |text|
  {
    var st := Initial;
    var i := startIndex;
    while i < |text|
      invariant Valid(st)
      invariant ScanLines(text, i, st) == BlockEnd(text, startIndex)
      decreases |text| - i
    {
      var outcome := ScanLine(text[i], st);
      if outcome.Closed? {
        return Some(i);
      }
      st := outcome.st;
      i := i + 1;
    }
    return None;
  }

  /** The inner loop of `findBlockEnd` over the characters of one line, from the variables
      `st` the previous lines left: `Closed` when the depth goes back to zero on it. */
  method ScanLine(chunk: string, st: ScanState) returns (r: LineOutcome)
    requires Valid(st)
    ensures r == ScanChars(chunk, 0, st)
  {
    var braceCount := st.braceCount;
    var inString := st.inString;
    var stringChar := st.stringChar;
    var foundOpening := st.foundOpening;
    var j := 0;
    while j < |chunk|
      invariant Valid(ScanState(braceCount, inString, stringChar, foundOpening))
      invariant ScanChars(chunk, j, ScanState(braceCount, inString, stringChar, foundOpening)) == ScanChars(chunk, 0, st)
      decreases if j < |chunk| then |chunk| - j else 0
    {
      var c := chunk[j];
      // a line comment ends the scan of this line
      if c == '/' && j + 1 < |chunk| && chunk[j + 1] == '/' {
        break;
      }
      // a block comment is skipped up to its closer on the same line
      if c == '/' && j + 1 < |chunk| && chunk[j + 1] == '*' {
        j := SkipBlockComment(chunk, j + 2);
        continue;
      }
      // a quote opens or closes a string literal
      var quoted := QuoteStep(chunk, j, ScanState(braceCount, inString, stringChar, foundOpening));
      inString, stringChar := quoted.inString, quoted.stringChar;
      if inString {
        j := j + 1;
        continue;
      }
      if c == '{' {
        foundOpening := true;
        braceCount := braceCount + 1;
      } else if c == '}' && foundOpening {
        braceCount := braceCount - 1;
        if braceCount == 0 {
          return Closed;
        }
      }
      j := j + 1;
    }
    return Open(ScanState(braceCount, inString, stringChar, foundOpening));
  }

  /** The loop that skips a block comment opened before `from`: the position after its
      closer, or two past the end of the line when it does not close on it. */
  method SkipBlockComment(chunk: string, from: nat) returns (j: nat)
    ensures j == CloserFrom(chunk, from) + 2
  {
    j := from;
    while j < |chunk| - 1 && !(chunk[j] == '*' && chunk[j + 1] == '/')
      invariant from <= j
      invariant CloserFrom(chunk, j) == CloserFrom(chunk, from)
      decreases |chunk| - j
    {
      j := j + 1;
    }
    j := j + 2;
  }

  // ---------------------------------------------------------------------------
  // Properties of the scan
  // ---------------------------------------------------------------------------

  /** Characters the scanner reacts to. */
  predicate IsSpecial(c: char) {
    c == '{' || c == '}' || IsQuote(c) || c == '/'
  }

  predicate Neutral(line: string) {
    forall k :: 0 <= k < |line| ==> !IsSpecial(line[k])
  }

  /** A run of characters the scanner does not react to, from `j` up to `m`, leaves the state
      as it is: the scan continues from `m`, or ends there open when `m` is the line's end. */
  lemma {:induction false} NeutralRun(line: string, j: nat, m: nat, st: ScanState)
    requires Valid(st) && j <= m <= |line|
    requires forall k :: j <= k < m ==> !IsSpecial(line[k])
    ensures ScanChars(line, j, st) == if m == |line| then Open(st) else ScanChars(line, m, st)
    decreases m - j
  {
    if j < m {
      assert !IsSpecial(line[j]);
      assert QuoteStep(line, j, st) == st;
      NeutralRun(line, j + 1, m, st);
    }
  }

  /** A line with no brace, quote or slash leaves the scanner's state exactly as it was. */
  lemma NeutralKeepsState(line: string, j: nat, st: ScanState)
    requires Valid(st) && Neutral(line)
    ensures ScanChars(line, j, st) == Open(st)
  {
    if j < |line| {
      NeutralRun(line, j, |line|, st);
    }
  }

  /** Without a `}` on any remaining line, the scan runs out of lines: the source throws. */
  lemma {:induction false} NoCloserMeansUnmatched(text: seq<string>, i: nat, st: ScanState)
    requires Valid(st)
    requires forall m :: i <= m < |text| ==> '}' !in text[m]
    ensures ScanLines(text, i, st) == None
    decreases |text| - i
  {
    if i < |text| {
      var outcome := ScanChars(text[i], 0, st);
      if outcome.Open? {
        NoCloserMeansUnmatched(text, i + 1, outcome.st);
      }
    }
  }

  /** Before the first `{`, a line without `{` cannot start the count, whatever `}` it holds:
      depth stays zero and never goes negative. */
  lemma {:induction false} ClosingBeforeOpeningIgnored(line: string, j: nat, st: ScanState)
    requires Valid(st) && !st.foundOpening
    requires '{' !in line
    ensures ScanChars(line, j, st).Open?
    ensures !ScanChars(line, j, st).st.foundOpening && ScanChars(line, j, st).st.braceCount == 0
    decreases if j < |line| then |line| - j else 0
  {
    if j < |line| {
      var c := line[j];
      assert c != '{';
      if c == '/' && j + 1 < |line| && line[j + 1] == '/' {
      } else if c == '/' && j + 1 < |line| && line[j + 1] == '*' {
        ClosingBeforeOpeningIgnored(line, CloserFrom(line, j + 2) + 2, st);
      } else {
        var st1 := QuoteStep(line, j, st);
        ClosingBeforeOpeningIgnored(line, j + 1, st1);
      }
    }
  }

  /** Inside a string literal, a line without the closing quote and without a slash changes
      nothing: its braces are not counted and the string stays open into the next line. */
  lemma {:induction false} StringHidesBraces(line: string, j: nat, st: ScanState)
    requires Valid(st) && st.inString
    requires st.stringChar !in line && '/' !in line
    ensures ScanChars(line, j, st) == Open(st)
    decreases if j < |line| then |line| - j else 0
  {
    if j < |line| {
      assert line[j] != '/' && line[j] != st.stringChar;
      assert QuoteStep(line, j, st) == st;
      StringHidesBraces(line, j + 1, st);
      var r := ScanChars(line, j + 1, st);
      assert r == Open(st);
      assert ScanChars(line, j, st) == r;
    }
  }

  /** `//` ends the scan of the line, even inside a string literal: whatever follows it
      is never looked at. */
  lemma {:induction false} LineCommentEndsScan(p: string, rest: string, j: nat, st: ScanState)
    requires Valid(st) && '/' !in p
    requires j <= |p|
    ensures ScanChars(p + "//" + rest, j, st) == ScanChars(p, j, st)
    decreases |p| - j
  {
    var line := p + "//" + rest;
    if j == |p| {
      assert line[j] == '/' && line[j + 1] == '/';
    } else {
      assert line[j] == p[j] && p[j] != '/';
      assert j > 0 ==> line[j - 1] == p[j - 1];
      var st1 := QuoteStep(line, j, st);
      assert st1 == QuoteStep(p, j, st);
      if st1.inString {
        LineCommentEndsScan(p, rest, j + 1, st1);
      } else if p[j] == '{' {
        LineCommentEndsScan(p, rest, j + 1, st1.(foundOpening := true, braceCount := st1.braceCount + 1));
      } else if p[j] == '}' && st1.foundOpening {
        if st1.braceCount - 1 != 0 {
          LineCommentEndsScan(p, rest, j + 1, st1.(braceCount := st1.braceCount - 1));
        }
      } else {
        LineCommentEndsScan(p, rest, j + 1, st1);
      }
    }
  }

  /** Lines that change nothing are passed over. */
  lemma {:induction false} SkipNeutralLines(text: seq<string>, i: nat, k: nat, st: ScanState)
    requires Valid(st) && i <= k <= |text|
    requires forall m :: i <= m < k ==> Neutral(text[m])
    ensures ScanLines(text, i, st) == ScanLines(text, k, st)
    decreases k - i
  {
    if i < k {
      NeutralKeepsState(text[i], 0, st);
      SkipNeutralLines(text, i + 1, k, st);
    }
  }

  /** A code block: a line holding a single `{`, neutral lines, and a line holding a single `}`.
      The scope matcher returns the index of the `}` line. */
  lemma CodeBlockEnd(text: seq<string>, start: nat, close: nat)
    requires start < close < |text|
    requires text[start] == "{" && text[close] == "}"
    requires forall m :: start < m < close ==> Neutral(text[m])
    ensures BlockEnd(text, start) == Some(close)
  {
    var inBlock := ScanState(1, false, ' ', true);
    assert ScanChars(text[start], 1, inBlock) == Open(inBlock);
    assert ScanChars(text[start], 0, Initial) == Open(inBlock);
    SkipNeutralLines(text, start + 1, close, inBlock);
    assert ScanChars(text[close], 0, inBlock) == Closed;
  }

  /** A header whose braces balance on its own line, such as `{showif x > 1}`, closes on
      that same line: the scope it opens has no body. */
  lemma SameLineHeader(text: seq<string>, start: nat, middle: string)
    requires start < |text| && Neutral(middle)
    requires text[start] == "{" + middle + "}"
    ensures BlockEnd(text, start) == Some(start)
  {
    var line := text[start];
    var inBlock := ScanState(1, false, ' ', true);
    assert line[0] == '{';
    assert ScanChars(line, 1, inBlock) == Closed by {
      NeutralTail(line, middle, 1, inBlock);
    }
  }

  /** Helper: the neutral middle of `{middle}` is crossed without change, then `}` closes. */
  lemma {:induction false} NeutralTail(line: string, middle: string, j: nat, st: ScanState)
    requires line == "{" + middle + "}" && Neutral(middle)
    requires st == ScanState(1, false, ' ', true)
    requires 1 <= j <= |middle| + 1
    ensures ScanChars(line, j, st) == Closed
    decreases |middle| + 1 - j
  {
    if j <= |middle| {
      assert line[j] == middle[j - 1];
      NeutralTail(line, middle, j + 1, st);
    } else {
      assert line[j] == '}';
    }
  }
}
