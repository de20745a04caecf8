/**
 * Constant macros of src/parser.js: `constVariableReader` collects the definitions
 * `[name] const: value` that start a line, and `replaceConstVars` substitutes the uses
 * `{const name}` in text.
 */
module ConstMacros {

  import opened Wrappers
  import opened JsStrings
  import opened VariableMarkers

  type ConstMap = map<string, string>

  /** `^` under the `m` flag. */
  predicate LineStartAt(s: string, p: nat) {
    p == 0 || (0 < p <= |s| && IsLineTerminator(s[p - 1]))
  }

  /** Where `(.+)` starts once `\s*` has run from `lo` to `hi`: the greedy `\s*` gives back
      spaces until one that is not a line terminator is left for `.`. */
  function ValueStart(s: string, lo: nat, hi: nat): (k: Option<nat>)
    requires lo <= hi <= |s|
    ensures k.Some? ==> lo <= k.value <= hi && k.value < |s| && !IsLineTerminator(s[k.value])
    ensures hi < |s| && !IsLineTerminator(s[hi]) ==> k == Some(hi)
    decreases hi
  {
    if hi < |s| && !IsLineTerminator(s[hi]) then Some(hi)
    else if hi == lo then None
    else ValueStart(s, lo, hi - 1)
  }

  /** `/^\[([a-z_][a-z0-9_]*)]\s+const:\s*(.+)$/gim` at `p`: the name, the raw value and where
      the match ends. `\s+` must stop right before `const:`, since `c` is not a space; `.+`
      runs to the end of the line, where `$` holds. */
  function ConstAt(s: string, p: nat): (r: Option<(string, string, nat)>)
    ensures r.Some? ==> p < r.value.2 <= |s|
  {
    if !LineStartAt(s, p) then None
    else match BracketNameEnd(s, p)
      case None => None
      case Some(e) =>
        var r1 := SpaceRunEnd(s, e);
        if r1 == e || !MatchesNoCase(s, r1, "const:") then None
        else match ValueStart(s, r1 + 6, SpaceRunEnd(s, r1 + 6))
          case None => None
          case Some(k) =>
            var m := DotRunEnd(s, k);
            Some((s[p + 1..e - 1], s[k..m], m))
  }

  /** The successive `exec` calls from position `p`, each recording its definition with the
      value trimmed, a later definition of a name replacing an earlier one. */
  function ConstsFrom(s: string, p: nat, consts: ConstMap): ConstMap
    decreases |s| - p
  {
    if p >= |s| then consts
    else match ConstAt(s, p)
      case Some((name, value, m)) => ConstsFrom(s, m, consts[name := Trim(value)])
      case None => ConstsFrom(s, p + 1, consts)
  }

  /** `constVariableReader`: the `exec` loop, which resumes each search at `lastIndex`, the
      end of the previous match. */
  method ConstVariableReader(text: string) returns (consts: ConstMap)
    ensures consts == ConstsFrom(text, 0, map[])
  {
    consts := map[];
    var p := 0;
    while p < |text|
      invariant p <= |text|
      invariant ConstsFrom(text, p, consts) == ConstsFrom(text, 0, map[])
      decreases |text| - p
    {
      var found := ConstAt(text, p);
      if found.Some? {
        var (name, value, m) := found.value;
        consts := consts[name := Trim(value)];
        p := m;
      } else {
        p := p + 1;
      }
    }
  }

  /** `\{const\s+([a-z_][a-z0-9_]*)}` at `p`, without regard to case: the name and the
      position after `}`. */
  function MacroAt(s: string, p: nat): (r: Option<(string, nat)>)
    ensures r.Some? ==> p < |s| && s[p] == '{' && p < r.value.1 <= |s|
  {
    if p < |s| && s[p] == '{' && MatchesNoCase(s, p + 1, "const") then
      var r1 := SpaceRunEnd(s, p + 6);
      if p + 6 < r1 < |s| && IsNameStart(s[r1]) then
        var q := WordRunEnd(s, r1 + 1);
        if q < |s| && s[q] == '}' then Some((s[r1..q], q + 1)) else None
      else None
    else None
  }

  /** `replace` with the global flag from position `p`: each use of a known constant becomes
      its value, an unknown use stays as it was written. */
  function ReplaceFrom(s: string, p: nat, consts: ConstMap): string
    decreases |s| - p
  {
    if p >= |s| then []
    else match MacroAt(s, p)
      case Some((name, e)) =>
        (if name in consts then consts[name] else s[p..e]) + ReplaceFrom(s, e, consts)
      case None => [s[p]] + ReplaceFrom(s, p + 1, consts)
  }

  /** `replaceConstVars`. */
  function ReplaceConstVars(text: string, consts: ConstMap): string
  {
    ReplaceFrom(text, 0, consts)
  }

  // ---------------------------------------------------------------------------
  // Properties
  // ---------------------------------------------------------------------------

  /** Constant names are identifiers and constant values carry no surrounding spaces. */
  predicate WellFormed(consts: ConstMap) {
    forall n :: n in consts ==> IsMarkerName(n) && IsTrimmed(consts[n])
  }

  /** Every constant collected has an identifier for its name and a trimmed value. */
  lemma {:induction false} ConstsAreTrimmed(s: string, p: nat, consts: ConstMap)
    requires WellFormed(consts)
    ensures WellFormed(ConstsFrom(s, p, consts))
    decreases |s| - p
  {
    if p < |s| {
      var found := ConstAt(s, p);
      if found.Some? {
        var (name, value, m) := found.value;
        ConstAtName(s, p);
        WellFormedUpdate(consts, name, Trim(value));
        ConstsAreTrimmed(s, m, consts[name := Trim(value)]);
      } else {
        ConstsAreTrimmed(s, p + 1, consts);
      }
    }
  }

  lemma WellFormedUpdate(consts: ConstMap, name: string, value: string)
    requires WellFormed(consts) && IsMarkerName(name) && IsTrimmed(value)
    ensures WellFormed(consts[name := value])
  {
  }

  lemma ConstAtName(s: string, p: nat)
    requires ConstAt(s, p).Some?
    ensures IsMarkerName(ConstAt(s, p).value.0)
  {
    var e := BracketNameEnd(s, p).value;
    assert ConstAt(s, p).value.0 == s[p + 1..e - 1];
  }

  /** A text with no `{` comes out of the substitution unchanged. */
  lemma {:induction false} NoMacroUnchanged(s: string, p: nat, consts: ConstMap)
    requires p <= |s| && forall k :: p <= k < |s| ==> s[k] != '{'
    ensures ReplaceFrom(s, p, consts) == s[p..]
    decreases |s| - p
  {
    if p < |s| {
      NoMacroUnchanged(s, p + 1, consts);
      assert s[p..] == [s[p]] + s[p + 1..];
    }
  }

  /** With no constants defined, every use stays exactly as written. */
  lemma {:induction false} UnknownMacrosKept(s: string, p: nat)
    requires p <= |s|
    ensures ReplaceFrom(s, p, map[]) == s[p..]
    decreases |s| - p
  {
    if p < |s| {
      match MacroAt(s, p)
      case Some((name, e)) =>
        UnknownMacrosKept(s, e);
        assert s[p..] == s[p..e] + s[e..];
      case None =>
        UnknownMacrosKept(s, p + 1);
        assert s[p..] == [s[p]] + s[p + 1..];
    }
  }

  /** A use of a known constant between two stretches of plain text is replaced by the value,
      and nothing else changes. */
  lemma MacroReplaced(pre: string, name: string, post: string, consts: ConstMap)
    requires '{' !in pre && '{' !in post
    requires IsMarkerName(name) && name in consts
    ensures ReplaceConstVars(pre + "{const " + name + "}" + post, consts) == pre + consts[name] + post
  {
    var s := pre + "{const " + name + "}" + post;
    var e := |pre| + |name| + 8;
    MacroRead(s, pre, name, post);
    assert s[e..] == post && s[..|pre|] == pre;
    NoMacroUnchanged(s, e, consts);
    MacroStep(s, |pre|, name, e, consts);
    PlainPrefix(s, |pre|, consts);
  }

  /** Helper: the macro at the end of `pre` reads `name`. */
  lemma MacroRead(s: string, pre: string, name: string, post: string)
    requires s == pre + "{const " + name + "}" + post && IsMarkerName(name)
    ensures MacroAt(s, |pre|) == Some((name, |pre| + |name| + 8))
  {
    var p := |pre|;
    var r1 := p + 7;
    var q := r1 + |name|;
    MacroLayout(s, pre, name, post);
    MatchesLowerCase(s, p + 1, "const");
    assert s[r1] == s[r1..q][0];
    assert SpaceRunEnd(s, p + 6) == r1 by {
      assert SpaceRunEnd(s, p + 7) == r1;
    }
    NameRun(s, r1, q, name);
  }

  lemma NameRun(s: string, r1: nat, q: nat, name: string)
    requires r1 < q < |s| && s[r1..q] == name && s[q] == '}' && IsMarkerName(name)
    ensures WordRunEnd(s, r1 + 1) == q
  {
    assert forall k :: r1 + 1 <= k < q ==> s[k] == name[k - r1];
    WordRunExact(s, r1 + 1, q);
  }

  lemma MacroLayout(s: string, pre: string, name: string, post: string)
    requires s == pre + "{const " + name + "}" + post
    ensures |pre| + |name| + 8 <= |s|
    ensures s[|pre|] == '{' && s[|pre| + 1..|pre| + 6] == "const" && s[|pre| + 6] == ' '
    ensures s[|pre| + 7..|pre| + 7 + |name|] == name && s[|pre| + 7 + |name|] == '}'
  {
  }

  /** Helper: a character that is not `{` is copied. */
  lemma CopyPlain(s: string, p: nat, consts: ConstMap)
    requires p < |s| && s[p] != '{'
    ensures ReplaceFrom(s, p, consts) == [s[p]] + ReplaceFrom(s, p + 1, consts)
  {
    assert MacroAt(s, p).None?;
  }

  /** Helper: the text before the macro is copied. */
  lemma PlainPrefix(s: string, q: nat, consts: ConstMap)
    requires q <= |s| && '{' !in s[..q]
    ensures ReplaceFrom(s, 0, consts) == s[..q] + ReplaceFrom(s, q, consts)
  {
    var p := 0;
    while p < q
      invariant p <= q
      invariant ReplaceFrom(s, 0, consts) == s[..p] + ReplaceFrom(s, p, consts)
    {
      CopyStep(s, p, q, consts);
      p := p + 1;
    }
  }

  lemma CopyStep(s: string, p: nat, q: nat, consts: ConstMap)
    requires p < q <= |s| && '{' !in s[..q]
    ensures s[..p] + ReplaceFrom(s, p, consts) == s[..p + 1] + ReplaceFrom(s, p + 1, consts)
  {
    assert s[p] == s[..q][p];
    CopyPlain(s, p, consts);
    assert s[..p + 1] == s[..p] + [s[p]];
    AppendAssoc(s[..p], [s[p]], ReplaceFrom(s, p + 1, consts));
  }

  /** Helper: a known macro is replaced by its value. */
  lemma MacroStep(s: string, p: nat, name: string, e: nat, consts: ConstMap)
    requires MacroAt(s, p) == Some((name, e)) && name in consts && p < |s|
    ensures ReplaceFrom(s, p, consts) == consts[name] + ReplaceFrom(s, e, consts)
  {
  }

  /** A definition line is collected with its value trimmed. */
  lemma DefinitionCollected(name: string, value: string)
    requires IsMarkerName(name) && value != [] && !IsSpace(value[0]) && NoLineTerminator(value)
    ensures ConstsFrom("[" + name + "] const: " + value, 0, map[]) == map[name := Trim(value)]
  {
    var s := "[" + name + "] const: " + value;
    DefinitionRead(s, name, value);
  }

  lemma DefinitionRead(s: string, name: string, value: string)
    requires s == "[" + name + "] const: " + value
    requires IsMarkerName(name) && value != [] && !IsSpace(value[0]) && NoLineTerminator(value)
    ensures ConstAt(s, 0) == Some((name, value, |s|))
  {
    DefinitionLayout(s, name, value);
    var e := |name| + 2;
    DefinitionSpaces(s, e, value);
    MatchesLowerCase(s, e + 1, "const:");
    ValueToEnd(s, e + 8, value);
    ConstAtParts(s, 0, e, e + 1, e + 8);
    assert s[e + 8..|s|] == value;
  }

  /** Helper: the pieces of a definition put together. */
  lemma ConstAtParts(s: string, p: nat, e: nat, r1: nat, k: nat)
    requires LineStartAt(s, p) && BracketNameEnd(s, p) == Some(e)
    requires SpaceRunEnd(s, e) == r1 != e && r1 + 6 <= |s| && MatchesNoCase(s, r1, "const:")
    requires ValueStart(s, r1 + 6, SpaceRunEnd(s, r1 + 6)) == Some(k)
    ensures ConstAt(s, p) == Some((s[p + 1..e - 1], s[k..DotRunEnd(s, k)], DotRunEnd(s, k)))
  {
  }

  /** Helper: the single spaces around `const:` and the value's first character. */
  lemma DefinitionSpaces(s: string, e: nat, value: string)
    requires e + 8 <= |s| && s[e] == ' ' && s[e + 1..e + 7] == "const:" && s[e + 7] == ' '
    requires s[e + 8..] == value && value != [] && !IsSpace(value[0])
    ensures SpaceRunEnd(s, e) == e + 1 && SpaceRunEnd(s, e + 7) == e + 8
    ensures ValueStart(s, e + 7, e + 8) == Some(e + 8)
  {
    var k := e + 8;
    assert s[e + 1] == s[e + 1..e + 7][0];
    assert SpaceRunEnd(s, e + 1) == e + 1;
    assert s[k] == value[0];
    assert SpaceRunEnd(s, k) == k;
    LineTerminatorIsSpace(s[k]);
  }

  lemma ValueToEnd(s: string, k: nat, value: string)
    requires k <= |s| && s[k..] == value && NoLineTerminator(value)
    ensures DotRunEnd(s, k) == |s|
  {
    assert forall m :: k <= m < |s| ==> s[m] == value[m - k];
    DotRunToEnd(s, k);
  }

  lemma DefinitionLayout(s: string, name: string, value: string)
    requires s == "[" + name + "] const: " + value && IsMarkerName(name)
    ensures BracketNameEnd(s, 0) == Some(|name| + 2) && s[1..|name| + 1] == name
    ensures s[|name| + 2] == ' ' && s[|name| + 3..|name| + 9] == "const:"
    ensures s[|name| + 9] == ' ' && s[|name| + 10..] == value
  {
    assert s == [] + "[" + name + "]" + (" const: " + value);
    BracketNameRead(s, [], name, " const: " + value);
  }

  /** Two definition lines, one after the other: both are collected, and when they name the
      same constant the later value replaces the earlier one. */
  lemma TwoDefinitions(name1: string, value1: string, name2: string, value2: string)
    requires IsMarkerName(name1) && value1 != [] && !IsSpace(value1[0]) && NoLineTerminator(value1)
    requires IsMarkerName(name2) && value2 != [] && !IsSpace(value2[0]) && NoLineTerminator(value2)
    ensures ConstsFrom(("[" + name1 + "] const: " + value1) + "\n" + ("[" + name2 + "] const: " + value2), 0, map[]) ==
      map[name1 := Trim(value1)][name2 := Trim(value2)]
    ensures name1 == name2 ==>
      ConstsFrom(("[" + name1 + "] const: " + value1) + "\n" + ("[" + name2 + "] const: " + value2), 0, map[]) ==
        map[name2 := Trim(value2)]
  {
    var s := ("[" + name1 + "] const: " + value1) + "\n" + ("[" + name2 + "] const: " + value2);
    var e1, a := |name1| + 2, |name1| + 10 + |value1|;
    var p2, e2 := a + 1, a + 1 + |name2| + 2;
    TwoLinesLayout(s, e1, a, p2, e2, name1, value1, name2, value2);
    TwoLinesCollected(s, e1, a, p2, e2, name1, value1, name2, value2);
  }

  /** Helper: where the pieces of two definition lines sit, the first one's `]` ending at
      `e1` and its value at `a`, the second one starting at `p2` with its `]` ending at `e2`. */
  lemma TwoLinesLayout(s: string, e1: nat, a: nat, p2: nat, e2: nat,
                       name1: string, value1: string, name2: string, value2: string)
    requires s == ("[" + name1 + "] const: " + value1) + "\n" + ("[" + name2 + "] const: " + value2)
    requires IsMarkerName(name1) && value1 != [] && !IsSpace(value1[0]) && NoLineTerminator(value1)
    requires IsMarkerName(name2) && value2 != [] && !IsSpace(value2[0]) && NoLineTerminator(value2)
    requires e1 == |name1| + 2 && a == |name1| + 10 + |value1| && p2 == a + 1 && e2 == p2 + |name2| + 2
    ensures e1 + 8 + |value1| == a && e2 + 8 + |value2| == |s| && 0 < a < |s|
    ensures DefinitionPieces(s, 0, e1, name1, value1)
    ensures DefinitionPieces(s, p2, e2, name2, value2)
    ensures !IsLineTerminator(s[a - 1])
  {
    var line1 := "[" + name1 + "] const:" + [' '] + value1;
    var line2 := "[" + name2 + "] const:" + [' '] + value2;
    assert line1 == "[" + name1 + "] const: " + value1 && line2 == "[" + name2 + "] const: " + value2;
    assert s == [] + line1 + ("\n" + line2);
    DefinitionLineLayout(s, 0, e1, [], name1, ' ', value1, "\n" + line2);
    assert s == (line1 + "\n") + line2 + [];
    DefinitionLineLayout(s, p2, e2, line1 + "\n", name2, ' ', value2, []);
    assert s[|line1| - 1] == value1[|value1| - 1];
  }

  /** Helper: the pieces of two definition lines in place, as `TwoLinesLayout` has them. */
  lemma TwoLinesCollected(s: string, e1: nat, a: nat, p2: nat, e2: nat,
                          name1: string, value1: string, name2: string, value2: string)
    requires e1 + 8 + |value1| == a && p2 == a + 1 && e2 + 8 + |value2| == |s| && 0 < a < |s|
    requires DefinitionPieces(s, 0, e1, name1, value1)
    requires DefinitionPieces(s, p2, e2, name2, value2)
    requires !IsLineTerminator(s[a - 1])
    ensures ConstsFrom(s, 0, map[]) == map[name1 := Trim(value1)][name2 := Trim(value2)]
  {
    DefinitionAt(s, 0, e1, a, name1, value1);
    DefinitionAtEnd(s, p2, e2, name2, value2);
    SecondLineCollected(s, a, name1, value1, name2, value2);
  }

  /** Helper: a definition whose value runs to the end of the text. */
  lemma DefinitionAtEnd(s: string, p: nat, e: nat, name: string, value: string)
    requires DefinitionPieces(s, p, e, name, value) && e + 8 + |value| == |s|
    ensures ConstAt(s, p) == Some((name, value, |s|))
  {
    DefinitionAt(s, p, e, |s|, name, value);
  }

  /** Helper: a definition ending at `a`, a line feed, and a definition running to the end. */
  lemma SecondLineCollected(s: string, a: nat, name1: string, value1: string, name2: string, value2: string)
    requires 0 < a < |s| && !IsLineTerminator(s[a - 1])
    requires ConstAt(s, 0) == Some((name1, value1, a))
    requires ConstAt(s, a + 1) == Some((name2, value2, |s|))
    ensures ConstsFrom(s, 0, map[]) == map[name1 := Trim(value1)][name2 := Trim(value2)]
  {
    var first := map[name1 := Trim(value1)];
    ConstsMatchStep(s, 0, map[]);
    NotAtLineStart(s, a);
    ConstsSkipStep(s, a, first);
    ConstsMatchStep(s, a + 1, first);
  }

  /** Helper: a match is recorded and the search resumes after it. */
  lemma ConstsMatchStep(s: string, p: nat, consts: ConstMap)
    requires p < |s| && ConstAt(s, p).Some?
    ensures ConstsFrom(s, p, consts) ==
      ConstsFrom(s, ConstAt(s, p).value.2, consts[ConstAt(s, p).value.0 := Trim(ConstAt(s, p).value.1)])
  {
  }

  /** Helper: without a match the search moves on by one character. */
  lemma ConstsSkipStep(s: string, p: nat, consts: ConstMap)
    requires p < |s| && ConstAt(s, p).None?
    ensures ConstsFrom(s, p, consts) == ConstsFrom(s, p + 1, consts)
  {
  }

  /** Helper: no definition starts in the middle of a line. */
  lemma NotAtLineStart(s: string, a: nat)
    requires 0 < a <= |s| && !IsLineTerminator(s[a - 1])
    ensures ConstAt(s, a).None?
  {
  }

  /** Where `[name]`, `const:` and the value sit in a definition line at offset `|pre|` that
      starts a line and ends one, with `gap` between `const:` and the value. */
  lemma DefinitionLineLayout(s: string, p: nat, e: nat, pre: string, name: string, gap: char, value: string, post: string)
    requires s == pre + ("[" + name + "] const:" + [gap] + value) + post && IsSpace(gap)
    requires p == |pre| && e == p + |name| + 2
    requires IsMarkerName(name) && value != [] && !IsSpace(value[0]) && NoLineTerminator(value)
    requires pre == [] || IsLineTerminator(pre[|pre| - 1])
    requires post == [] || IsLineTerminator(post[0])
    ensures DefinitionPieces(s, p, e, name, value)
  {
    var tail := " const:" + [gap] + value;
    assert "[" + name + "] const:" + [gap] + value == "[" + name + "]" + tail;
    LineLayout(s, p, e, e + 8 + |value|, pre, name, tail, post);
    ConstTailLayout(s, e, gap, value);
  }

  /** The pieces of a definition at `p` whose `]` ends at `e`, its value ending the line. */
  predicate DefinitionPieces(s: string, p: nat, e: nat, name: string, value: string) {
    LineStartAt(s, p) && BracketNameEnd(s, p) == Some(e) && s[p + 1..e - 1] == name
    && e + 8 + |value| <= |s| && s[e] == ' ' && s[e + 1..e + 7] == "const:" && IsSpace(s[e + 7])
    && s[e + 8..e + 8 + |value|] == value
    && value != [] && !IsSpace(value[0]) && NoLineTerminator(value)
    && (e + 8 + |value| == |s| || IsLineTerminator(s[e + 8 + |value|]))
  }

  /** Helper: where the pieces of a line `[name]` + `tail` sit in the text. */
  lemma LineLayout(s: string, p: nat, e: nat, m: nat, pre: string, name: string, tail: string, post: string)
    requires s == pre + ("[" + name + "]" + tail) + post && IsMarkerName(name)
    requires p == |pre| && e == p + |name| + 2 && m == e + |tail|
    requires pre == [] || IsLineTerminator(pre[|pre| - 1])
    requires post == [] || IsLineTerminator(post[0])
    ensures LineStartAt(s, p)
    ensures BracketNameEnd(s, p) == Some(e) && s[p + 1..e - 1] == name
    ensures m <= |s| && s[e..m] == tail
    ensures m == |s| || IsLineTerminator(s[m])
  {
    assert s == pre + "[" + name + "]" + (tail + post);
    BracketNameRead(s, pre, name, tail + post);
  }

  /** Helper: where `const:`, the character after it and the value sit. */
  lemma ConstTailLayout(s: string, e: nat, gap: char, value: string)
    requires e + 8 + |value| <= |s| && s[e..e + 8 + |value|] == " const:" + [gap] + value
    ensures s[e] == ' ' && s[e + 1..e + 7] == "const:" && s[e + 7] == gap && s[e + 8..e + 8 + |value|] == value
  {
    var t := " const:" + [gap] + value;
    var u := s[e..e + 8 + |value|];
    assert u == t;
    assert s[e] == u[0] && s[e + 7] == u[7];
    assert t[..7] == " const:";
    assert t[1..7] == t[..7][1..];
    assert " const:"[1..] == "const:";
    assert forall j :: 0 <= j < 6 ==> s[e + 1..e + 7][j] == u[1..7][j];
    assert s[e + 1..e + 7] == u[1..7];
    assert forall j :: 0 <= j < |value| ==> s[e + 8..e + 8 + |value|][j] == u[8..][j];
    assert s[e + 8..e + 8 + |value|] == u[8..] && t[8..] == value;
  }

  /** Helper: a definition whose pieces are in place at `p`, with `]` ending at `e`. */
  lemma DefinitionAt(s: string, p: nat, e: nat, m: nat, name: string, value: string)
    requires m == e + 8 + |value| && DefinitionPieces(s, p, e, name, value)
    ensures ConstAt(s, p) == Some((name, value, m))
  {
    var k := e + 8;
    assert s[k] == value[0];
    SpacesAroundConst(s, e, value[0]);
    ConstKeyword(s, e + 1);
    ValueRead(s, k, value);
    ConstAtParts(s, p, e, e + 1, k);
  }

  /** Helper: `const:` matches itself without regard to case. */
  lemma ConstKeyword(s: string, r: nat)
    requires r + 6 <= |s| && s[r..r + 6] == "const:"
    ensures MatchesNoCase(s, r, "const:")
  {
    MatchesLowerCase(s, r, "const:");
  }

  /** Helper: `.+` reads the value, which ends its line. */
  lemma ValueRead(s: string, k: nat, value: string)
    requires k + |value| <= |s| && s[k..k + |value|] == value && NoLineTerminator(value)
    requires k + |value| == |s| || IsLineTerminator(s[k + |value|])
    ensures DotRunEnd(s, k) == k + |value| && s[k..DotRunEnd(s, k)] == value
  {
    assert forall j :: k <= j < k + |value| ==> s[j] == value[j - k];
    DotRunExact(s, k, k + |value|);
  }

  /** Helper: one space before `const:`, a space or a line feed after it, then a character
      that is not a space. */
  lemma SpacesAroundConst(s: string, e: nat, c: char)
    requires e + 8 < |s| && s[e] == ' ' && s[e + 1..e + 7] == "const:" && IsSpace(s[e + 7])
    requires s[e + 8] == c && !IsSpace(c)
    ensures SpaceRunEnd(s, e) == e + 1 && SpaceRunEnd(s, e + 7) == e + 8
    ensures ValueStart(s, e + 7, e + 8) == Some(e + 8)
  {
    assert s[e + 1] == s[e + 1..e + 7][0];
    assert SpaceRunEnd(s, e + 1) == e + 1;
    assert SpaceRunEnd(s, e + 8) == e + 8;
    LineTerminatorIsSpace(c);
  }

  /** Helper: `.` runs over characters that end no line, and stops at the first one that
      does or at the end of the text. */
  lemma {:induction false} DotRunExact(s: string, k: nat, m: nat)
    requires k <= m <= |s|
    requires forall j :: k <= j < m ==> !IsLineTerminator(s[j])
    requires m == |s| || IsLineTerminator(s[m])
    ensures DotRunEnd(s, k) == m
    decreases m - k
  {
    if k < m {
      DotRunExact(s, k + 1, m);
    }
  }

  /** A definition with nothing after `const:` takes the next line as its value, since `\s*`
      runs over the line feed: that line is not read as a definition of its own. */
  lemma EmptyValueTakesNextLine(name: string, rest: string)
    requires IsMarkerName(name) && rest != [] && !IsSpace(rest[0]) && NoLineTerminator(rest)
    ensures ConstAt("[" + name + "] const:" + "\n" + rest, 0) ==
      Some((name, rest, |"[" + name + "] const:" + "\n" + rest|))
    ensures ConstsFrom("[" + name + "] const:" + "\n" + rest, 0, map[]) == map[name := Trim(rest)]
  {
    EmptyValueLayout("[" + name + "] const:" + "\n" + rest, name, rest);
    OnlyDefinition("[" + name + "] const:" + "\n" + rest, |name| + 2, name, rest);
  }

  /** Helper: where the pieces of `[name] const:`, a line feed and `rest` sit. */
  lemma EmptyValueLayout(s: string, name: string, rest: string)
    requires s == "[" + name + "] const:" + "\n" + rest
    requires IsMarkerName(name) && rest != [] && !IsSpace(rest[0]) && NoLineTerminator(rest)
    ensures DefinitionPieces(s, 0, |name| + 2, name, rest) && |name| + 10 + |rest| == |s|
  {
    assert s == [] + ("[" + name + "] const:" + ['\n'] + rest) + [];
    LineTerminatorIsSpace('\n');
    DefinitionLineLayout(s, 0, |name| + 2, [], name, '\n', rest, []);
  }

  /** Helper: a text that is one definition is read as that one definition. */
  lemma OnlyDefinition(s: string, e: nat, name: string, value: string)
    requires DefinitionPieces(s, 0, e, name, value) && e + 8 + |value| == |s|
    ensures ConstAt(s, 0) == Some((name, value, |s|))
    ensures ConstsFrom(s, 0, map[]) == map[name := Trim(value)]
  {
    DefinitionAtEnd(s, 0, e, name, value);
    ConstsMatchStep(s, 0, map[]);
  }
}
