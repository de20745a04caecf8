/**
 * `extractVariablesAndCleanCode` (codeExecution.js): each line of a code block that,
 * once its leading whitespace is removed, matches the declaration pattern
 * `^(var|let|const)\s+([a-zA-Z_$][a-zA-Z0-9_$]*)(?:\s*=\s*([^;\n]+))?\s*;?\s*$` (flag `m`)
 * records its variable (the trimmed initializer, or undefined) and is deleted; blank lines
 * are dropped and the rest is rejoined with line feeds.
 */
module Declarations {

  import opened Wrappers
  import opened JsStrings
  import opened Variables
  import opened Seqs
  import IfRewrite

  /** What one declaration line yields: the name, and the initializer when there is one. */
  datatype Decl = Decl(name: string, value: Option<string>)

  predicate IsIdentStart(c: char) {
    IsAsciiLetter(c) || c == '_' || c == '$'
  }

  predicate IsIdentPart(c: char) {
    IsIdentStart(c) || IsDigit(c)
  }

  /** `[a-zA-Z_$][a-zA-Z0-9_$]*` as a whole string. */
  predicate IsIdentifier(s: string) {
    s != [] && IsIdentStart(s[0]) && forall k :: 0 < k < |s| ==> IsIdentPart(s[k])
  }

  // ---------------------------------------------------------------------------
  // The declaration pattern, with the backtracking order of a JavaScript regex
  // ---------------------------------------------------------------------------

  function IdentEnd(s: string, k: nat): (r: nat)
    requires k <= |s|
    ensures k <= r <= |s|
    ensures forall m {:trigger IsIdentPart(s[m])} :: k <= m < r ==> IsIdentPart(s[m])
    ensures r < |s| ==> !IsIdentPart(s[r])
    decreases |s| - k
  {
    if k < |s| && IsIdentPart(s[k]) then IdentEnd(s, k + 1) else k
  }

  /** `[^;\n]`. */
  predicate InValueClass(c: char) {
    c != ';' && c != '\n'
  }

  function ValueRunEnd(s: string, k: nat): (r: nat)
    requires k <= |s|
    ensures k <= r <= |s|
    ensures forall m {:trigger InValueClass(s[m])} :: k <= m < r ==> InValueClass(s[m])
    ensures r < |s| ==> !InValueClass(s[r])
    decreases |s| - k
  {
    if k < |s| && InValueClass(s[k]) then ValueRunEnd(s, k + 1) else k
  }

  /** `$` under the `m` flag: the end of the string or a line terminator. */
  predicate AtLineEnd(s: string, x: nat) {
    x == |s| || (x < |s| && IsLineTerminator(s[x]))
  }

  /** `\s*;?\s*$` can match from `x`; `semi` records that the optional `;` was taken.
      Backtracking explores every way to split the text between the three parts, so the
      tail matches exactly when some path through them reaches a line end. */
  predicate TailFrom(s: string, x: nat, semi: bool)
    requires x <= |s|
    decreases |s| - x
  {
    || AtLineEnd(s, x)
    || (x < |s| && IsSpace(s[x]) && TailFrom(s, x + 1, semi))
    || (x < |s| && !semi && s[x] == ';' && TailFrom(s, x + 1, true))
  }

  predicate TailMatches(s: string, v: nat)
    requires v <= |s|
  {
    TailFrom(s, v, false)
  }

  /** End of the keyword alternative `var|let|const` at `p`. */
  function KeywordEnd(s: string, p: nat): (r: Option<nat>)
    requires p <= |s|
    ensures r.Some? ==> p < r.value <= |s|
  {
    if OccursAt(s, "var", p) then Some(p + 3)
    else if OccursAt(s, "let", p) then Some(p + 3)
    else if OccursAt(s, "const", p) then Some(p + 5)
    else None
  }

  /** Greedy `[^;\n]+` from `v0`, giving back characters until the tail matches: the
      longest end in `(v0, v1]` that works. */
  function LongestValueEnd(s: string, v0: nat, v1: nat): (r: Option<nat>)
    requires v0 <= v1 <= |s|
    ensures r.Some? ==> v0 < r.value <= v1 && TailMatches(s, r.value)
    decreases v1
  {
    if v1 <= v0 then None
    else if TailMatches(s, v1) then Some(v1)
    else LongestValueEnd(s, v0, v1 - 1)
  }

  /** The greedy `\s*` after `=` gives back spaces one at a time: the initializer starts at
      the first `v0`, from `v0` down to `lo`, for which the rest can match. */
  function ValueSpan(s: string, lo: nat, v0: nat): (r: Option<(nat, nat)>)
    requires lo <= v0 <= |s|
    ensures r.Some? ==> lo <= r.value.0 < r.value.1 <= |s|
    decreases v0 - lo
  {
    match LongestValueEnd(s, v0, ValueRunEnd(s, v0))
    case Some(v1) => Some((v0, v1))
    case None => if v0 == lo then None else ValueSpan(s, lo, v0 - 1)
  }

  /** The identifier that starts at `i`: it is maximal, since a shorter one leaves an
      identifier character that nothing after it accepts. */
  function IdentifierAt(s: string, i: nat): (r: string)
    requires i < |s| && IsIdentStart(s[i])
    ensures IsIdentifier(r) && i + |r| <= |s| && r == s[i..i + |r|]
    ensures i + |r| < |s| ==> !IsIdentPart(s[i + |r|])
  {
    var e := IdentEnd(s, i + 1);
    var r := s[i..e];
    assert forall k :: 0 < k < |r| ==> r[k] == s[i + k];
    r
  }

  /** The optional group `(?:\s*=\s*([^;\n]+))?` from the end `e` of the identifier: the
      span of the captured initializer, if the group takes part in the match. */
  function InitializerSpan(s: string, e: nat): (r: Option<(nat, nat)>)
    requires e <= |s|
    ensures r.Some? ==> e < r.value.0 < r.value.1 <= |s|
  {
    var e1 := SpaceRunEnd(s, e);
    if e1 < |s| && s[e1] == '=' then ValueSpan(s, e1 + 1, SpaceRunEnd(s, e1 + 1)) else None
  }

  /** The pattern matched from position `p`: keyword, `\s+`, identifier, then the
      initializer is tried before it is skipped. */
  function DeclAt(s: string, p: nat): (r: Option<Decl>)
    requires p <= |s|
    ensures r.Some? ==> IsIdentifier(r.value.name)
  {
    match KeywordEnd(s, p)
    case None => None
    case Some(k) => DeclAfterKeyword(s, k, SpaceRunEnd(s, k))
  }

  /** After the keyword ending at `k`: `\s+` ends at `i`, so it needs at least one space,
      and the identifier follows it. */
  function DeclAfterKeyword(s: string, k: nat, i: nat): (r: Option<Decl>)
    requires k <= i <= |s|
    ensures r.Some? ==> IsIdentifier(r.value.name)
  {
    if i == k || i == |s| || !IsIdentStart(s[i]) then None
    else
      var name := IdentifierAt(s, i);
      DeclAfterName(s, name, i + |name|)
  }

  /** What follows the identifier `name` ending at `e`: the initializer group, or else the
      tail `\s*;?\s*$`. */
  function DeclAfterName(s: string, name: string, e: nat): (r: Option<Decl>)
    requires e <= |s|
    ensures r.Some? ==> r.value.name == name
  {
    match InitializerSpan(s, e)
    case Some(span) => Some(Decl(name, Some(Trim(s[span.0..span.1]))))
    case None => if TailMatches(s, e) then Some(Decl(name, None)) else None
  }

  /** `^` under the `m` flag holds at the start and after each line terminator; the first
      position where the pattern matches wins. */
  function DeclFrom(s: string, p: nat): (r: Option<Decl>)
    requires p <= |s|
    ensures r.Some? ==> IsIdentifier(r.value.name)
    decreases |s| - p
  {
    var here := if p == 0 || IsLineTerminator(s[p - 1]) then DeclAt(s, p) else None;
    if here.Some? then here
    else if p == |s| then None
    else DeclFrom(s, p + 1)
  }

  /** `line.trimStart().match(varRegex)`. */
  function MatchDeclaration(line: string): (r: Option<Decl>)
    ensures r.Some? ==> IsIdentifier(r.value.name)
  {
    DeclFrom(TrimStart(line), 0)
  }

  // ---------------------------------------------------------------------------
  // Extraction
  // ---------------------------------------------------------------------------

  /** `variables[varName] = value ? value.trim() : undefined`. */
  function ValueOf(d: Decl): JsValue {
    if d.value.Some? then Str(d.value.value) else Undefined
  }

  /** One step of the first loop, given what the pattern made of the line. */
  function Record(vars: Registry, m: Option<Decl>): (r: Registry)
  {
    match m
    case Some(d) => vars[d.name := ValueOf(d)]
    case None => vars
  }

  /** The first loop with any line classifier: the results are recorded in line order.
      The properties proved below hold whatever the classifier. */
  function RecordAll(vars: Registry, lines: seq<string>, classify: string -> Option<Decl>): Registry
  {
    if lines == [] then vars
    else Record(RecordAll(vars, lines[..|lines| - 1], classify), classify(lines[|lines| - 1]))
  }

  /** The variables after the declarations of `lines` have been recorded, in order. */
  function DeclareAll(vars: Registry, lines: seq<string>): Registry
  {
    RecordAll(vars, lines, MatchDeclaration)
  }

  /** A line survives when it is not a declaration and is not blank. */
  predicate IsKept(line: string) {
    MatchDeclaration(line).None? && Trim(line) != ""
  }

  function KeptLines(lines: seq<string>): seq<string>
  {
    Filter(lines, IsKept)
  }

  function CleanCode(code: string): string {
    Join(KeptLines(Split(code, "\n")), "\n")
  }

  /** The line as it stands after the first loop: a declaration is blanked. */
  function Blanked(line: string): string {
    if MatchDeclaration(line).Some? then "" else line
  }

  lemma RecordAllStep(vars: Registry, lines: seq<string>, i: nat, classify: string -> Option<Decl>)
    requires i < |lines|
    ensures RecordAll(vars, lines[..i + 1], classify) == Record(RecordAll(vars, lines[..i], classify), classify(lines[i]))
  {
    assert lines[..i + 1][..i] == lines[..i];
  }

  /** Filtering the blanked line by `trim() !== ""` keeps exactly the lines `IsKept` keeps. */
  lemma BlankedKept(line: string)
    ensures Trim(Blanked(line)) != "" <==> IsKept(line)
  {
    assert Trim("") == "";
  }

  /** The test of the second loop: `line.trim() !== ""`. */
  predicate NonBlank(line: string) {
    Trim(line) != ""
  }

  /** Filtering the blanked lines by `NonBlank` is filtering the original lines by `IsKept`. */
  lemma {:induction false} FilterBlanked(parts: seq<string>)
    ensures Filter(Map(parts, Blanked), NonBlank) == KeptLines(parts)
    decreases |parts|
  {
    if parts != [] {
      var n := |parts| - 1;
      FilterBlanked(parts[..n]);
      BlankedKept(parts[n]);
      assert Map(parts, Blanked)[..n] == Map(parts[..n], Blanked);
    }
  }

  /** The first loop of `extractVariablesAndCleanCode`: each declaration line records its
      variable and is replaced by the empty string. */
  method RecordDeclarations(lines: array<string>, variables: Registry) returns (updated: Registry)
    modifies lines
    ensures lines[..] == Map(old(lines[..]), Blanked)
    ensures updated == DeclareAll(variables, old(lines[..]))
  {
    ghost var parts := lines[..];
    updated := variables;
    for i := 0 to lines.Length
      invariant lines[..] == Map(parts[..i], Blanked) + parts[i..]
      invariant updated == DeclareAll(variables, parts[..i])
    {
      RecordAllStep(variables, parts, i, MatchDeclaration);
      BlankStep(parts, i, lines[..]);
      var m := MatchDeclaration(lines[i]);
      if m.Some? {
        updated := updated[m.value.name := ValueOf(m.value)];
        lines[i] := "";
      }
    }
    assert parts[..lines.Length] == parts;
  }

  /** One line of the first loop: a declaration is blanked in place, any other line is left. */
  lemma BlankStep(parts: seq<string>, i: nat, current: seq<string>)
    requires i < |parts| && current == Map(parts[..i], Blanked) + parts[i..]
    ensures current[i] == parts[i]
    ensures MatchDeclaration(parts[i]).Some? ==> current[i := ""] == Map(parts[..i + 1], Blanked) + parts[i + 1..]
    ensures MatchDeclaration(parts[i]).None? ==> current == Map(parts[..i + 1], Blanked) + parts[i + 1..]
  {
    MapStep(parts, i, Blanked);
    var done := Map(parts[..i], Blanked);
    assert parts[i..] == [parts[i]] + parts[i + 1..];
    if MatchDeclaration(parts[i]).Some? {
      ShiftUpdated(done, parts[i..], "");
    } else {
      ShiftUnchanged(done, parts[i..]);
    }
  }

  /** `extractVariablesAndCleanCode(userCode, variables, wholeParsing)`: the variables object
      is updated with every declaration and the cleaned code is returned; with
      `wholeParsing`, conditions are then forced by the rewrite of `if` statements. */
  method ExtractVariablesAndCleanCode(userCode: string, variables: Registry, wholeParsing: bool)
    returns (cleaned: string, updated: Registry)
    ensures updated == DeclareAll(variables, Split(userCode, "\n"))
    ensures !wholeParsing ==> cleaned == CleanCode(userCode)
    ensures wholeParsing ==> cleaned == IfRewrite.MakeIfStatements(CleanCode(userCode))
  {
    var parts := Split(userCode, "\n");
    var lines := new string[|parts|](i requires 0 <= i < |parts| => parts[i]);
    assert lines[..] == parts;
    updated := RecordDeclarations(lines, variables);
    var remaining := lines[..];
    var kept: seq<string> := [];
    for i := 0 to |remaining|
      invariant kept == Filter(remaining[..i], NonBlank)
    {
      FilterStep(remaining, i, NonBlank);
      if Trim(remaining[i]) != "" {
        kept := kept + [remaining[i]];
      }
    }
    assert remaining[..|remaining|] == remaining;
    FilterBlanked(parts);
    cleaned := Join(kept, "\n");
    if wholeParsing {
      cleaned := IfRewrite.MakeIfStatements(cleaned);
    }
  }

  // ---------------------------------------------------------------------------
  // Properties of the declaration pattern
  // ---------------------------------------------------------------------------

  predicate IsKeyword(kw: string) {
    kw == "var" || kw == "let" || kw == "const"
  }

  lemma {:induction false} IdentEndExact(s: string, k: nat, e: nat)
    requires k <= e <= |s|
    requires forall m :: k <= m < e ==> IsIdentPart(s[m])
    requires e < |s| ==> !IsIdentPart(s[e])
    ensures IdentEnd(s, k) == e
    decreases e - k
  {
    if k < e {
      IdentEndExact(s, k + 1, e);
    }
  }

  lemma {:induction false} ValueRunExact(s: string, k: nat, e: nat)
    requires k <= e <= |s|
    requires forall m :: k <= m < e ==> InValueClass(s[m])
    requires e < |s| ==> !InValueClass(s[e])
    ensures ValueRunEnd(s, k) == e
    decreases e - k
  {
    if k < e {
      ValueRunExact(s, k + 1, e);
    }
  }

  /** A keyword at the start is recognised as that keyword. */
  lemma KeywordAtStart(kw: string, s: string)
    requires IsKeyword(kw) && |kw| <= |s| && s[..|kw|] == kw
    ensures KeywordEnd(s, 0) == Some(|kw|)
  {
    assert s[0] == kw[0] && s[2] == kw[2];
    if kw == "var" {
      assert s[0..3] == "var";
    } else if kw == "let" {
      assert s[0..3] == "let";
    } else {
      assert s[0..5] == "const";
    }
  }

  /** An identifier followed by a character that cannot continue it is read whole. */
  lemma IdentifierRead(s: string, i: nat, name: string)
    requires IsIdentifier(name) && i + |name| < |s|
    requires s[i..i + |name|] == name && !IsIdentPart(s[i + |name|])
    ensures IsIdentStart(s[i]) && IdentifierAt(s, i) == name
  {
    assert s[i] == name[0];
    assert forall m :: i + 1 <= m < i + |name| ==> s[m] == name[m - i];
    IdentEndExact(s, i + 1, i + |name|);
  }

  /** A line that starts with a non-space character is its own `trimStart()`, and the
      pattern's first chance is at position 0. */
  lemma MatchAtStart(s: string)
    requires s != [] && !IsSpace(s[0]) && DeclAt(s, 0).Some?
    ensures MatchDeclaration(s) == DeclAt(s, 0)
  {
  }

  /** `\s*=\s*([^;\n]+)` after the identifier ending at `E`, on ` = value;` at the end of
      the line: the initializer is `value`. */
  lemma InitializerAt(s: string, E: nat, M: nat)
    requires E + 3 < M && M + 1 == |s| && s[M] == ';'
    requires s[E] == ' ' && s[E + 1] == '=' && s[E + 2] == ' ' && !IsSpace(s[E + 3])
    requires ValueRunEnd(s, E + 3) == M
    ensures InitializerSpan(s, E) == Some((E + 3, M))
  {
    var V := E + 3;
    assert SpaceRunEnd(s, E + 1) == E + 1;
    assert SpaceRunEnd(s, E) == E + 1;
    assert SpaceRunEnd(s, V) == V;
    assert SpaceRunEnd(s, E + 2) == V;
    assert TailMatches(s, M) by {
      assert TailFrom(s, M + 1, true);
    }
    assert LongestValueEnd(s, V, M) == Some(M);
    assert ValueSpan(s, E + 2, V) == Some((V, M));
  }

  /** `[^;\n]+` runs exactly over a value that holds neither `;` nor a line feed and is
      followed by `;`. */
  lemma ValueAt(s: string, V: nat, value: string)
    requires value != [] && V + |value| < |s| && s[V..V + |value|] == value
    requires ';' !in value && '\n' !in value && s[V + |value|] == ';'
    ensures ValueRunEnd(s, V) == V + |value| && !IsSpace(s[V]) == !IsSpace(value[0])
  {
    assert s[V] == value[0];
    assert forall j :: V <= j < V + |value| ==> s[j] == value[j - V];
    ValueRunExact(s, V, V + |value|);
  }

  /** Keyword, one space and an identifier, followed by what `InitializerSpan` finds. */
  lemma DeclWithInitializer(s: string, K: nat, name: string, V: nat, M: nat)
    requires KeywordEnd(s, 0) == Some(K) && K + 1 < |s| && s[K] == ' '
    requires IsStartAndName(s, K, name) && K + 1 + |name| <= |s|
    requires InitializerSpan(s, K + 1 + |name|) == Some((V, M))
    ensures DeclAt(s, 0).Some? && DeclAt(s, 0).value.name == name
    ensures DeclAt(s, 0).value.value == Some(Trim(s[V..M]))
  {
    KeywordRead(s, 0, K);
    OneSpace(s, K);
    NameRead(s, K, K + 1, name);
    assert DeclAfterName(s, name, K + 1 + |name|) == Some(Decl(name, Some(Trim(s[V..M]))));
  }

  /** Helper: a single space before an identifier is the whole `\s+`. */
  lemma OneSpace(s: string, K: nat)
    requires K + 1 < |s| && s[K] == ' ' && IsIdentStart(s[K + 1])
    ensures SpaceRunEnd(s, K) == K + 1
  {
    assert SpaceRunEnd(s, K + 1) == K + 1;
  }

  /** Helper: the keyword ends at `k`, and the rest is read from there. */
  lemma KeywordRead(s: string, p: nat, k: nat)
    requires p <= |s| && KeywordEnd(s, p) == Some(k)
    ensures DeclAt(s, p) == DeclAfterKeyword(s, k, SpaceRunEnd(s, k))
  {
  }

  /** Helper: spaces up to `i` and the identifier `name` read, the rest is decided after it. */
  lemma NameRead(s: string, k: nat, i: nat, name: string)
    requires k < i < |s| && IsIdentStart(s[i]) && IdentifierAt(s, i) == name
    ensures DeclAfterKeyword(s, k, i) == DeclAfterName(s, name, i + |name|)
  {
  }

  /** Where the parts of `kw name = value;` sit. */
  lemma InitializedLayout(kw: string, name: string, value: string, s: string)
    requires s == kw + " " + name + " = " + value + ";"
    ensures |s| == |kw| + |name| + |value| + 5
    ensures s[..|kw|] == kw && s[|kw|] == ' ' && s[|kw| + 1..|kw| + 1 + |name|] == name
    ensures s[|kw| + 1 + |name|] == ' ' && s[|kw| + 2 + |name|] == '=' && s[|kw| + 3 + |name|] == ' '
    ensures s[|kw| + 4 + |name|..|s| - 1] == value && s[|s| - 1] == ';'
  {
  }

  /** The line `kw name = value;` once its parts are in place. */
  lemma InitializedLine(kw: string, name: string, value: string, s: string)
    requires IsKeyword(kw) && IsIdentifier(name)
    requires value != [] && !IsSpace(value[0]) && !IsSpace(value[|value| - 1])
    requires ';' !in value && '\n' !in value
    requires |s| == |kw| + |name| + |value| + 5
    requires s[..|kw|] == kw && s[|kw|] == ' ' && s[|kw| + 1..|kw| + 1 + |name|] == name
    requires s[|kw| + 1 + |name|] == ' ' && s[|kw| + 2 + |name|] == '=' && s[|kw| + 3 + |name|] == ' '
    requires s[|kw| + 4 + |name|..|s| - 1] == value && s[|s| - 1] == ';'
    ensures MatchDeclaration(s) == Some(Decl(name, Some(value)))
  {
    InitializedParts(kw, name, value, s);
    assert s[0] == kw[0];
    MatchAtStart(s);
  }

  lemma InitializedParts(kw: string, name: string, value: string, s: string)
    requires IsKeyword(kw) && IsIdentifier(name)
    requires value != [] && !IsSpace(value[0]) && !IsSpace(value[|value| - 1])
    requires ';' !in value && '\n' !in value
    requires |s| == |kw| + |name| + |value| + 5
    requires s[..|kw|] == kw && s[|kw|] == ' ' && s[|kw| + 1..|kw| + 1 + |name|] == name
    requires s[|kw| + 1 + |name|] == ' ' && s[|kw| + 2 + |name|] == '=' && s[|kw| + 3 + |name|] == ' '
    requires s[|kw| + 4 + |name|..|s| - 1] == value && s[|s| - 1] == ';'
    ensures DeclAt(s, 0).Some? && DeclAt(s, 0).value.name == name
    ensures DeclAt(s, 0).value.value == Some(value)
  {
    var K := |kw|;
    var E := K + 1 + |name|;
    var V := E + 3;
    var M := V + |value|;
    KeywordAtStart(kw, s);
    IdentifierRead(s, K + 1, name);
    ValueAt(s, V, value);
    InitializerAt(s, E, M);
    DeclWithInitializer(s, K, name, V, M);
    TrimOfTrimmed(value);
  }

  /** Round trip: `kw name = value;` is read back as the declaration of `name` with
      initializer `value`. */
  lemma InitializedDeclaration(kw: string, name: string, value: string)
    requires IsKeyword(kw) && IsIdentifier(name)
    requires value != [] && !IsSpace(value[0]) && !IsSpace(value[|value| - 1])
    requires ';' !in value && '\n' !in value
    ensures MatchDeclaration(kw + " " + name + " = " + value + ";") == Some(Decl(name, Some(value)))
  {
    var s := kw + " " + name + " = " + value + ";";
    InitializedLayout(kw, name, value, s);
    InitializedLine(kw, name, value, s);
  }

  /** Round trip without initializer: `kw name;` declares `name` as undefined. */
  lemma BareDeclaration(kw: string, name: string)
    requires IsKeyword(kw) && IsIdentifier(name)
    ensures MatchDeclaration(kw + " " + name + ";") == Some(Decl(name, None))
  {
    var s := kw + " " + name + ";";
    BareLayout(kw, name, s);
    BareLine(kw, name, s);
  }

  lemma BareLayout(kw: string, name: string, s: string)
    requires s == kw + " " + name + ";"
    ensures |s| == |kw| + |name| + 2
    ensures s[..|kw|] == kw && s[|kw|] == ' ' && s[|kw| + 1..|kw| + 1 + |name|] == name
    ensures s[|s| - 1] == ';'
  {
  }

  lemma BareLine(kw: string, name: string, s: string)
    requires IsKeyword(kw) && IsIdentifier(name)
    requires |s| == |kw| + |name| + 2
    requires s[..|kw|] == kw && s[|kw|] == ' ' && s[|kw| + 1..|kw| + 1 + |name|] == name
    requires s[|s| - 1] == ';'
    ensures MatchDeclaration(s) == Some(Decl(name, None))
  {
    var K := |kw|;
    KeywordAtStart(kw, s);
    IdentifierRead(s, K + 1, name);
    BareAt(s, K, name);
    assert s[0] == kw[0];
    MatchAtStart(s);
  }

  lemma BareAt(s: string, K: nat, name: string)
    requires KeywordEnd(s, 0) == Some(K) && K + 1 < |s| && s[K] == ' '
    requires IsStartAndName(s, K, name)
    requires K + 2 + |name| == |s| && s[K + 1 + |name|] == ';'
    ensures DeclAt(s, 0).Some? && DeclAt(s, 0).value.name == name && DeclAt(s, 0).value.value == None
  {
    var E := K + 1 + |name|;
    KeywordRead(s, 0, K);
    OneSpace(s, K);
    NameRead(s, K, K + 1, name);
    assert SpaceRunEnd(s, E) == E;
    assert InitializerSpan(s, E) == None;
    assert TailMatches(s, E) by {
      assert TailFrom(s, E + 1, true);
    }
  }

  predicate IsStartAndName(s: string, K: nat, name: string)
    requires K + 1 < |s|
  {
    IsIdentStart(s[K + 1]) && IdentifierAt(s, K + 1) == name
  }

  /** After position 0, `^` needs a line terminator before it. */
  lemma {:induction false} NoLaterStart(s: string, p: nat)
    requires 1 <= p <= |s| && NoLineTerminator(s)
    ensures DeclFrom(s, p) == None
    decreases |s| - p
  {
    assert !IsLineTerminator(s[p - 1]);
    if p < |s| {
      NoLaterStart(s, p + 1);
    }
  }

  /** A single line (no line terminator) that does not begin, after its indentation, with
      `var`, `let` or `const` is not a declaration. */
  lemma NoKeywordNoDeclaration(line: string)
    requires NoLineTerminator(TrimStart(line))
    requires KeywordEnd(TrimStart(line), 0).None?
    ensures MatchDeclaration(line) == None
  {
    var s := TrimStart(line);
    if |s| >= 1 {
      NoLaterStart(s, 1);
    }
  }

  // ---------------------------------------------------------------------------
  // Properties of the extraction
  // ---------------------------------------------------------------------------

  /** `classify` makes `line` a declaration of `name`. */
  predicate Names(classify: string -> Option<Decl>, line: string, name: string) {
    classify(line).Some? && classify(line).value.name == name
  }

  /** The names that the lines declare. */
  function NamesDeclared(lines: seq<string>, classify: string -> Option<Decl>): set<string>
  {
    if lines == [] then {}
    else
      NamesDeclared(lines[..|lines| - 1], classify) +
      (if classify(lines[|lines| - 1]).Some? then {classify(lines[|lines| - 1]).value.name} else {})
  }

  /** The variables afterwards are those before plus every declared name. */
  lemma {:induction false} RecordAllKeys(vars: Registry, lines: seq<string>, classify: string -> Option<Decl>)
    ensures RecordAll(vars, lines, classify).Keys == vars.Keys + NamesDeclared(lines, classify)
    decreases |lines|
  {
    if lines != [] {
      RecordAllKeys(vars, lines[..|lines| - 1], classify);
    }
  }

  /** A variable no line declares keeps its presence and its value. */
  lemma {:induction false} UndeclaredUnchanged(vars: Registry, lines: seq<string>, classify: string -> Option<Decl>, name: string)
    requires forall j :: 0 <= j < |lines| ==> !Names(classify, lines[j], name)
    ensures (name in RecordAll(vars, lines, classify)) == (name in vars)
    ensures name in vars ==> RecordAll(vars, lines, classify)[name] == vars[name]
    decreases |lines|
  {
    if lines != [] {
      var n := |lines| - 1;
      assert !Names(classify, lines[n], name);
      UndeclaredUnchanged(vars, lines[..n], classify, name);
    }
  }

  /** When a variable is declared more than once, the last declaration gives its value. */
  lemma {:induction false} LastDeclarationWins(vars: Registry, lines: seq<string>, classify: string -> Option<Decl>, k: nat, d: Decl)
    requires k < |lines| && classify(lines[k]) == Some(d)
    requires forall j :: k < j < |lines| ==> !Names(classify, lines[j], d.name)
    ensures d.name in RecordAll(vars, lines, classify)
    ensures RecordAll(vars, lines, classify)[d.name] == ValueOf(d)
    decreases |lines|
  {
    var n := |lines| - 1;
    assert lines[..n + 1] == lines;
    if k < n {
      assert !Names(classify, lines[n], d.name);
      assert lines[..n][k] == lines[k];
      LastDeclarationWins(vars, lines[..n], classify, k, d);
    }
  }

  /** Code with no declaration and no blank line comes out exactly as it went in. */
  lemma CleanCodeIdentity(code: string)
    requires forall line :: line in Split(code, "\n") ==> IsKept(line)
    ensures CleanCode(code) == code
  {
    var parts := Split(code, "\n");
    FilterAllKept(parts, IsKept);
    JoinSplit(code, "\n");
  }
}
