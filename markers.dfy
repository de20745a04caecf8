/**
 * `variableReader` (src/parser.js): every `[name]` that ends a line, optionally followed by a
 * parenthesised type, declares a variable of the procedure, which starts out as `""`.
 *
 * The regular expression `/\[[a-z_][a-z0-9_]*\]\s*(\([^)]*\))?\s*$/gim` is run with
 * `matchAll`, so the search resumes where the previous match ended. Its backtracking is
 * written out: `\s` also takes line breaks, `[^)]` crosses lines, and `$` (flag `m`) holds at
 * the end of the text and before a line terminator.
 */
module VariableMarkers {

  import opened Wrappers
  import opened JsStrings
  import opened Variables

  /** `[a-z_]` under the `i` flag. */
  predicate IsNameStart(c: char) {
    IsAsciiLetter(c) || c == '_'
  }

  /** `[a-z_][a-z0-9_]*` under the `i` flag. */
  predicate IsMarkerName(name: string) {
    name != [] && IsNameStart(name[0]) && forall k :: 1 <= k < |name| ==> IsWordChar(name[k])
  }

  /** `\[[a-z_][a-z0-9_]*\]` at `p`: the position just after the `]`. The name takes every
      word character, because `]` is not one. */
  function BracketNameEnd(s: string, p: nat): (r: Option<nat>)
    ensures r.Some? ==> p + 3 <= r.value <= |s| && s[p] == '[' && s[r.value - 1] == ']'
    ensures r.Some? ==> IsMarkerName(s[p + 1..r.value - 1])
  {
    if p + 1 < |s| && s[p] == '[' && IsNameStart(s[p + 1]) then
      var q := WordRunEnd(s, p + 2);
      if q < |s| && s[q] == ']' then Some(q + 1) else None
    else None
  }

  /** `$` under the `m` flag. */
  predicate LineEndAt(s: string, m: nat) {
    m == |s| || (m < |s| && IsLineTerminator(s[m]))
  }

  /** The last position in `lo..hi` where `$` holds: a greedy `\s*` gives back characters
      from its end until `$` is met. */
  function LastLineEnd(s: string, lo: nat, hi: nat): (r: Option<nat>)
    requires lo <= hi <= |s|
    ensures r.Some? ==> lo <= r.value <= hi && LineEndAt(s, r.value)
    ensures LineEndAt(s, lo) ==> r.Some?
    decreases hi - lo
  {
    if LineEndAt(s, hi) then Some(hi)
    else if hi == lo then None
    else LastLineEnd(s, lo, hi - 1)
  }

  /** `\s*(\([^)]*\))?\s*$` from `r`: the end of the match. The group is tried first, and
      only if the rest cannot match after it is it skipped. */
  function MarkerTailEnd(s: string, r: nat): (m: Option<nat>)
    requires r <= |s|
    ensures m.Some? ==> r <= m.value <= |s| && LineEndAt(s, m.value)
    ensures LineEndAt(s, r) ==> m.Some?
  {
    var r1 := SpaceRunEnd(s, r);
    var withGroup :=
      if r1 < |s| && s[r1] == '(' then
        match IndexOf(s, ")", r1 + 1)
        case Some(c) => LastLineEnd(s, c + 1, SpaceRunEnd(s, c + 1))
        case None => None
      else None;
    if withGroup.Some? then withGroup else LastLineEnd(s, r, r1)
  }

  /** The whole expression at `p`: the marked name and where the match ends. */
  function MarkerAt(s: string, p: nat): (r: Option<(string, nat)>)
    ensures r.Some? ==> p < |s| && s[p] == '[' && p < r.value.1 <= |s|
  {
    match BracketNameEnd(s, p)
    case None => None
    case Some(e) =>
      match MarkerTailEnd(s, e)
      case None => None
      case Some(m) => Some((s[p + 1..e - 1], m))
  }

  /** `matchAll` from position `p`: the marked names in order, each match resuming the
      search where the previous one ended. */
  function MarkersFrom(s: string, p: nat): seq<string>
    decreases |s| - p
  {
    if p >= |s| then []
    else match MarkerAt(s, p)
      case Some((name, m)) => [name] + MarkersFrom(s, m)
      case None => MarkersFrom(s, p + 1)
  }

  function Markers(text: string): seq<string>
  {
    MarkersFrom(text, 0)
  }

  /** `variableReader`: each marked name is set to `""` in the shared variables object,
      overwriting whatever it held; every other variable keeps its value. */
  method VariableReader(text: string, variables: Registry) returns (updated: Registry)
    ensures updated.Keys == variables.Keys + set n | n in Markers(text)
    ensures forall n :: n in Markers(text) ==> updated[n] == Str("")
    ensures forall n :: n in variables && n !in Markers(text) ==> updated[n] == variables[n]
  {
    var names := Markers(text);
    updated := variables;
    for k := 0 to |names|
      invariant updated.Keys == variables.Keys + set n | n in names[..k]
      invariant forall n :: n in names[..k] ==> updated[n] == Str("")
      invariant forall n :: n in variables && n !in names[..k] ==> updated[n] == variables[n]
    {
      assert names[..k + 1] == names[..k] + [names[k]];
      updated := updated[names[k] := Str("")];
    }
    assert names[..|names|] == names;
  }

  // ---------------------------------------------------------------------------
  // Properties
  // ---------------------------------------------------------------------------

  /** Every name found is an identifier that appears in brackets in the text. */
  lemma {:induction false} MarkersAreNames(s: string, p: nat)
    ensures forall n :: n in MarkersFrom(s, p) ==> IsMarkerName(n) && Contains(s, "[" + n + "]")
    decreases |s| - p
  {
    if p < |s| {
      match MarkerAt(s, p)
      case Some((name, m)) =>
        MarkersAreNames(s, m);
        var e := BracketNameEnd(s, p).value;
        assert s[p..e] == "[" + name + "]";
        assert OccursAt(s, "[" + name + "]", p);
      case None =>
        MarkersAreNames(s, p + 1);
    }
  }

  /** A `[name]` that ends its line is found, provided no `[` comes before it to start an
      earlier match that could swallow it. */
  lemma MarkerAtLineEnd(pre: string, name: string, tail: string)
    requires '[' !in pre && IsMarkerName(name)
    requires tail == [] || IsLineTerminator(tail[0])
    ensures name in Markers(pre + "[" + name + "]" + tail)
  {
    var s := pre + "[" + name + "]" + tail;
    assert LineEndAt(s, |pre| + |name| + 2);
    BracketNameRead(s, pre, name, tail);
    assert s[..|pre|] == pre;
    MarkerAfterPlain(s, |pre|, |pre| + |name| + 2);
  }

  /** Helper: a bracketed name whose tail matches, after text without `[`, is found. */
  lemma MarkerAfterPlain(s: string, p: nat, e: nat)
    requires p <= |s| && '[' !in s[..p]
    requires BracketNameEnd(s, p) == Some(e) && MarkerTailEnd(s, e).Some?
    ensures s[p + 1..e - 1] in Markers(s)
  {
    MarkerFound(s, p, e);
    ScanReaches(s, s[..p]);
    MarkerHead(s, p);
    var found := MarkersFrom(s, p);
    assert found[0] == s[p + 1..e - 1];
  }

  /** Helper: a bracketed name followed by a tail that matches is a match at the `[`. */
  lemma MarkerFound(s: string, p: nat, e: nat)
    requires BracketNameEnd(s, p) == Some(e) && MarkerTailEnd(s, e).Some?
    ensures MarkerAt(s, p) == Some((s[p + 1..e - 1], MarkerTailEnd(s, e).value))
  {
  }

  lemma BracketNameRead(s: string, pre: string, name: string, tail: string)
    requires s == pre + "[" + name + "]" + tail && IsMarkerName(name)
    ensures BracketNameEnd(s, |pre|) == Some(|pre| + |name| + 2)
    ensures s[|pre| + 1..|pre| + |name| + 1] == name
  {
    var p := |pre|;
    var e := p + |name| + 2;
    assert s[p] == '[' && s[p + 1] == name[0];
    assert WordRunEnd(s, p + 2) == e - 1 by {
      assert forall k :: p + 2 <= k < e - 1 ==> s[k] == name[k - p - 1];
      WordRunExact(s, p + 2, e - 1);
    }
    assert BracketNameEnd(s, p) == Some(e);
    assert s[p + 1..e - 1] == name;
  }

  /** Helper: before the `[`, nothing matches, so the scan walks up to it. */
  lemma ScanReaches(s: string, pre: string)
    requires |pre| <= |s| && s[..|pre|] == pre && '[' !in pre
    ensures MarkersFrom(s, 0) == MarkersFrom(s, |pre|)
  {
    var p := 0;
    while p < |pre|
      invariant p <= |pre| && MarkersFrom(s, 0) == MarkersFrom(s, p)
    {
      assert s[p] == pre[p];
      SkipPlain(s, p);
      p := p + 1;
    }
  }

  lemma MarkerHead(s: string, p: nat)
    requires MarkerAt(s, p).Some?
    ensures MarkersFrom(s, p) == [MarkerAt(s, p).value.0] + MarkersFrom(s, MarkerAt(s, p).value.1)
  {
  }

  /** A type annotation does not stop a marker: `[name] (type)` at the end of the text
      declares `name`. */
  lemma MarkerWithType(pre: string, name: string, kind: string)
    requires '[' !in pre && IsMarkerName(name) && ')' !in kind
    ensures name in Markers(pre + "[" + name + "]" + " (" + kind + ")")
  {
    var tail := " (" + kind + ")";
    var s := pre + "[" + name + "]" + tail;
    var e := |pre| + |name| + 2;
    assert pre + "[" + name + "]" + " (" + kind + ")" == s;
    assert s[..|pre|] == pre && s[e..] == tail;
    TypedTail(s, e, kind);
    BracketNameRead(s, pre, name, tail);
    MarkerAfterPlain(s, |pre|, e);
  }

  lemma TypedTail(s: string, e: nat, kind: string)
    requires e <= |s| && s[e..] == " (" + kind + ")" && ')' !in kind
    ensures MarkerTailEnd(s, e) == Some(|s|)
  {
    assert s[e] == ' ' && s[e + 1] == '(' && s[|s| - 1] == ')';
    assert SpaceRunEnd(s, e + 1) == e + 1;
    assert SpaceRunEnd(s, e) == e + 1;
    forall m | e + 2 <= m < |s| - 1
      ensures s[m] != ')'
    {
      assert s[m] == kind[m - e - 2];
    }
    FirstCharAt(s, ')', e + 2, |s| - 1);
  }

  lemma SkipPlain(s: string, p: nat)
    requires p < |s| && s[p] != '['
    ensures MarkersFrom(s, p) == MarkersFrom(s, p + 1)
  {
    assert MarkerAt(s, p).None?;
  }

  /** A name followed by more text on its line is not a marker. */
  lemma TextAfterMarker()
    ensures Markers("[x] y") == []
  {
    var s := "[x] y";
    assert BracketNameEnd(s, 0) == Some(3);
    assert SpaceRunEnd(s, 3) == 4;
    assert MarkerAt(s, 0).None?;
    SkipPlain(s, 1);
    SkipPlain(s, 2);
    SkipPlain(s, 3);
    assert MarkerAt(s, 4).None?;
  }
}
