/**
 * `updateInlineVariables` of the page runtime (src/downloadPage.js): every text node shows its
 * original text with each `{ name }` replaced by the variable's value. The original text is
 * cached in a `data-original` attribute the first time the node is visited, so a later pass
 * starts again from it.
 */
module Interpolation {

  import opened Wrappers
  import opened JsStrings
  import opened Variables
  import opened Declarations

  // ---------------------------------------------------------------------------
  // checkForCodeInLine
  // ---------------------------------------------------------------------------

  /** `/\{\s*([a-zA-Z_$][a-zA-Z0-9_$]*)\s*\}/` tried at the start of `s`: the name and the
      length of the match. Both runs are greedy and what follows each cannot start the next
      part, so no backtracking can find another match. */
  function PlaceholderAt(s: string): (r: Option<(string, nat)>)
    ensures r.Some? ==> 0 < r.value.1 <= |s| && s[0] == '{' && s[r.value.1 - 1] == '}'
    ensures r.Some? ==> IsIdentifier(r.value.0)
  {
    if 0 < |s| && s[0] == '{' then NameAt(s, SpaceRunEnd(s, 1)) else None
  }

  /** The name of a placeholder, when one starts at `a`. */
  function NameAt(s: string, a: nat): (r: Option<(string, nat)>)
    requires a <= |s|
    ensures r.Some? ==> a < r.value.1 <= |s| && s[r.value.1 - 1] == '}' && IsIdentifier(r.value.0)
  {
    if a < |s| && IsIdentStart(s[a]) then CloseAt(s, a, IdentEnd(s, a + 1)) else None
  }

  /** The spaces and the closing brace after the name `s[a..b]`. */
  function CloseAt(s: string, a: nat, b: nat): (r: Option<(string, nat)>)
    requires a < b <= |s| && IsIdentStart(s[a]) && forall m :: a < m < b ==> IsIdentPart(s[m])
    ensures r.Some? ==> b < r.value.1 <= |s| && s[r.value.1 - 1] == '}' && IsIdentifier(r.value.0)
  {
    var c := SpaceRunEnd(s, b);
    if c < |s| && s[c] == '}' then
      assert forall m :: 0 < m < b - a ==> s[a..b][m] == s[a + m];
      Some((s[a..b], c + 1))
    else None
  }

  /** What the replacer returns for `name`: the value, when the variables object has it as an
      own key and it is neither `null` nor `undefined` (the loose `!= null`); otherwise the
      placeholder again, without its spaces. */
  function Replacement(name: string, vars: Registry): (r: string)
    ensures name in vars && vars[name] != Null && vars[name] != Undefined ==> r == Display(vars[name])
    ensures !(name in vars && vars[name] != Null && vars[name] != Undefined) ==> r == "{" + name + "}"
  {
    if name in vars && vars[name] != Null && vars[name] != Undefined then Display(vars[name])
    else "{" + name + "}"
  }

  /** The global `replace`: a match is tried at each index; a match is replaced and the search
      goes on after it, otherwise the character is kept. The pattern only looks forward, so
      trying it at an index is trying it at the start of the rest of the text. */
  function ReplaceAll(s: string, vars: Registry): string
    decreases |s|
  {
    if s == [] then ""
    else
      var m := PlaceholderAt(s);
      if m.Some? then Replacement(m.value.0, vars) + ReplaceAll(s[m.value.1..], vars)
      else [s[0]] + ReplaceAll(s[1..], vars)
  }

  /** `checkForCodeInLine(line)`. */
  function CheckForCodeInLine(line: string, vars: Registry): string
  {
    ReplaceAll(line, vars)
  }

  /** A text without `{` is shown as it is. */
  lemma {:induction false} NoPlaceholder(s: string, vars: Registry)
    requires '{' !in s
    ensures CheckForCodeInLine(s, vars) == s
    decreases |s|
  {
    if s != [] {
      assert s[0] in s;
      assert forall c :: c in s[1..] ==> c in s;
      NoPlaceholder(s[1..], vars);
      assert s == [s[0]] + s[1..];
    }
  }

  /** Text without `{` before a placeholder is copied as it is. */
  lemma {:induction false} PrefixKept(pre: string, t: string, vars: Registry)
    requires '{' !in pre
    ensures ReplaceAll(pre + t, vars) == pre + ReplaceAll(t, vars)
    decreases |pre|
  {
    if pre == [] {
      assert pre + t == t;
    } else {
      PrefixStep(pre, t, vars);
      PrefixKept(pre[1..], t, vars);
      AppendAssoc([pre[0]], pre[1..], ReplaceAll(t, vars));
      assert [pre[0]] + pre[1..] == pre;
    }
  }

  /** Helper: one character of a text without `{` copied. */
  lemma PrefixStep(pre: string, t: string, vars: Registry)
    requires '{' !in pre && pre != []
    ensures '{' !in pre[1..]
    ensures ReplaceAll(pre + t, vars) == [pre[0]] + ReplaceAll(pre[1..] + t, vars)
  {
    var s := pre + t;
    assert s[0] == pre[0] && pre[0] in pre;
    PlainHead(s, vars);
    assert s[1..] == pre[1..] + t;
    assert forall c :: c in pre[1..] ==> c in pre;
  }

  /** A character other than `{` is copied as it is. */
  lemma PlainHead(s: string, vars: Registry)
    requires s != [] && s[0] != '{'
    ensures ReplaceAll(s, vars) == [s[0]] + ReplaceAll(s[1..], vars)
  {
  }

  /** A placeholder `{`, spaces, a name, spaces, `}` after a text without `{` is replaced by
      what the replacer returns for the name, and the search goes on after it. */
  lemma PlaceholderReplaced(pre: string, sp1: string, name: string, sp2: string, post: string, vars: Registry)
    requires '{' !in pre && AllSpace(sp1) && AllSpace(sp2) && IsIdentifier(name)
    ensures CheckForCodeInLine(pre + "{" + sp1 + name + sp2 + "}" + post, vars) ==
      pre + Replacement(name, vars) + CheckForCodeInLine(post, vars)
  {
    var t := "{" + sp1 + name + sp2 + "}" + post;
    assert pre + "{" + sp1 + name + sp2 + "}" + post == pre + t;
    PrefixKept(pre, t, vars);
    PlaceholderParsed(sp1, name, sp2, post);
  }

  /** The match at the start of `{`, spaces, a name, spaces, `}`, then anything. */
  lemma PlaceholderParsed(sp1: string, name: string, sp2: string, post: string)
    requires AllSpace(sp1) && AllSpace(sp2) && IsIdentifier(name)
    ensures var t := "{" + sp1 + name + sp2 + "}" + post;
      |sp1| + |name| + |sp2| + 2 <= |t| &&
      PlaceholderAt(t) == Some((name, |sp1| + |name| + |sp2| + 2)) &&
      t[|sp1| + |name| + |sp2| + 2..] == post
  {
    var t := "{" + sp1 + name + sp2 + "}" + post;
    PlaceholderLayout(sp1, name, sp2, post, t);
  }

  /** Where the parts of `{`, spaces, a name, spaces, `}` sit, and what the pattern reads. */
  lemma PlaceholderLayout(sp1: string, name: string, sp2: string, post: string, t: string)
    requires AllSpace(sp1) && AllSpace(sp2) && IsIdentifier(name)
    requires t == "{" + sp1 + name + sp2 + "}" + post
    ensures var c := 1 + |sp1| + |name| + |sp2|;
      c < |t| && PlaceholderAt(t) == Some((name, c + 1)) && t[c + 1..] == post
  {
    var a := 1 + |sp1|;
    var b := a + |name|;
    var c := b + |sp2|;
    PlaceholderPositions(sp1, name, sp2, post, t);
    PlaceholderFound(t, a, b, c);
  }

  /** Helper: the characters of `t` between the braces. */
  lemma PlaceholderPositions(sp1: string, name: string, sp2: string, post: string, t: string)
    requires AllSpace(sp1) && AllSpace(sp2) && IsIdentifier(name)
    requires t == "{" + sp1 + name + sp2 + "}" + post
    ensures var a := 1 + |sp1|; var b := a + |name|; var c := b + |sp2|;
      c < |t| && t[0] == '{' && t[c] == '}' && t[a..b] == name && t[c + 1..] == post &&
      (forall m :: 0 < m < a ==> IsSpace(t[m])) && IsIdentStart(t[a]) &&
      (forall m :: a < m < b ==> IsIdentPart(t[m])) && (forall m :: b <= m < c ==> IsSpace(t[m]))
  {
    var a := 1 + |sp1|;
    var b := a + |name|;
    var c := b + |sp2|;
    assert forall m :: 1 <= m < a ==> t[m] == sp1[m - 1];
    assert forall m :: a <= m < b ==> t[m] == name[m - a];
    assert forall m :: b <= m < c ==> t[m] == sp2[m - b];
    assert t[a..b] == name;
    assert t[c + 1..] == post;
  }

  /** The pattern over `{`, spaces up to `a`, a name up to `b`, spaces up to `c`, `}`. */
  lemma PlaceholderFound(s: string, a: nat, b: nat, c: nat)
    requires 0 < a < b <= c < |s| && s[0] == '{' && s[c] == '}'
    requires (forall m :: 0 < m < a ==> IsSpace(s[m])) && IsIdentStart(s[a])
    requires (forall m :: a < m < b ==> IsIdentPart(s[m])) && forall m :: b <= m < c ==> IsSpace(s[m])
    ensures PlaceholderAt(s) == Some((s[a..b], c + 1))
  {
    CharClasses(s[a], s[b]);
    SpaceRunExact(s, b, c);
    IdentEndExact(s, a + 1, b);
    assert NameAt(s, a) == CloseAt(s, a, b);
    SpaceRunExact(s, 1, a);
  }

  /** A name starts with no space, and neither a space nor `}` continues a name. */
  lemma CharClasses(start: char, after: char)
    requires IsIdentStart(start) && (IsSpace(after) || after == '}')
    ensures !IsSpace(start) && !IsIdentPart(after) && !IsSpace('}')
  {
  }

  lemma {:induction false} SpaceRunExact(s: string, k: nat, e: nat)
    requires k <= e <= |s|
    requires forall m :: k <= m < e ==> IsSpace(s[m])
    requires e < |s| ==> !IsSpace(s[e])
    ensures SpaceRunEnd(s, k) == e
    decreases e - k
  {
    if k < e {
      SpaceRunExact(s, k + 1, e);
    }
  }
}

module InlineVariables {

  import opened Wrappers
  import opened Variables
  import opened Interpolation

  // ---------------------------------------------------------------------------
  // The pass over the text nodes
  // ---------------------------------------------------------------------------

  /** The text nodes of the page, `0 .. |texts|`, and the `data-original` attribute of each
      element that can hold one (`None` while the attribute is absent). */
  datatype Page = Page(texts: seq<string>, cache: seq<Option<string>>)

  /** `slot[n]` is the element whose `data-original` node `n` reads and writes. */
  predicate Fits(p: Page, slot: seq<nat>) {
    |slot| == |p.texts| && forall n :: 0 <= n < |slot| ==> slot[n] < |p.cache|
  }

  /** The walkers visit text nodes of the page only. Every `div` that is not a conditional or
      a code block walks all the text below it, so a node inside nested `div`s is visited
      once per enclosing `div`. */
  predicate Visits(p: Page, visits: seq<nat>) {
    forall v :: 0 <= v < |visits| ==> visits[v] < |p.texts|
  }

  /** One turn of the walker's loop on node `n`: the node's text is cached on its element
      unless the element already has an original, and the node then shows the cached
      original with its placeholders replaced. */
  function Visit(p: Page, slot: seq<nat>, n: nat, vars: Registry): (q: Page)
    requires Fits(p, slot) && n < |p.texts|
    ensures Fits(q, slot) && |q.texts| == |p.texts| && |q.cache| == |p.cache|
  {
    var c := if p.cache[slot[n]].None? then p.cache[slot[n] := Some(p.texts[n])] else p.cache;
    Page(p.texts[n := CheckForCodeInLine(c[slot[n]].value, vars)], c)
  }

  /** The visits in order. */
  function Pass(p: Page, slot: seq<nat>, visits: seq<nat>, vars: Registry): (q: Page)
    requires Fits(p, slot) && Visits(p, visits)
    ensures Fits(q, slot) && |q.texts| == |p.texts| && |q.cache| == |p.cache|
    decreases |visits|
  {
    if visits == [] then p
    else Visit(Pass(p, slot, visits[..|visits| - 1], vars), slot, visits[|visits| - 1], vars)
  }

  /** `updateInlineVariables(variables)` over the page's text nodes and attributes, with the
      element of each node given by `slot` and the walkers' visits given in order. */
  method UpdateInlineVariables(texts: array<string>, cache: array<Option<string>>, slot: seq<nat>,
                               visits: seq<nat>, vars: Registry)
    requires Fits(Page(texts[..], cache[..]), slot) && Visits(Page(texts[..], cache[..]), visits)
    modifies texts, cache
    ensures Page(texts[..], cache[..]) == Pass(Page(old(texts[..]), old(cache[..])), slot, visits, vars)
  {
    ghost var start := Page(texts[..], cache[..]);
    var v := 0;
    while v < |visits|
      invariant 0 <= v <= |visits|
      invariant Fits(Page(texts[..], cache[..]), slot)
      invariant Page(texts[..], cache[..]) == Pass(start, slot, visits[..v], vars)
    {
      var n := visits[v];
      assert visits[..v + 1][..v] == visits[..v];
      if cache[slot[n]].None? {
        cache[slot[n]] := Some(texts[n]);
      }
      texts[n] := CheckForCodeInLine(cache[slot[n]].value, vars);
      v := v + 1;
    }
    assert visits[..v] == visits;
  }

  /** After a pass, every visited node shows the original cached on its element with the
      placeholders replaced. */
  lemma {:induction false} PassShowsOriginal(p: Page, slot: seq<nat>, visits: seq<nat>, vars: Registry)
    requires Fits(p, slot) && Visits(p, visits)
    ensures var q := Pass(p, slot, visits, vars);
      forall v :: 0 <= v < |visits| ==>
        q.cache[slot[visits[v]]].Some? &&
        q.texts[visits[v]] == CheckForCodeInLine(q.cache[slot[visits[v]]].value, vars)
    decreases |visits|
  {
    if visits != [] {
      PassShowsOriginal(p, slot, visits[..|visits| - 1], vars);
    }
  }

  /** An unvisited node keeps its text. */
  lemma {:induction false} PassKeepsUnvisited(p: Page, slot: seq<nat>, visits: seq<nat>, vars: Registry)
    requires Fits(p, slot) && Visits(p, visits)
    ensures var q := Pass(p, slot, visits, vars);
      forall n :: 0 <= n < |p.texts| && n !in visits ==> q.texts[n] == p.texts[n]
    decreases |visits|
  {
    if visits != [] {
      var init := visits[..|visits| - 1];
      assert forall n :: n in init ==> n in visits;
      PassKeepsUnvisited(p, slot, init, vars);
    }
  }

  /** An original once cached is never overwritten. */
  lemma {:induction false} PassKeepsCached(p: Page, slot: seq<nat>, visits: seq<nat>, vars: Registry)
    requires Fits(p, slot) && Visits(p, visits)
    ensures var q := Pass(p, slot, visits, vars);
      forall e :: 0 <= e < |p.cache| && p.cache[e].Some? ==> q.cache[e] == p.cache[e]
    decreases |visits|
  {
    if visits != [] {
      PassKeepsCached(p, slot, visits[..|visits| - 1], vars);
    }
  }

  /** Once every visited node's element holds an original, a pass leaves every original
      as it is. */
  lemma {:induction false} CachedStaysPut(q: Page, slot: seq<nat>, visits: seq<nat>, vars: Registry)
    requires Fits(q, slot) && Visits(q, visits)
    requires forall n :: n in visits ==> q.cache[slot[n]].Some?
    ensures Pass(q, slot, visits, vars).cache == q.cache
    decreases |visits|
  {
    if visits != [] {
      var init := visits[..|visits| - 1];
      assert forall n :: n in init ==> n in visits;
      CachedStaysPut(q, slot, init, vars);
    }
  }

  /** A later pass, after the variables change, starts again from the cached originals:
      the originals stay, and every visited node shows its original with the new values. */
  lemma Rerender(p: Page, slot: seq<nat>, visits: seq<nat>, vars1: Registry, vars2: Registry)
    requires Fits(p, slot) && Visits(p, visits)
    ensures var q := Pass(p, slot, visits, vars1);
      var r := Pass(q, slot, visits, vars2);
      r.cache == q.cache &&
      (forall n :: n in visits ==>
        q.cache[slot[n]].Some? && r.texts[n] == CheckForCodeInLine(q.cache[slot[n]].value, vars2)) &&
      (forall n :: 0 <= n < |p.texts| && n !in visits ==> r.texts[n] == p.texts[n])
  {
    var q := Pass(p, slot, visits, vars1);
    PassShowsOriginal(p, slot, visits, vars1);
    CachedStaysPut(q, slot, visits, vars2);
    PassShowsOriginal(q, slot, visits, vars2);
    PassKeepsUnvisited(q, slot, visits, vars2);
    PassKeepsUnvisited(p, slot, visits, vars1);
  }

  /** Running the pass twice with the same variables changes nothing more. */
  lemma PassIdempotent(p: Page, slot: seq<nat>, visits: seq<nat>, vars: Registry)
    requires Fits(p, slot) && Visits(p, visits)
    ensures var q := Pass(p, slot, visits, vars); Pass(q, slot, visits, vars) == q
  {
    var q := Pass(p, slot, visits, vars);
    var r := Pass(q, slot, visits, vars);
    Rerender(p, slot, visits, vars, vars);
    PassShowsOriginal(p, slot, visits, vars);
    PassKeepsUnvisited(p, slot, visits, vars);
    assert r.texts == q.texts;
  }

  // ---------------------------------------------------------------------------
  // The cache on the parent element
  // ---------------------------------------------------------------------------

  /** Two text nodes under one element, such as `Hello ` and ` world` when a line holds
      `Hello **there** world`: the first visit caches the first text on the element, and the
      second node then shows that text instead of its own. */
  lemma SharedOriginalCopiesFirstText(first: string, second: string, vars: Registry)
    requires '{' !in first
    ensures Pass(Page([first, second], [None]), [0, 0], [0, 1], vars).texts == [first, first]
  {
    var p := Page([first, second], [None]);
    var q := Page([first, second], [Some(first)]);
    NoPlaceholder(first, vars);
    assert Pass(p, [0, 0], [0], vars) == q by {
      assert [0][..0] == [];
    }
    assert [0, 1][..1] == [0];
    assert Pass(p, [0, 0], [0, 1], vars) == Visit(q, [0, 0], 1, vars);
  }

  /** No two text nodes share an element's original. */
  predicate OwnSlots(slot: seq<nat>) {
    forall a, b :: 0 <= a < b < |slot| ==> slot[a] != slot[b]
  }

  /** What a pass keeps about the first page: an original is the node's own first text, and a
      node whose original is not cached yet still holds that text. */
  predicate OwnOriginals(p0: Page, q: Page, slot: seq<nat>)
    requires Fits(p0, slot) && Fits(q, slot)
  {
    forall n :: 0 <= n < |slot| ==>
      (q.cache[slot[n]].None? ==> q.texts[n] == p0.texts[n]) &&
      (q.cache[slot[n]].Some? ==> q.cache[slot[n]].value == p0.texts[n])
  }

  lemma {:induction false} OwnOriginalsKept(p: Page, slot: seq<nat>, visits: seq<nat>, vars: Registry)
    requires Fits(p, slot) && Visits(p, visits) && OwnSlots(slot)
    requires forall n :: 0 <= n < |slot| ==> p.cache[slot[n]].None?
    ensures OwnOriginals(p, Pass(p, slot, visits, vars), slot)
    decreases |visits|
  {
    if visits != [] {
      var init := visits[..|visits| - 1];
      assert forall n :: n in init ==> n in visits;
      OwnOriginalsKept(p, slot, init, vars);
      var q := Pass(p, slot, init, vars);
      var n := visits[|visits| - 1];
      var r := Visit(q, slot, n, vars);
      forall m | 0 <= m < |slot| && m != n
        ensures r.cache[slot[m]] == q.cache[slot[m]] && r.texts[m] == q.texts[m]
      {
        assert slot[m] != slot[n] by {
          if m < n { assert slot[m] != slot[n]; } else { assert slot[n] != slot[m]; }
        }
      }
    }
  }

  /** With an original per text node, a pass on a fresh page shows every visited node its
      own text with the placeholders replaced, and a later pass does the same from it. */
  lemma OwnTextShown(p: Page, slot: seq<nat>, visits: seq<nat>, vars: Registry)
    requires Fits(p, slot) && Visits(p, visits) && OwnSlots(slot)
    requires forall n :: 0 <= n < |slot| ==> p.cache[slot[n]].None?
    ensures var q := Pass(p, slot, visits, vars);
      forall n :: n in visits ==> q.texts[n] == CheckForCodeInLine(p.texts[n], vars)
  {
    PassShowsOriginal(p, slot, visits, vars);
    OwnOriginalsKept(p, slot, visits, vars);
  }

  /** The pass with the original kept per text node: node `n` uses attribute `n`. */
  method UpdateInlineVariablesPerNode(texts: array<string>, originals: array<Option<string>>,
                                      visits: seq<nat>, vars: Registry)
    requires originals.Length == texts.Length && Visits(Page(texts[..], originals[..]), visits)
    modifies texts, originals
    ensures Page(texts[..], originals[..]) ==
      Pass(Page(old(texts[..]), old(originals[..])), seq(texts.Length, n => n), visits, vars)
  {
    UpdateInlineVariables(texts, originals, seq(texts.Length, n => n), visits, vars);
  }

  /** Each text node, shared element or not, shows its own text on a fresh page. */
  lemma PerNodeShowsOwnText(texts: seq<string>, visits: seq<nat>, vars: Registry)
    requires forall v :: 0 <= v < |visits| ==> visits[v] < |texts|
    ensures var p := Page(texts, seq(|texts|, n => None));
      var q := Pass(p, seq(|texts|, n => n), visits, vars);
      forall n :: n in visits ==> q.texts[n] == CheckForCodeInLine(texts[n], vars)
  {
    OwnTextShown(Page(texts, seq(|texts|, n => None)), seq(|texts|, n => n), visits, vars);
  }
}
