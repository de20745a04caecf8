/**
 * `makeIfstatements` (codeExecution.js): every `if (...)` condition in a code block is
 * replaced by `(true)` before the block runs, so that every guarded assignment happens.
 * The global pattern `if\s*\(\s*[^)]+\s*\)` finds the conditions; inside each match,
 * the first `\(.*\)` is replaced by `(true)`.
 */
module IfRewrite {

  import opened Wrappers
  import opened JsStrings

  // ---------------------------------------------------------------------------
  // The outer pattern `if\s*\(\s*[^)]+\s*\)`
  // ---------------------------------------------------------------------------

  /** Length of the match of `if\s*\(\s*[^)]+\s*\)` at the start of `s`, if any. The class
      `[^)]` reaches the first `)` after the opening parenthesis, which must not follow it directly. */
  function IfMatchLength(s: string): (r: Option<nat>)
    ensures r.Some? ==> 4 <= r.value <= |s| && StartsWith(s, "if") && s[r.value - 1] == ')'
    ensures r.Some? ==> forall k :: SpaceRunEnd(s, 2) < k < r.value - 1 ==> s[k] != ')'
    ensures r.Some? ==> SpaceRunEnd(s, 2) < |s| && s[SpaceRunEnd(s, 2)] == '(' && SpaceRunEnd(s, 2) + 2 < r.value
  {
    if !StartsWith(s, "if") then None
    else
      var a := SpaceRunEnd(s, 2);
      if a == |s| || s[a] != '(' then None
      else match IndexOf(s, ")", a + 1)
        case Some(c) =>
          assert s[c] == ')' by { assert s[c..c + 1] == ")"; }
          assert forall k: nat :: a + 1 <= k < c ==> s[k] != ')' by {
            forall k: nat | a + 1 <= k < c ensures s[k] != ')' {
              if s[k] == ')' { assert s[k..k + 1] == ")"; assert OccursAt(s, ")", k); }
            }
          }
          if c > a + 1 then Some(c + 1) else None
        case None => None
  }

  // ---------------------------------------------------------------------------
  // The inner replacement of `\(.*\)` by `(true)`
  // ---------------------------------------------------------------------------

  /** Greedy `.*\)`: the last `)` in `s[lo..hi]`. */
  function LastClose(s: string, lo: nat, hi: nat): (r: Option<nat>)
    requires lo <= hi <= |s|
    ensures r.Some? ==> lo <= r.value < hi && s[r.value] == ')'
    ensures r.Some? ==> forall m :: r.value < m < hi ==> s[m] != ')'
    ensures r.None? ==> forall m :: lo <= m < hi ==> s[m] != ')'
    decreases hi - lo
  {
    if hi == lo then None
    else if s[hi - 1] == ')' then Some(hi - 1)
    else LastClose(s, lo, hi - 1)
  }

  /** The leftmost match of `\(.*\)` at or after `d`: its `(` and its `)`. */
  function FirstGroup(s: string, d: nat): (r: Option<(nat, nat)>)
    requires d <= |s|
    ensures r.Some? ==> d <= r.value.0 < r.value.1 < |s| && s[r.value.0] == '(' && s[r.value.1] == ')'
    decreases |s| - d
  {
    if d == |s| then None
    else if s[d] == '(' then
      match LastClose(s, d + 1, DotRunEnd(s, d + 1))
      case Some(e) => Some((d, e))
      case None => FirstGroup(s, d + 1)
    else FirstGroup(s, d + 1)
  }

  /** `match.replace(/\(.*\)/, "(true)")`: only the first parenthesised group is replaced. */
  function ReplaceCondition(m: string): (r: string)
  {
    match FirstGroup(m, 0)
    case Some((d, e)) => m[..d] + "(true)" + m[e + 1..]
    case None => m
  }

  /** `code.replace(/if\s*\(\s*[^)]+\s*\)/g, ...)`: scan left to right; after a match, scanning
      resumes at its end. */
  function MakeIfStatements(code: string): (r: string)
    decreases |code|
  {
    if code == [] then []
    else match IfMatchLength(code)
      case Some(n) => ReplaceCondition(code[..n]) + MakeIfStatements(code[n..])
      case None => [code[0]] + MakeIfStatements(code[1..])
  }

  // ---------------------------------------------------------------------------
  // Properties
  // ---------------------------------------------------------------------------

  /** Code that never spells `if` is left exactly as it is. */
  lemma {:induction false} NoIfUnchanged(code: string)
    requires !Contains(code, "if")
    ensures MakeIfStatements(code) == code
    decreases |code|
  {
    if code != [] {
      if StartsWith(code, "if") {
        assert OccursAt(code, "if", 0);
      }
      assert !Contains(code[1..], "if") by {
        forall k: nat | k <= |code[1..]| ensures !OccursAt(code[1..], "if", k) {
          if OccursAt(code[1..], "if", k) {
            assert code[k + 1..k + 3] == code[1..][k..k + 2];
            assert OccursAt(code, "if", k + 1);
          }
        }
      }
      NoIfUnchanged(code[1..]);
      assert [code[0]] + code[1..] == code;
    }
  }

  /** A condition without parentheses or line breaks, written `if (cond)`, becomes `if (true)`;
      scanning then goes on after the condition. */
  lemma FlatConditionForced(cond: string, rest: string)
    requires cond != [] && ')' !in cond && '(' !in cond && NoLineTerminator(cond)
    ensures MakeIfStatements("if (" + cond + ")" + rest) == "if (true)" + MakeIfStatements(rest)
  {
    var code := "if (" + cond + ")" + rest;
    var n := 5 + |cond|;
    FlatMatch(cond, rest);
    assert code[..n] == "if (" + cond + ")";
    FlatGroup(cond);
    assert code[n..] == rest;
  }

  lemma FlatMatch(cond: string, rest: string)
    requires cond != [] && ')' !in cond
    ensures IfMatchLength("if (" + cond + ")" + rest) == Some(5 + |cond|)
  {
    var code := "if (" + cond + ")" + rest;
    var c := 4 + |cond|;
    assert code[c] == ')';
    assert StartsWith(code, "if") by { assert code[..2] == "if"; }
    assert SpaceRunEnd(code, 2) == 3 by { assert code[3] == '(' && code[2] == ' '; }
    assert IndexOf(code, ")", 4) == Some(c) by {
      assert OccursAt(code, ")", c) by { assert code[c..c + 1] == ")"; }
      forall k: nat | 4 <= k < c ensures !OccursAt(code, ")", k) {
        assert code[k..k + 1][0] == code[k] == cond[k - 4];
      }
    }
  }

  lemma FlatGroup(cond: string)
    requires ')' !in cond && NoLineTerminator(cond)
    ensures ReplaceCondition("if (" + cond + ")") == "if (true)"
  {
    var m := "if (" + cond + ")";
    var c := 4 + |cond|;
    assert DotRunEnd(m, 4) == |m| by {
      forall k | 4 <= k < |m| ensures !IsLineTerminator(m[k]) {
        if k < c { assert m[k] == cond[k - 4]; } else { assert m[k] == ')'; }
      }
      DotRunToEnd(m, 4);
    }
    assert LastClose(m, 4, |m|) == Some(c);
    assert FirstGroup(m, 3) == Some((3, c));
    assert FirstGroup(m, 2) == Some((3, c));
    assert FirstGroup(m, 1) == Some((3, c));
    assert FirstGroup(m, 0) == Some((3, c));
    assert m[..3] == "if " && m[c + 1..] == [];
  }

  // ---------------------------------------------------------------------------
  // A condition that calls a function: the rewrite leaves an extra `)`
  // ---------------------------------------------------------------------------

  /** `[^)]+` stops at the first `)`, so for `if (f(x)) y` the match is `if (f(x)`, whose
      group `(f(x)` becomes `(true)`; the call's closing parenthesis survives. */
  lemma NestedCallLeavesParenthesis()
    ensures MakeIfStatements("if (f(x)) y") == "if (true)" + ") y"
  {
    var code := "if (f(x)) y";
    NestedCallMatch();
    MatchUnfolds(code, 8);
    assert code[..8] == "if (f(x)";
    NestedCallGroup();
    assert code[8..] == ") y";
    NestedCallTail();
  }

  /** A match of length `n` at the front is replaced and the rest is rewritten on its own. */
  lemma MatchUnfolds(code: string, n: nat)
    requires code != [] && IfMatchLength(code) == Some(n)
    ensures MakeIfStatements(code) == ReplaceCondition(code[..n]) + MakeIfStatements(code[n..])
  {
  }

  lemma NestedCallMatch()
    ensures IfMatchLength("if (f(x)) y") == Some(8)
  {
    var code := "if (f(x)) y";
    assert StartsWith(code, "if") by { assert code[..2] == "if"; }
    assert SpaceRunEnd(code, 2) == 3;
    assert IndexOf(code, ")", 4) == Some(7) by {
      assert OccursAt(code, ")", 7) by { assert code[7..8] == ")"; }
      forall k: nat | 4 <= k < 7 ensures !OccursAt(code, ")", k) {
        assert code[k..k + 1][0] == code[k];
      }
    }
  }

  lemma NestedCallGroup()
    ensures ReplaceCondition("if (f(x)") == "if (true)"
  {
    var m := "if (f(x)";
    assert DotRunEnd(m, 4) == 8 by { DotRunToEnd(m, 4); }
    assert LastClose(m, 4, 8) == Some(7);
    assert FirstGroup(m, 3) == Some((3, 7));
    assert FirstGroup(m, 2) == Some((3, 7));
    assert FirstGroup(m, 1) == Some((3, 7));
    assert FirstGroup(m, 0) == Some((3, 7));
    assert m[..3] + "(true)" + m[8..] == "if (true)";
  }

  lemma NestedCallTail()
    ensures MakeIfStatements(") y") == ") y"
  {
    var tail := ") y";
    assert !Contains(tail, "if") by {
      forall k: nat | k <= |tail| ensures !OccursAt(tail, "if", k) {
        if k + 2 <= |tail| {
          assert tail[k..k + 2][0] == tail[k];
        }
      }
    }
    NoIfUnchanged(tail);
  }

  // ---------------------------------------------------------------------------
  // The intended rewrite: the whole parenthesised condition, nesting included
  // ---------------------------------------------------------------------------

  /** Net parenthesis depth of `s`. */
  function Net(s: string): int
  {
    if s == [] then 0
    else Net(s[..|s| - 1]) + (if s[|s| - 1] == '(' then 1 else if s[|s| - 1] == ')' then -1 else 0)
  }

  /** Parentheses in `s` pair up: no prefix closes more than it opened, and all are closed. */
  predicate Balanced(s: string) {
    Net(s) == 0 && forall j :: 0 <= j <= |s| ==> Net(s[..j]) >= 0
  }

  /** Position of the `)` that closes a group already `depth` levels deep at `k`. */
  function MatchingClose(s: string, k: nat, depth: nat): (r: Option<nat>)
    requires k <= |s| && depth >= 1
    ensures r.Some? ==> k <= r.value < |s| && s[r.value] == ')'
    decreases |s| - k
  {
    if k == |s| then None
    else if s[k] == '(' then MatchingClose(s, k + 1, depth + 1)
    else if s[k] == ')' then (if depth == 1 then Some(k) else MatchingClose(s, k + 1, depth - 1))
    else MatchingClose(s, k + 1, depth)
  }

  /** Length of `if\s*\(...\)` at the start of `s` when the condition runs to its matching `)`. */
  function BalancedIfLength(s: string): (r: Option<nat>)
    ensures r.Some? ==> 4 <= r.value <= |s|
  {
    if !StartsWith(s, "if") then None
    else
      var a := SpaceRunEnd(s, 2);
      if a == |s| || s[a] != '(' then None
      else match MatchingClose(s, a + 1, 1)
        case Some(c) => if c > a + 1 then Some(c + 1) else None
        case None => None
  }

  /** The rewrite with each condition replaced up to its matching parenthesis. */
  function MakeIfStatementsBalanced(code: string): (r: string)
    decreases |code|
  {
    if code == [] then []
    else match BalancedIfLength(code)
      case Some(n) =>
        var a := SpaceRunEnd(code, 2);
        code[..a] + "(true)" + MakeIfStatementsBalanced(code[n..])
      case None => [code[0]] + MakeIfStatementsBalanced(code[1..])
  }

  lemma NetStep(s: string, k: nat)
    requires k < |s|
    ensures Net(s[..k + 1]) == Net(s[..k]) + (if s[k] == '(' then 1 else if s[k] == ')' then -1 else 0)
  {
    assert s[..k + 1][..k] == s[..k];
  }

  /** Inside `cond + ")" + rest`, a balanced `cond` is crossed and the `)` after it is the match. */
  lemma {:induction false} ClosesAfterBalanced(cond: string, rest: string, k: nat, depth: nat)
    requires Balanced(cond) && k <= |cond|
    requires depth == 1 + Net(cond[..k])
    ensures MatchingClose(cond + ")" + rest, k, depth) == Some(|cond|)
    decreases |cond| - k
  {
    var t := cond + ")" + rest;
    if k == |cond| {
      assert cond[..k] == cond;
      assert t[k] == ')';
    } else {
      assert t[k] == cond[k];
      NetStep(cond, k);
      assert Net(cond[..k + 1]) >= 0;
      ClosesAfterBalanced(cond, rest, k + 1, 1 + Net(cond[..k + 1]));
    }
  }

  /** The intended property: a balanced condition, function calls included, is replaced whole. */
  lemma BalancedConditionForced(cond: string, rest: string)
    requires cond != [] && Balanced(cond)
    ensures MakeIfStatementsBalanced("if (" + cond + ")" + rest) == "if (true)" + MakeIfStatementsBalanced(rest)
  {
    var code := "if (" + cond + ")" + rest;
    BalancedMatch(cond, rest);
    assert SpaceRunEnd(code, 2) == 3 by { assert code[3] == '(' && code[2] == ' '; }
    assert code[..3] == "if ";
    assert code[4 + |cond| + 1..] == rest;
  }

  lemma BalancedMatch(cond: string, rest: string)
    requires cond != [] && Balanced(cond)
    ensures BalancedIfLength("if (" + cond + ")" + rest) == Some(5 + |cond|)
  {
    var code := "if (" + cond + ")" + rest;
    assert StartsWith(code, "if") by { assert code[..2] == "if"; }
    assert SpaceRunEnd(code, 2) == 3 by { assert code[3] == '(' && code[2] == ' '; }
    assert code == "if (" + (cond + ")" + rest);
    MatchingCloseShift("if (", cond + ")" + rest, 0, 1);
    assert cond[..0] == [];
    ClosesAfterBalanced(cond, rest, 0, 1);
  }

  /** The matching scan only looks ahead: a prefix shifts positions and nothing else. */
  lemma {:induction false} MatchingCloseShift(p: string, t: string, k: nat, depth: nat)
    requires k <= |t| && depth >= 1
    ensures MatchingClose(p + t, |p| + k, depth) ==
      (match MatchingClose(t, k, depth) case Some(c) => Some(|p| + c) case None => None)
    decreases |t| - k
  {
    if k < |t| {
      assert (p + t)[|p| + k] == t[k];
      if t[k] == '(' {
        MatchingCloseShift(p, t, k + 1, depth + 1);
      } else if t[k] == ')' {
        if depth != 1 { MatchingCloseShift(p, t, k + 1, depth - 1); }
      } else {
        MatchingCloseShift(p, t, k + 1, depth);
      }
    }
  }

  /** With the intended rewrite, `if (f(x)) y` becomes `if (true) y`. */
  lemma NestedCallIntended()
    ensures MakeIfStatementsBalanced("if (f(x)) y") == "if (true)" + " y"
  {
    CallBalanced();
    BalancedConditionForced("f(x)", " y");
    assert "if (" + "f(x)" + ")" + " y" == "if (f(x)) y";
    BalancedTail();
  }

  lemma CallBalanced()
    ensures Balanced("f(x)")
  {
    var cond := "f(x)";
    assert Net(cond[..0]) == 0 && Net(cond[..1]) == 0;
    assert cond[..2] == "f(" && Net(cond[..2]) == 1 by { assert cond[..2][..1] == cond[..1]; }
    assert Net(cond[..3]) == 1 by { assert cond[..3][..2] == cond[..2]; }
    assert Net(cond[..4]) == 0 by { assert cond[..4][..3] == cond[..3]; assert cond[..4] == cond; }
  }

  lemma BalancedTail()
    ensures MakeIfStatementsBalanced(" y") == " y"
  {
    var rest := " y";
    assert BalancedIfLength(rest) == None by { assert !StartsWith(rest, "if"); }
    assert BalancedIfLength(rest[1..]) == None by { assert rest[1..] == "y"; }
  }

  /** On conditions without nested parentheses, the intended rewrite agrees with the source's. */
  lemma FlatConditionsAgree(cond: string, rest: string)
    requires cond != [] && ')' !in cond && '(' !in cond && NoLineTerminator(cond)
    ensures MakeIfStatements("if (" + cond + ")" + rest) == "if (true)" + MakeIfStatements(rest)
    ensures MakeIfStatementsBalanced("if (" + cond + ")" + rest) == "if (true)" + MakeIfStatementsBalanced(rest)
  {
    FlatConditionForced(cond, rest);
    assert Balanced(cond) by { FlatBalanced(cond); }
    BalancedConditionForced(cond, rest);
  }

  lemma {:induction false} FlatBalanced(s: string)
    requires ')' !in s && '(' !in s
    ensures Balanced(s)
  {
    forall j | 0 <= j <= |s| ensures Net(s[..j]) == 0 {
      FlatNet(s[..j]);
    }
    assert s[..|s|] == s;
  }

  lemma {:induction false} FlatNet(s: string)
    requires ')' !in s && '(' !in s
    ensures Net(s) == 0
    decreases |s|
  {
    if s != [] {
      FlatNet(s[..|s| - 1]);
    }
  }
}
