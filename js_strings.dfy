/**
 * The few JavaScript string primitives the compiler relies on: `trim`,
 * `trimStart`, `startsWith`, `split` with a string separator, `join`, and the
 * character classes `\s` and `\w` of JavaScript regular expressions.
 */
module JsStrings {

  import opened Wrappers

  /** `\s` in a JavaScript regular expression, and what `trim` removes:
      the WhiteSpace and LineTerminator code points of ECMAScript. */
  predicate IsSpace(c: char) {
    var n := c as int;
    n == 0x09 || n == 0x0A || n == 0x0B || n == 0x0C || n == 0x0D || n == 0x20 ||
    n == 0xA0 || n == 0x1680 || (0x2000 <= n <= 0x200A) || n == 0x2028 || n == 0x2029 ||
    n == 0x202F || n == 0x205F || n == 0x3000 || n == 0xFEFF
  }

  /** The characters `.` does not match and before which a multiline `$` matches. */
  predicate IsLineTerminator(c: char) {
    var n := c as int;
    n == 0x0A || n == 0x0D || n == 0x2028 || n == 0x2029
  }

  lemma LineTerminatorIsSpace(c: char)
    ensures IsLineTerminator(c) ==> IsSpace(c)
  {
  }

  predicate IsAsciiLetter(c: char) {
    ('a' <= c <= 'z') || ('A' <= c <= 'Z')
  }

  predicate IsDigit(c: char) {
    '0' <= c <= '9'
  }

  /** `\w`: ASCII letters, digits and the underscore. */
  predicate IsWordChar(c: char) {
    IsAsciiLetter(c) || IsDigit(c) || c == '_'
  }

  /** Case folding of the `i` flag without `u`: only ASCII letters fold. */
  function LowerAscii(c: char): (r: char)
    ensures IsAsciiLetter(c) ==> 'a' <= r <= 'z'
    ensures !('A' <= c <= 'Z') ==> r == c
  {
    if 'A' <= c <= 'Z' then (c as int + 32) as char else c
  }

  function LowerAsciiString(s: string): (r: string)
    ensures |r| == |s|
    ensures forall k :: 0 <= k < |s| ==> r[k] == LowerAscii(s[k])
  {
    if s == [] then [] else [LowerAscii(s[0])] + LowerAsciiString(s[1..])
  }

  /** Case-insensitive literal match of `lit` (written in lower case) at position `p` of `s`. */
  predicate MatchesNoCase(s: string, p: nat, lit: string)
  {
    p + |lit| <= |s| && LowerAsciiString(s[p..p + |lit|]) == lit
  }

  /** Text written in lower case matches itself without regard to case. */
  lemma MatchesLowerCase(s: string, p: nat, lit: string)
    requires p + |lit| <= |s| && s[p..p + |lit|] == lit
    requires forall k :: 0 <= k < |lit| ==> !('A' <= lit[k] <= 'Z')
    ensures MatchesNoCase(s, p, lit)
  {
    assert LowerAsciiString(lit) == lit;
  }

  predicate AllSpace(s: string) {
    forall k :: 0 <= k < |s| ==> IsSpace(s[k])
  }

  predicate NoLineTerminator(s: string) {
    forall k :: 0 <= k < |s| ==> !IsLineTerminator(s[k])
  }

  predicate StartsWith(s: string, prefix: string) {
    |prefix| <= |s| && s[..|prefix|] == prefix
  }

  /** Length of the run of `\s` characters that starts at `p`. */
  function SpaceRunEnd(s: string, p: nat): (q: nat)
    requires p <= |s|
    ensures p <= q <= |s|
    ensures forall k {:trigger IsSpace(s[k])} :: p <= k < q ==> IsSpace(s[k])
    ensures q < |s| ==> !IsSpace(s[q])
    decreases |s| - p
  {
    if p < |s| && IsSpace(s[p]) then SpaceRunEnd(s, p + 1) else p
  }

  /** End of a `.*` run from `k`: `.` stops at a line terminator. */
  function DotRunEnd(s: string, k: nat): (r: nat)
    requires k <= |s|
    ensures k <= r <= |s|
    ensures forall m {:trigger IsLineTerminator(s[m])} :: k <= m < r ==> !IsLineTerminator(s[m])
    ensures r < |s| ==> IsLineTerminator(s[r])
    decreases |s| - k
  {
    if k < |s| && !IsLineTerminator(s[k]) then DotRunEnd(s, k + 1) else k
  }

  lemma {:induction false} DotRunToEnd(s: string, k: nat)
    requires k <= |s|
    requires forall m :: k <= m < |s| ==> !IsLineTerminator(s[m])
    ensures DotRunEnd(s, k) == |s|
    decreases |s| - k
  {
    if k < |s| {
      DotRunToEnd(s, k + 1);
    }
  }

  /** End of the run of `\w` characters (`[a-zA-Z0-9_]`) that starts at `k`. */
  function WordRunEnd(s: string, k: nat): (r: nat)
    requires k <= |s|
    ensures k <= r <= |s|
    ensures forall m {:trigger IsWordChar(s[m])} :: k <= m < r ==> IsWordChar(s[m])
    ensures r < |s| ==> !IsWordChar(s[r])
    decreases |s| - k
  {
    if k < |s| && IsWordChar(s[k]) then WordRunEnd(s, k + 1) else k
  }

  /** A run of word characters ended by a non-word character. */
  lemma {:induction false} WordRunExact(s: string, k: nat, e: nat)
    requires k <= e < |s| && !IsWordChar(s[e])
    requires forall m :: k <= m < e ==> IsWordChar(s[m])
    ensures WordRunEnd(s, k) == e
    decreases e - k
  {
    if k < e {
      WordRunExact(s, k + 1, e);
    }
  }

  /** `String.prototype.trimStart`. */
  function TrimStart(s: string): (r: string)
    ensures |r| <= |s|
    ensures r != [] ==> !IsSpace(r[0])
  {
    if s != [] && IsSpace(s[0]) then TrimStart(s[1..]) else s
  }

  /** What `trimStart` removes is a run of spaces at the front. */
  lemma {:induction false} TrimStartSuffix(s: string)
    ensures TrimStart(s) == s[|s| - |TrimStart(s)|..]
    ensures AllSpace(s[..|s| - |TrimStart(s)|])
  {
    if s != [] && IsSpace(s[0]) {
      TrimStartSuffix(s[1..]);
      var k := |s| - |TrimStart(s)|;
      assert s[..k] == [s[0]] + s[1..][..k - 1];
    }
  }

  /** Removes trailing `\s` characters. */
  function TrimEnd(s: string): (r: string)
    ensures |r| <= |s|
    ensures r != [] ==> !IsSpace(r[|r| - 1]) && r[0] == s[0]
  {
    if s != [] && IsSpace(s[|s| - 1]) then TrimEnd(s[..|s| - 1]) else s
  }

  /** What removing trailing spaces removes is a run of spaces at the end. */
  lemma {:induction false} TrimEndPrefix(s: string)
    ensures TrimEnd(s) == s[..|TrimEnd(s)|]
    ensures AllSpace(s[|TrimEnd(s)|..])
  {
    if s != [] && IsSpace(s[|s| - 1]) {
      var p := s[..|s| - 1];
      TrimEndPrefix(p);
      var k := |TrimEnd(s)|;
      assert s[k..] == p[k..] + [s[|s| - 1]];
    }
  }

  /** `String.prototype.trim`. */
  function Trim(s: string): (r: string)
    ensures |r| <= |s|
    ensures r != [] ==> !IsSpace(r[0]) && !IsSpace(r[|r| - 1])
  {
    TrimEnd(TrimStart(s))
  }

  /** Neither end is a space: what `trim` leaves. */
  predicate IsTrimmed(s: string) {
    s == [] || (!IsSpace(s[0]) && !IsSpace(s[|s| - 1]))
  }

  /** The trimmed string is a contiguous piece of the original, with only spaces around it. */
  lemma TrimIsInfix(s: string) returns (a: nat)
    ensures a + |Trim(s)| <= |s| && Trim(s) == s[a..a + |Trim(s)|]
    ensures AllSpace(s[..a]) && AllSpace(s[a + |Trim(s)|..])
  {
    var t := TrimStart(s);
    a := |s| - |t|;
    var r := TrimEnd(t);
    TrimStartSuffix(s);
    TrimEndPrefix(t);
    assert t == s[a..];
    assert s[a..a + |r|] == t[..|r|];
    assert s[a + |r|..] == t[|r|..];
  }

  /** Trimming twice changes nothing. */
  lemma TrimIdempotent(s: string)
    ensures Trim(Trim(s)) == Trim(s)
  {
    var r := Trim(s);
    if r != [] {
      assert TrimStart(r) == r;
      assert TrimEnd(r) == r;
    }
  }

  /** Every character of the trimmed string occurs in the original. */
  lemma TrimChars(s: string, c: char)
    ensures c in Trim(s) ==> c in s
  {
    var a := TrimIsInfix(s);
    if c in Trim(s) {
      var k :| 0 <= k < |Trim(s)| && Trim(s)[k] == c;
      assert s[a + k] == c;
    }
  }

  /** A string without surrounding spaces is its own trim. */
  lemma TrimOfTrimmed(s: string)
    requires s == [] || (!IsSpace(s[0]) && !IsSpace(s[|s| - 1]))
    ensures Trim(s) == s
  {
  }

  /** A leading space does not change the trim. */
  lemma TrimLeadingSpace(c: char, s: string)
    requires IsSpace(c)
    ensures Trim([c] + s) == Trim(s)
  {
    assert ([c] + s)[1..] == s;
  }

  lemma TrimAllSpace(s: string)
    ensures Trim(s) == [] <==> AllSpace(s)
  {
    var a := TrimIsInfix(s);
    if Trim(s) != [] {
      assert s[a] == Trim(s)[0];
    } else {
      assert s == s[..a] + s[a..];
    }
  }

  /** Leftmost occurrence of the non-empty `sep` in `s` at or after `from`. */
  function IndexOf(s: string, sep: string, from: nat): (r: Option<nat>)
    requires |sep| > 0
    ensures r.Some? ==> from <= r.value && OccursAt(s, sep, r.value)
    ensures r.Some? ==> forall k: nat :: from <= k < r.value ==> !OccursAt(s, sep, k)
    ensures r.None? ==> forall k: nat :: from <= k ==> !OccursAt(s, sep, k)
    decreases |s| - from
  {
    if from + |sep| > |s| then None
    else if s[from..from + |sep|] == sep then Some(from)
    else IndexOf(s, sep, from + 1)
  }

  /** The first `c` at or after `from` is at `k`. */
  lemma FirstCharAt(s: string, c: char, from: nat, k: nat)
    requires from <= k < |s| && s[k] == c
    requires forall m :: from <= m < k ==> s[m] != c
    ensures IndexOf(s, [c], from) == Some(k)
  {
    assert OccursAt(s, [c], k);
    var r := IndexOf(s, [c], from);
    assert s[r.value..r.value + 1][0] == s[r.value];
  }

  /** `sub` occurs in `s` starting at index `k`. */
  predicate OccursAt(s: string, sub: string, k: nat) {
    k + |sub| <= |s| && s[k..k + |sub|] == sub
  }

  predicate Contains(s: string, sub: string) {
    exists k: nat | k <= |s| :: OccursAt(s, sub, k)
  }

  /** `String.prototype.split` with a non-empty string separator (no limit). */
  function Split(s: string, sep: string): (parts: seq<string>)
    requires |sep| > 0
    ensures |parts| >= 1
    decreases |s|
  {
    match IndexOf(s, sep, 0)
    case None => [s]
    case Some(k) => [s[..k]] + Split(s[k + |sep|..], sep)
  }

  /** `Array.prototype.join` with a string separator. */
  function Join(parts: seq<string>, sep: string): string
  {
    if parts == [] then ""
    else if |parts| == 1 then parts[0]
    else parts[0] + sep + Join(parts[1..], sep)
  }

  /** Concatenation regroups freely. */
  lemma AppendAssoc(a: string, b: string, c: string)
    ensures a + (b + c) == (a + b) + c
  {
  }

  lemma SliceThree(s: string, i: nat, j: nat)
    requires i <= j <= |s|
    ensures s[..i] + s[i..j] + s[j..] == s
  {
    assert s[..i] + s[i..j] == s[..j];
  }

  lemma JoinCons(head: string, tail: seq<string>, sep: string)
    requires |tail| >= 1
    ensures Join([head] + tail, sep) == head + sep + Join(tail, sep)
  {
    assert ([head] + tail)[1..] == tail;
  }

  /** The text before the first separator does not contain it. */
  lemma FirstPieceAvoids(s: string, sep: string, k: nat)
    requires |sep| > 0 && IndexOf(s, sep, 0) == Some(k)
    ensures !Contains(s[..k], sep)
  {
    var head := s[..k];
    forall j: nat | j <= |head|
      ensures !OccursAt(head, sep, j)
    {
      if j + |sep| <= |head| {
        assert head[j..j + |sep|] == s[j..j + |sep|];
        assert !OccursAt(s, sep, j);
      }
    }
  }

  /** The pieces of a split never contain the separator. */
  lemma {:induction false} SplitPiecesAvoidSeparator(s: string, sep: string)
    requires |sep| > 0
    ensures forall p :: p in Split(s, sep) ==> !Contains(p, sep)
    decreases |s|
  {
    var found := IndexOf(s, sep, 0);
    if found.Some? {
      var k := found.value;
      SplitFound(s, sep, k);
      FirstPieceAvoids(s, sep, k);
      SplitPiecesAvoidSeparator(s[k + |sep|..], sep);
    }
  }

  /** The first separator found cuts the string into the first piece, the separator and the
      rest. */
  lemma SplitFound(s: string, sep: string, k: nat)
    requires |sep| > 0 && IndexOf(s, sep, 0) == Some(k)
    ensures Split(s, sep) == [s[..k]] + Split(s[k + |sep|..], sep)
    ensures s == s[..k] + sep + s[k + |sep|..]
  {
    SliceThree(s, k, k + |sep|);
  }

  /** Splitting and joining with the same separator gives back the input. */
  lemma {:induction false} JoinSplit(s: string, sep: string)
    requires |sep| > 0
    ensures Join(Split(s, sep), sep) == s
    decreases |s|
  {
    var found := IndexOf(s, sep, 0);
    if found.Some? {
      var k := found.value;
      SplitFound(s, sep, k);
      var rest := s[k + |sep|..];
      JoinSplit(rest, sep);
      JoinCons(s[..k], Split(rest, sep), sep);
    }
  }

  /** Number of pieces: one more than the number of separators found left to right. */
  function CountOccurrences(s: string, sep: string): nat
    requires |sep| > 0
    decreases |s|
  {
    match IndexOf(s, sep, 0)
    case None => 0
    case Some(k) => 1 + CountOccurrences(s[k + |sep|..], sep)
  }

  lemma {:induction false} SplitCount(s: string, sep: string)
    requires |sep| > 0
    ensures |Split(s, sep)| == CountOccurrences(s, sep) + 1
    decreases |s|
  {
    match IndexOf(s, sep, 0)
    case None =>
    case Some(k) => SplitCount(s[k + |sep|..], sep);
  }

  /** A piece of a string that lacks `sub` lacks it too. */
  lemma InfixAvoids(s: string, a: nat, b: nat, sub: string)
    requires a <= b <= |s| && !Contains(s, sub)
    ensures !Contains(s[a..b], sub)
  {
    var t := s[a..b];
    forall k: nat | k <= |t|
      ensures !OccursAt(t, sub, k)
    {
      if k + |sub| <= |t| {
        var x := t[k..k + |sub|];
        var y := s[a + k..a + k + |sub|];
        assert forall m :: 0 <= m < |sub| ==> x[m] == y[m];
        assert x == y;
        assert !OccursAt(s, sub, a + k);
      }
    }
  }

  lemma TrimAvoids(s: string, sub: string)
    requires !Contains(s, sub)
    ensures !Contains(Trim(s), sub)
  {
    var a := TrimIsInfix(s);
    InfixAvoids(s, a, a + |Trim(s)|, sub);
  }

  /** What the whole string lacks, none of its split pieces holds. */
  lemma {:induction false} SplitPiecesInherit(s: string, sep: string, sub: string)
    requires |sep| > 0 && !Contains(s, sub)
    ensures forall p :: p in Split(s, sep) ==> !Contains(p, sub)
    decreases |s|
  {
    match IndexOf(s, sep, 0)
    case None =>
    case Some(k) =>
      InfixAvoids(s, 0, k, sub);
      InfixAvoids(s, k + |sep|, |s|, sub);
      assert s[k + |sep|..|s|] == s[k + |sep|..];
      SplitPiecesInherit(s[k + |sep|..], sep, sub);
  }

  /** Joining pieces that lack a one-character separator, then splitting at it, gives the
      pieces back. */
  lemma {:induction false} SplitJoin(parts: seq<string>, c: char)
    requires |parts| >= 1
    requires forall k :: 0 <= k < |parts| ==> c !in parts[k]
    ensures Split(Join(parts, [c]), [c]) == parts
    decreases |parts|
  {
    var h := parts[0];
    CharAbsent(h, c);
    if |parts| == 1 {
      SplitWithoutSeparator(h, [c]);
    } else {
      var rest := Join(parts[1..], [c]);
      var s := h + [c] + rest;
      assert Join(parts, [c]) == s;
      assert OccursAt(s, [c], |h|) by { assert s[|h|..|h| + 1] == [c]; }
      var found := IndexOf(s, [c], 0);
      forall v: nat | v < |h|
        ensures !OccursAt(s, [c], v)
      {
        assert s[v] == h[v];
        assert h[v] in h;
        assert s[v..v + 1][0] == s[v];
      }
      assert found == Some(|h|);
      assert s[..|h|] == h && s[|h| + 1..] == rest;
      SplitJoin(parts[1..], c);
    }
  }

  lemma CharAbsent(s: string, c: char)
    requires c !in s
    ensures !Contains(s, [c])
  {
    forall k: nat | k + 1 <= |s|
      ensures !OccursAt(s, [c], k)
    {
      assert s[k] in s;
      assert s[k..k + 1][0] == s[k];
    }
  }

  /** A string without the separator is one piece. */
  lemma SplitWithoutSeparator(s: string, sep: string)
    requires |sep| > 0 && !Contains(s, sep)
    ensures Split(s, sep) == [s]
  {
  }
}
