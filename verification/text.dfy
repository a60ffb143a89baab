/**
 * Strings as sequences of characters, and the scans both rules perform on a
 * statement's source text with regular expressions or string methods: the
 * whitespace class `\s`, the trims `/\s+$/m` and `/^\s+/m`, `search('=')`,
 * `split('\n')[0]`, `/require\(/.test` and the index normalisation of
 * `slice`/`substr`.
 */
module Text {
  import opened Wrappers

  /** The `\s` class of JavaScript regular expressions: white space and line terminators. */
  predicate IsSpace(c: char) {
    || c == ' ' || c == '\t' || c == '\n' || c == '\r' || c == '\U{000B}' || c == '\U{000C}'
    || c == '\U{00A0}' || c == '\U{1680}' || ('\U{2000}' <= c <= '\U{200A}')
    || c == '\U{2028}' || c == '\U{2029}' || c == '\U{202F}' || c == '\U{205F}'
    || c == '\U{3000}' || c == '\U{FEFF}'
  }

  /** The characters after which `^`, and before which `$`, match in a multiline pattern. */
  predicate IsLineTerminator(c: char) {
    c == '\n' || c == '\r' || c == '\U{2028}' || c == '\U{2029}'
  }

  predicate AllSpace(s: string) {
    forall i :: 0 <= i < |s| ==> IsSpace(s[i])
  }

  predicate NoLineBreak(s: string) {
    forall i :: 0 <= i < |s| ==> !IsLineTerminator(s[i])
  }

  /** `' '.repeat(n)` for a non-negative count. */
  function Spaces(n: nat): (r: string)
    ensures |r| == n
    ensures forall i :: 0 <= i < n ==> r[i] == ' '
  {
    if n == 0 then "" else Spaces(n - 1) + " "
  }

  /**
   * How `slice` and `substr` read an index into a string of length `len`:
   * a negative index counts from the end, and every index is clamped to the string.
   */
  function JsIndex(len: nat, i: int): (r: nat)
    ensures r <= len
    ensures 0 <= i <= len ==> r == i
    ensures i < 0 && 0 <= len + i ==> r == len + i
    ensures len + i < 0 ==> r == 0
    ensures i > len ==> r == len
  {
    if i < 0 then (if len + i < 0 then 0 else len + i)
    else if i > len then len
    else i
  }

  /** How `substring` reads an index into a string of length `len`: a negative index is 0, and every index is clamped. */
  function SubstringIndex(len: nat, i: int): (r: nat)
    ensures r <= len
    ensures 0 <= i <= len ==> r == i
    ensures i < 0 ==> r == 0
  {
    if i < 0 then 0 else if i > len then len else i
  }

  /** The end of the run of white space that starts at index `i`. */
  function WsEnd(s: string, i: nat): (r: nat)
    requires i <= |s|
    ensures i <= r <= |s|
    ensures forall k :: i <= k < r ==> IsSpace(s[k])
    ensures r == |s| || !IsSpace(s[r])
    decreases |s| - i
  {
    if i == |s| || !IsSpace(s[i]) then i else WsEnd(s, i + 1)
  }

  /** A run of white space from `i` that stops at `e` ends there. */
  lemma WsEndIs(s: string, i: nat, e: nat)
    requires i <= e <= |s|
    requires forall k :: i <= k < e ==> IsSpace(s[k])
    requires e == |s| || !IsSpace(s[e])
    ensures WsEnd(s, i) == e
    decreases e - i
  {
    if i < e {
      WsEndIs(s, i + 1, e);
    }
  }

  /** `s` without its trailing run of white space. */
  function TrimEnd(s: string): (r: string)
    ensures r <= s
    ensures forall k :: |r| <= k < |s| ==> IsSpace(s[k])
    ensures r == [] || !IsSpace(r[|r| - 1])
  {
    if |s| > 0 && IsSpace(s[|s| - 1]) then TrimEnd(s[..|s| - 1]) else s
  }

  /** `s` without its leading run of white space. */
  function TrimStart(s: string): (r: string)
    ensures |r| <= |s| && r == s[|s| - |r|..]
    ensures forall k :: 0 <= k < |s| - |r| ==> IsSpace(s[k])
    ensures r == [] || !IsSpace(r[0])
  {
    s[WsEnd(s, 0)..]
  }

  /** Whether `$` in a multiline pattern matches at index `k`. */
  predicate AtLineEnd(s: string, k: nat)
    requires k <= |s|
  {
    k == |s| || IsLineTerminator(s[k])
  }

  /** Whether `^` in a multiline pattern matches at index `k`. */
  predicate AtLineStart(s: string, k: nat)
    requires k <= |s|
  {
    k == 0 || IsLineTerminator(s[k - 1])
  }

  /** The largest `k` with `lo < k <= hi` at which `$` matches: where a backtracking `\s+$` stops. */
  function LastLineEnd(s: string, lo: nat, hi: nat): (r: Option<nat>)
    requires lo <= hi <= |s|
    ensures r.Some? ==> lo < r.value <= hi && AtLineEnd(s, r.value)
    ensures forall k :: (if r.Some? then r.value else lo) < k <= hi ==> !AtLineEnd(s, k)
    decreases hi
  {
    if hi == lo then None
    else if AtLineEnd(s, hi) then Some(hi)
    else LastLineEnd(s, lo, hi - 1)
  }

  /**
   * Whether `/\s+$/m` can match from index `i`: white space starts there and
   * `$` matches somewhere after `i` within that run of white space.
   */
  predicate RunReachesLineEnd(s: string, i: nat)
    requires i <= |s|
  {
    i < |s| && IsSpace(s[i]) && exists k :: i < k <= WsEnd(s, i) && AtLineEnd(s, k)
  }

  /**
   * Where the leftmost match of `/\s+$/m` at or after `i` starts, and where it
   * ends: the first index from which the pattern can match, and the last line
   * end within the run of white space there, since `\s+` is greedy and gives
   * characters back only until `$` matches.
   */
  function TrailingRunFrom(s: string, i: nat): (r: Option<(nat, nat)>)
    requires i <= |s|
    ensures r.Some? ==> i <= r.value.0 < r.value.1 <= |s|
    ensures r.Some? ==> AtLineEnd(s, r.value.1) && forall k :: r.value.0 <= k < r.value.1 ==> IsSpace(s[k])
    decreases |s| - i
  {
    if i == |s| then None
    else
      var last := LastLineEnd(s, i, WsEnd(s, i));
      if IsSpace(s[i]) && last.Some? then Some((i, last.value))
      else TrailingRunFrom(s, i + 1)
  }

  /**
   * The run `TrailingRunFrom` finds is the leftmost match: nothing before it
   * can match, it can, and it ends at the last line end within its white
   * space; and it finds nothing exactly when nothing from `i` on can match.
   */
  lemma {:induction false} TrailingRunFromIsLeftmost(s: string, i: nat)
    requires i <= |s|
    ensures TrailingRunFrom(s, i).None? <==> forall j :: i <= j < |s| ==> !RunReachesLineEnd(s, j)
    ensures TrailingRunFrom(s, i).Some? ==>
              var (b, e) := TrailingRunFrom(s, i).value;
              && RunReachesLineEnd(s, b)
              && (forall j :: i <= j < b ==> !RunReachesLineEnd(s, j))
              && e <= WsEnd(s, b)
              && forall k :: e < k <= WsEnd(s, b) ==> !AtLineEnd(s, k)
    decreases |s| - i
  {
    if i < |s| {
      MatchStartsAt(s, i);
      if !RunReachesLineEnd(s, i) {
        TrailingRunFromIsLeftmost(s, i + 1);
      }
    }
  }

  /** One step of `TrailingRunFrom`: it stops at `i` exactly when the pattern can match from `i`. */
  lemma MatchStartsAt(s: string, i: nat)
    requires i < |s|
    ensures var last := LastLineEnd(s, i, WsEnd(s, i));
            && (RunReachesLineEnd(s, i) <==> IsSpace(s[i]) && last.Some?)
            && (RunReachesLineEnd(s, i) ==> TrailingRunFrom(s, i) == Some((i, last.value)))
            && (!RunReachesLineEnd(s, i) ==> TrailingRunFrom(s, i) == TrailingRunFrom(s, i + 1))
  {
    var e := WsEnd(s, i);
    var last := LastLineEnd(s, i, e);
    if IsSpace(s[i]) && last.Some? {
      assert i < last.value <= e && AtLineEnd(s, last.value);
    }
  }

  /**
   * `s.replace(/\s+$/m, '')`: removes the first white-space run that ends a
   * line. The result is `s` or `s` with one non-empty run of white space cut
   * out; `TrimEndAsWrittenIsLeftmost` says which run.
   */
  function TrimEndAsWritten(s: string): (r: string)
    ensures r == s || exists i, k :: 0 <= i < k <= |s| && r == s[..i] + s[k..] && AtLineEnd(s, k) && AllSpace(s[i..k])
  {
    match TrailingRunFrom(s, 0)
    case None => s
    case Some((i, k)) =>
      assert AllSpace(s[i..k]) by {
        forall j | 0 <= j < k - i ensures IsSpace(s[i..k][j]) { assert s[i..k][j] == s[i + j]; }
      }
      s[..i] + s[k..]
  }

  /**
   * Which run `TrimEndAsWritten` cuts: nothing when the pattern matches
   * nowhere; otherwise the run that starts at the first index the pattern can
   * match from and ends at the last line end within that run.
   */
  lemma TrimEndAsWrittenIsLeftmost(s: string)
    ensures (forall j :: 0 <= j < |s| ==> !RunReachesLineEnd(s, j)) ==> TrimEndAsWritten(s) == s
    ensures (exists j :: 0 <= j < |s| && RunReachesLineEnd(s, j)) ==>
              exists i, k :: && 0 <= i < k <= |s| && TrimEndAsWritten(s) == s[..i] + s[k..]
                             && AtLineEnd(s, k) && AllSpace(s[i..k])
                             && RunReachesLineEnd(s, i) && (forall j :: 0 <= j < i ==> !RunReachesLineEnd(s, j))
                             && k <= WsEnd(s, i) && (forall k' :: k < k' <= WsEnd(s, i) ==> !AtLineEnd(s, k'))
  {
    var r := TrailingRunFrom(s, 0);
    assert r.None? <==> forall j :: 0 <= j < |s| ==> !RunReachesLineEnd(s, j) by {
      TrailingRunFromIsLeftmost(s, 0);
    }
    if r.Some? {
      TrimEndCut(s, r.value.0, r.value.1);
    }
  }

  /** The cut `TrimEndAsWritten` makes when `TrailingRunFrom` finds the run from `i` to `k`. */
  lemma TrimEndCut(s: string, i: nat, k: nat)
    requires TrailingRunFrom(s, 0) == Some((i, k))
    ensures && i < k <= |s| && TrimEndAsWritten(s) == s[..i] + s[k..]
            && AtLineEnd(s, k) && AllSpace(s[i..k])
            && RunReachesLineEnd(s, i) && (forall j :: 0 <= j < i ==> !RunReachesLineEnd(s, j))
            && k <= WsEnd(s, i) && (forall k' :: k < k' <= WsEnd(s, i) ==> !AtLineEnd(s, k'))
  {
    TrailingRunFromIsLeftmost(s, 0);
    assert AllSpace(s[i..k]) by {
      forall j | 0 <= j < k - i ensures IsSpace(s[i..k][j]) { assert s[i..k][j] == s[i + j]; }
    }
  }

  /** Where the leftmost match of `/^\s+/m` at or after `i` starts. */
  function IndentFrom(s: string, i: nat): (r: Option<nat>)
    requires i <= |s|
    ensures r.Some? ==> i <= r.value < |s| && AtLineStart(s, r.value) && IsSpace(s[r.value])
    ensures forall k :: i <= k < (if r.Some? then r.value else |s|) ==> !(AtLineStart(s, k) && IsSpace(s[k]))
    decreases |s| - i
  {
    if i == |s| then None
    else if AtLineStart(s, i) && IsSpace(s[i]) then Some(i)
    else IndentFrom(s, i + 1)
  }

  /**
   * `s.replace(/^\s+/m, '')`: removes the first white-space run that starts a
   * line, which is not the leading run when `s` starts with another character.
   * The result is `s` exactly when no line starts with white space; otherwise
   * the whole run at the first line start that has one is cut.
   */
  function TrimStartAsWritten(s: string): (r: string)
    ensures (forall j :: 0 <= j < |s| && AtLineStart(s, j) ==> !IsSpace(s[j])) ==> r == s
    ensures (exists j :: 0 <= j < |s| && AtLineStart(s, j) && IsSpace(s[j])) ==>
              exists i, k :: && 0 <= i < k <= |s| && r == s[..i] + s[k..]
                                    && AtLineStart(s, i) && AllSpace(s[i..k]) && (k == |s| || !IsSpace(s[k]))
                                    && forall j :: 0 <= j < i ==> !(AtLineStart(s, j) && IsSpace(s[j]))
  {
    match IndentFrom(s, 0)
    case None => s
    case Some(i) =>
      var k := WsEnd(s, i);
      assert AllSpace(s[i..k]) by {
        forall j | 0 <= j < k - i ensures IsSpace(s[i..k][j]) { assert s[i..k][j] == s[i + j]; }
      }
      s[..i] + s[k..]
  }

  /** On a single line `/\s+$/m` removes exactly the trailing white space. */
  lemma {:induction false} TrimEndAsWrittenOnOneLine(s: string)
    requires NoLineBreak(s)
    ensures TrimEndAsWritten(s) == TrimEnd(s)
  {
    var t := |TrimEnd(s)|;
    TrailingRunNoBreak(s, 0);
    if t < |s| {
      assert TrimEndAsWritten(s) == s[..t] + s[|s|..];
    }
  }

  lemma {:induction false} TrailingRunNoBreak(s: string, i: nat)
    requires NoLineBreak(s)
    requires i <= |TrimEnd(s)|
    ensures TrailingRunFrom(s, i) == (if |TrimEnd(s)| < |s| then Some((|TrimEnd(s)|, |s|)) else None)
    decreases |s| - i
  {
    var t := |TrimEnd(s)|;
    if i == |s| {
    } else if i < t {
      if IsSpace(s[i]) {
        var e := WsEnd(s, i);
        assert e < t by {
          assert !IsSpace(TrimEnd(s)[t - 1]);
        }
        assert !AtLineEnd(s, e);
        NoLineEndBefore(s, i, e);
      }
      TrailingRunNoBreak(s, i + 1);
    } else {
      assert i == t < |s|;
      assert WsEnd(s, i) == |s| by {
        WsEndOfTail(s, i);
      }
    }
  }

  lemma {:induction false} NoLineEndBefore(s: string, lo: nat, hi: nat)
    requires NoLineBreak(s)
    requires lo <= hi < |s|
    ensures LastLineEnd(s, lo, hi) == None
    decreases hi
  {
    if hi > lo {
      NoLineEndBefore(s, lo, hi - 1);
    }
  }

  lemma WsEndOfTail(s: string, i: nat)
    requires i <= |s|
    requires forall k :: i <= k < |s| ==> IsSpace(s[k])
    ensures WsEnd(s, i) == |s|
  {
  }

  /** Where the plain and the multiline leading trim agree: `s` starts with white space, or is one line. */
  lemma TrimStartAsWrittenAgrees(s: string)
    requires |s| == 0 || IsSpace(s[0]) || NoLineBreak(s)
    ensures TrimStartAsWritten(s) == TrimStart(s)
  {
    if |s| > 0 && IsSpace(s[0]) {
      assert IndentFrom(s, 0) == Some(0);
    } else if |s| > 0 {
      assert IndentFrom(s, 0) == None by {
        NoIndentOnOneLine(s, 1);
      }
    }
  }

  lemma {:induction false} NoIndentOnOneLine(s: string, i: nat)
    requires NoLineBreak(s)
    requires 1 <= i <= |s|
    ensures IndentFrom(s, i) == None
    decreases |s| - i
  {
    if i < |s| {
      NoIndentOnOneLine(s, i + 1);
    }
  }

  /** `s.search(c)` for a one-character pattern: the first index holding `c`, or -1. */
  function IndexOf(s: string, c: char): (r: int)
    ensures -1 <= r < |s|
    ensures r == -1 <==> c !in s
    ensures r >= 0 ==> s[r] == c && c !in s[..r]
  {
    if |s| == 0 then -1
    else if s[0] == c then 0
    else
      var k := IndexOf(s[1..], c);
      assert s[1..][..if k < 0 then 0 else k] == s[1..if k < 0 then 1 else k + 1];
      if k < 0 then -1 else k + 1
  }

  /** The first occurrence of `c` is where `c` occurs with no earlier `c`. */
  lemma IndexOfIsFirst(s: string, c: char, k: nat)
    requires k < |s| && s[k] == c && c !in s[..k]
    ensures IndexOf(s, c) == k
  {
  }

  /** `s.split('\n')[0]`: the text before the first line feed. */
  function FirstLine(s: string): (r: string)
    ensures r <= s && '\n' !in r
    ensures |r| < |s| ==> s[|r|] == '\n'
  {
    var k := IndexOf(s, '\n');
    if k < 0 then s else s[..k]
  }

  /** A character of a prefix free of line feeds lies on the first line. */
  lemma FirstLineKeepsPrefix(a: string, b: string, c: char)
    requires '\n' !in a && c in a
    ensures c in FirstLine(a + b)
  {
    var r := FirstLine(a + b);
    assert |r| >= |a|;
    var i :| 0 <= i < |a| && a[i] == c;
    assert r[i] == c;
  }

  /** An `=` with no line feed before it lies on the first line. */
  lemma EqOnFirstLine(x: string, n: nat)
    requires n < |x| && x[n] == '='
    requires forall k :: 0 <= k < n ==> x[k] != '\n'
    ensures '=' in FirstLine(x)
  {
    assert x[..n + 1] + x[n + 1..] == x;
    assert x[..n + 1][n] == '=';
    FirstLineKeepsPrefix(x[..n + 1], x[n + 1..], '=');
  }

  predicate OccursAt(s: string, sub: string, i: nat) {
    i + |sub| <= |s| && s[i..i + |sub|] == sub
  }

  /** `/sub/.test(s)` for a pattern without special characters: whether `sub` occurs in `s`. */
  predicate Contains(s: string, sub: string)
    ensures Contains(s, sub) <==> exists i: nat :: OccursAt(s, sub, i)
  {
    if |s| < |sub| then false
    else if s[..|sub|] == sub then (assert OccursAt(s, sub, 0); true)
    else
      var r := Contains(s[1..], sub);
      assert forall i: nat :: OccursAt(s[1..], sub, i) ==> OccursAt(s, sub, i + 1);
      assert forall i: nat :: OccursAt(s, sub, i) && i > 0 ==> OccursAt(s[1..], sub, i - 1);
      r
  }
}
