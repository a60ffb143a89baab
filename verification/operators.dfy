/**
 * The thirteen assignment operators and the leftmost-match scan of the
 * pattern `(\s*)((?:\+|-|\*|\/|%|&|\^|\||<<|>>|\*\*|>>>)?=)`: optional
 * white space followed by one assignment operator.
 */
module Operators {
  import opened Wrappers
  import opened Text

  /** The operator tokens the assignment fixer looks for, in the order it lists them. */
  const AssignOps: seq<string> :=
    ["=", "+=", "-=", "*=", "/=", "%=", "&=", "^=", "|=", "<<=", ">>=", "**=", ">>>="]

  predicate StartsWith(s: string, p: string) {
    |p| <= |s| && s[..|p|] == p
  }

  /** Every operator is one to four characters, none of them white space, and ends in `=`. */
  lemma OperatorShape(op: string)
    requires op in AssignOps
    ensures 1 <= |op| <= 4 && op[|op| - 1] == '='
    ensures forall i :: 0 <= i < |op| - 1 ==> op[i] != '='
    ensures forall i :: 0 <= i < |op| ==> !IsSpace(op[i])
  {
  }

  /** A token that does not end in `=` is not an assignment operator. */
  lemma NotAnOperator(v: string)
    requires |v| == 0 || v[|v| - 1] != '='
    ensures v !in AssignOps
  {
    forall op | op in AssignOps
      ensures |op| > 0 && op[|op| - 1] == '='
    {
      OperatorShape(op);
    }
  }

  /** No operator is a proper prefix of another, so at most one operator starts at any index. */
  lemma OperatorUnique(s: string, a: string, b: string)
    requires a in AssignOps && b in AssignOps
    requires StartsWith(s, a) && StartsWith(s, b)
    ensures a == b
  {
    if |a| <= |b| {
      assert b[..|a|] == a;
      PrefixFree(a, b);
    } else {
      assert a[..|b|] == b;
      PrefixFree(b, a);
    }
  }

  lemma PrefixFree(a: string, b: string)
    requires a in AssignOps && b in AssignOps
    requires |a| <= |b| && b[..|a|] == a
    ensures a == b
  {
    if |a| == |b| {
      assert b[..|b|] == b;
    } else {
      OperatorShape(a);
      OperatorShape(b);
    }
  }

  /** A match of the pattern: where its white space starts, and the operator that follows. */
  datatype Match = Match(index: nat, op: string)

  /** Whether the pattern matches at index `i` of `u` with operator `op`. */
  predicate MatchesAt(u: string, i: nat, op: string)
    requires i <= |u|
  {
    op in AssignOps && StartsWith(u[WsEnd(u, i)..], op)
  }

  /** The operator, if any, that the pattern can take after the white space starting at `i`. */
  function OperatorAfter(u: string, i: nat): Option<string>
    requires i <= |u|
  {
    var rest := u[WsEnd(u, i)..];
    match OperatorLength(rest)
    case None => None
    case Some(n) => Some(rest[..n])
  }

  /** The operator found is one that matches there, and none is found only when none matches. */
  lemma OperatorAfterSpec(u: string, i: nat)
    requires i <= |u|
    ensures OperatorAfter(u, i).Some? ==> MatchesAt(u, i, OperatorAfter(u, i).value)
    ensures OperatorAfter(u, i).None? ==> forall op :: !MatchesAt(u, i, op)
  {
    var rest := u[WsEnd(u, i)..];
    OperatorLengthSpec(rest);
    if OperatorLength(rest).Some? {
      var n := OperatorLength(rest).value;
      assert StartsWith(rest, rest[..n]);
    }
  }

  /**
   * The width of the assignment operator at the start of `s`, read character
   * by character: `=` alone, one of `+ - * / % & ^ |` before `=`, a doubled
   * `<`, `>` or `*` before `=`, or `>>>=`.
   */
  function OperatorLength(s: string): (r: Option<nat>)
    ensures r.Some? ==> 1 <= r.value <= |s|
  {
    if |s| >= 1 && s[0] == '=' then Some(1)
    else if |s| >= 2 && s[1] == '=' && s[0] in "+-*/%&^|" then Some(2)
    else if |s| >= 3 && s[2] == '=' && s[0] == s[1] && s[0] in "<>*" then Some(3)
    else if |s| >= 4 && s[..4] == ">>>=" then Some(4)
    else None
  }

  /** The width read is that of the one operator `s` starts with, and there is none when it reads none. */
  lemma OperatorLengthSpec(s: string)
    ensures OperatorLength(s).Some? ==> s[..OperatorLength(s).value] in AssignOps
    ensures OperatorLength(s).None? ==> forall op :: op in AssignOps ==> !StartsWith(s, op)
  {
    ReadIsOperator(s);
    forall op | op in AssignOps
      ensures StartsWith(s, op) ==> OperatorLength(s) == Some(|op|)
    {
      ReadsOperator(s, op);
    }
  }

  /** What is read is an operator. */
  lemma ReadIsOperator(s: string)
    ensures OperatorLength(s).Some? ==> s[..OperatorLength(s).value] in AssignOps
  {
    if |s| >= 1 && s[0] == '=' {
      assert s[..1] == "=";
    } else if |s| >= 2 && s[1] == '=' && s[0] in "+-*/%&^|" {
      ReadIsOperator2(s);
    } else if |s| >= 3 && s[2] == '=' && s[0] == s[1] && s[0] in "<>*" {
      assert s[..3] == [s[0], s[0], '='];
    }
  }

  lemma ReadIsOperator2(s: string)
    requires |s| >= 2 && s[1] == '=' && s[0] in "+-*/%&^|"
    ensures s[..2] in AssignOps
  {
    assert s[..2] == [s[0], '='];
  }

  /** A string that starts with an operator reads as that operator's width. */
  lemma ReadsOperator(s: string, op: string)
    requires op in AssignOps
    ensures StartsWith(s, op) ==> OperatorLength(s) == Some(|op|)
  {
    OperatorShape(op);
    if StartsWith(s, op) {
      assert forall k :: 0 <= k < |op| ==> s[k] == op[k] by {
        assert forall k :: 0 <= k < |op| ==> s[k] == s[..|op|][k];
      }
    }
  }

  /** The leftmost match of the pattern at or after index `i`. */
  function ScanFrom(u: string, i: nat): (r: Option<Match>)
    requires i <= |u|
    ensures r.Some? ==> i <= r.value.index < |u|
    decreases |u| - i
  {
    if i == |u| then None
    else match OperatorAfter(u, i)
      case Some(op) => Some(Match(i, op))
      case None => ScanFrom(u, i + 1)
  }

  /** The scan from `i` finds a match, and no match lies between `i` and the one it finds. */
  lemma {:induction false} ScanFromSpec(u: string, i: nat)
    requires i <= |u|
    ensures var r := ScanFrom(u, i);
      && (r.Some? ==> MatchesAt(u, r.value.index, r.value.op))
      && forall j, op :: i <= j < (if r.Some? then r.value.index else |u|) ==> !MatchesAt(u, j, op)
    decreases |u| - i
  {
    if i < |u| {
      OperatorAfterSpec(u, i);
      if OperatorAfter(u, i).None? {
        ScanFromSpec(u, i + 1);
      }
    }
  }

  /** `u.match(pattern)`: the leftmost match in `u`. */
  function Scan(u: string): (r: Option<Match>)
    ensures r.Some? ==> r.value.index < |u|
  {
    ScanFrom(u, 0)
  }

  /** The leftmost match: a match, with no match before it; none only when nothing matches. */
  lemma ScanSpec(u: string)
    ensures Scan(u).Some? ==> MatchesAt(u, Scan(u).value.index, Scan(u).value.op)
    ensures forall j, op :: 0 <= j < (if Scan(u).Some? then Scan(u).value.index else |u|) ==> !MatchesAt(u, j, op)
  {
    ScanFromSpec(u, 0);
  }

  /** The pattern never matches at the end of the string: an operator needs a character. */
  lemma NoMatchAtEnd(u: string, op: string)
    ensures !MatchesAt(u, |u|, op)
  {
    if op in AssignOps {
      OperatorShape(op);
    }
  }

  /**
   * Two strings that agree before index `j`, where `w` has white space at `j`
   * after a character that is not: a match in `w` before `j` is one in `u` too.
   */
  lemma NoEarlierMatch(u: string, w: string, j: nat)
    requires 0 < j <= |u| && j < |w| && u[..j] == w[..j]
    requires !IsSpace(w[j - 1]) && IsSpace(w[j])
    ensures forall i, op :: 0 <= i < j && MatchesAt(w, i, op) ==> MatchesAt(u, i, op)
  {
    forall i, op | 0 <= i < j && MatchesAt(w, i, op)
      ensures MatchesAt(u, i, op)
    {
      MatchCarriesBack(u, w, j, i, op);
    }
  }

  lemma MatchCarriesBack(u: string, w: string, j: nat, i: nat, op: string)
    requires 0 < j <= |u| && j < |w| && u[..j] == w[..j]
    requires !IsSpace(w[j - 1]) && IsSpace(w[j])
    requires i < j && MatchesAt(w, i, op)
    ensures MatchesAt(u, i, op)
  {
    var k := WsEnd(w, i);
    assert k < j;
    assert u[k] == w[k];
    WsEndIs(u, i, k);
    OperatorShape(op);
    assert forall m :: k <= m < k + |op| ==> w[m] == w[k..][..|op|][m - k];
    assert forall m :: k <= m < k + |op| ==> !IsSpace(w[m]);
    assert k + |op| <= j;
    forall m | 0 <= m < |op|
      ensures u[k..][..|op|][m] == w[k..][..|op|][m]
    {
      assert u[k + m] == u[..j][k + m];
      assert w[k + m] == w[..j][k + m];
    }
    assert u[k..][..|op|] == w[k..][..|op|];
  }

  /** Where no operator follows the white space from `i`, the pattern does not match at `i`. */
  lemma NoMatchAt(u: string, i: nat, k: nat)
    requires i <= k <= |u| && WsEnd(u, i) == k && OperatorLength(u[k..]).None?
    ensures forall op :: !MatchesAt(u, i, op)
  {
    OperatorLengthSpec(u[k..]);
  }

  /** A match with no match before it is the one the scan returns. */
  lemma ScanIsLeftmost(u: string, m: nat, op: string)
    requires m <= |u| && MatchesAt(u, m, op)
    requires forall j, op' :: 0 <= j < m ==> !MatchesAt(u, j, op')
    ensures Scan(u) == Some(Match(m, op))
  {
    NoMatchAtEnd(u, op);
    ScanSpec(u);
    var r := Scan(u);
    assert r.Some?;
    var k := WsEnd(u, m);
    OperatorUnique(u[k..], r.value.op, op);
  }
}
