/**
 * Concrete groups from both rules' documented behaviour, and the inputs that
 * show where the code as written departs from what it evidently intends.
 */
module Scenarios {
  import opened Wrappers
  import opened Text
  import opened Operators
  import opened Statements
  import opened AlignAssignments
  import AlignRequires
  import Grouping

  /** `const ABC = require()`: the declared name is three wide, and the position is the index of `=`. */
  lemma DeclarationPosition()
    ensures var s := Stmt(0, Declaration(false), 1, 1, "const ABC = require()", 0, 21, 3,
                          [Token("const", 1, 0, 5), Token("ABC", 1, 6, 9), Token("=", 1, 10, 11)]);
            FindAssignment(s) == Some(10) && EqAt(s.text, 10)
  {
    var s := Stmt(0, Declaration(false), 1, 1, "const ABC = require()", 0, 21, 3,
                  [Token("const", 1, 0, 5), Token("ABC", 1, 6, 9), Token("=", 1, 10, 11)]);
    DeclarationScan(s);
  }

  lemma DeclarationScan(s: Stmt)
    requires s.text == "con" + "st ABC = require()" && s.prefix == 3
    ensures FindAssignment(s) == Some(10) && EqAt(s.text, 10)
  {
    DeclarationScanned(s);
    LeadingScan(ScannedText(s));
    DeclarationEq(s);
  }

  lemma DeclarationEq(s: Stmt)
    requires s.text == "con" + "st ABC = require()" && s.prefix == 3
    ensures EqAt(s.text, 10)
  {
    DeclarationScanned(s);
    assert s.text[10] == ScannedText(s)[7];
  }

  lemma DeclarationScanned(s: Stmt)
    requires s.text == "con" + "st ABC = require()" && s.prefix == 3
    ensures ScannedText(s) == "st ABC = require()"
  {
    SplitAt("con", "st ABC = require()");
  }

  lemma LeadingScan(u: string)
    requires u == "st ABC = require()"
    ensures Scan(u) == Some(Match(6, "="))
  {
    NothingBeforeEq(u);
    WsEndIs(u, 6, 7);
    assert StartsWith(u[7..], "=");
    ScanIsLeftmost(u, 6, "=");
  }

  lemma NothingBeforeEq(u: string)
    requires u == "st ABC = require()"
    ensures forall j, op :: 0 <= j < 6 ==> !MatchesAt(u, j, op)
  {
    NoMatchInWord(u, 0, 2);
    NoMatchInWord(u, 3, 6);
    WsEndIs(u, 2, 3);
    LetterStartsNoOperator(u[3..]);
    NoMatchAt(u, 2, 3);
  }

  /** No operator starts with a letter. */
  lemma LetterStartsNoOperator(s: string)
    requires |s| >= 1 && ('A' <= s[0] <= 'Z' || 'a' <= s[0] <= 'z')
    ensures OperatorLength(s).None?
  {
    if |s| >= 4 {
      assert s[..4][0] == s[0];
    }
  }

  /** Inside a run of letters the pattern cannot match: no white space and no operator starts there. */
  lemma NoMatchInWord(u: string, lo: nat, hi: nat)
    requires lo <= hi <= |u|
    requires forall k :: lo <= k < hi ==> 'A' <= u[k] <= 'Z' || 'a' <= u[k] <= 'z'
    ensures forall j, op :: lo <= j < hi ==> !MatchesAt(u, j, op)
  {
    forall j, op | lo <= j < hi
      ensures !MatchesAt(u, j, op)
    {
      WsEndIs(u, j, j);
      NoMatchAt(u, j, j);
    }
  }

  /** A text that opens with one space and `=` matches at once. */
  lemma SpacedEqScan(u: string)
    requires |u| >= 2 && u[0] == ' ' && u[1] == '='
    ensures Scan(u) == Some(Match(0, "="))
  {
    WsEndIs(u, 0, 1);
    assert u[1..][..1] == "=";
    ScanIsLeftmost(u, 0, "=");
  }

  /**
   * Three adjacent assignments: `yy = 2`, `x = 1`, and `longName =` with its
   * right side on the next line. The third does not take part in the column,
   * which is 3, yet the fix rebuilds it with a padding of -5.
   */
  function ShortA(): Stmt {
    Stmt(0, Assignment(1, 1), 1, 1, "yy = 2", 0, 6, 2, [Token("yy", 1, 0, 2), Token("=", 1, 3, 4), Token("2", 1, 5, 6)])
  }

  function ShortB(): Stmt {
    Stmt(0, Assignment(2, 2), 2, 2, "x = 1", 7, 12, 1, [Token("x", 2, 0, 1), Token("=", 2, 2, 3), Token("1", 2, 4, 5)])
  }

  function SplitC(): Stmt {
    Stmt(0, Assignment(3, 4), 3, 4, "longName =\n  2", 13, 27, 8,
         [Token("longName", 3, 0, 8), Token("=", 3, 9, 10), Token("2", 4, 2, 3)])
  }

  lemma NegativePaddingGroup()
    ensures var g := [ShortA(), ShortB(), SplitC()];
            && MaxPos(g) == 3 && Reported(g)
            && PaddingNegative(SplitC(), 3)
  {
    var g := [ShortA(), ShortB(), SplitC()];
    GroupColumn(SplitC());
    assert !EqAt(g[1].text, 3);
    SplitCRewrites();
    SplitCPadding();
  }

  /** `yy = 2` and `x = 1` give column 3; a third member whose sides start on different lines takes no part. */
  lemma GroupColumn(c: Stmt)
    requires c.kind.Assignment? && c.kind.leftLine != c.kind.rightLine
    ensures MaxPos([ShortA(), ShortB(), c]) == 3
  {
    var g := [ShortA(), ShortB(), c];
    SpacedEqScan(ScannedText(ShortA()));
    SpacedEqScan(ScannedText(ShortB()));
    var p1: seq<Option<int>> := [Some(3)];
    var p2 := p1 + [Some(2)];
    var p3 := p2 + [None];
    assert Positions(g) == p3;
    assert p1[..0] == [] && p2[..1] == p1 && p3[..2] == p2;
    assert MaxOf(p1) == 3;
    assert MaxOf(p2) == 3;
  }

  lemma SplitCRewrites()
    ensures FindOperator(SplitC().tokens) == Some(Token("=", 3, 9, 10))
    ensures Rewrites(SplitC(), 3)
  {
    NotAnOperator("longName");
    assert SplitC().tokens[1..][0] == Token("=", 3, 9, 10);
    assert SplitC().text[3] == 'g';
  }

  lemma SplitCPadding()
    ensures Padding(SplitC(), Token("=", 3, 9, 10), 3) == -5
  {
    var left := LeftPart(SplitC(), Token("=", 3, 9, 10));
    assert left == SplitC().text[..9];
    TrimmedName(left);
  }

  lemma TrimmedName(left: string)
    requires left == "longName "
    ensures |TrimEndAsWritten(left)| == 8
  {
    TrimEndAsWrittenOnOneLine(left);
    assert !IsSpace(left[7]);
  }

  /** On that group `check` as written throws, where the corrected check keeps the third member's text. */
  lemma NegativePaddingThrows()
    ensures CheckAsWritten([ShortA(), ShortB(), SplitC()]) == Throws
    ensures Check([ShortA(), ShortB(), SplitC()]).Some?
    ensures Check([ShortA(), ShortB(), SplitC()]).value[2] == SplitC().text
  {
    var g := [ShortA(), ShortB(), SplitC()];
    NegativePaddingGroup();
    CheckAsWrittenThrows(g);
    assert g[2] == SplitC();
  }

  /**
   * `abc =` with ` 1` on the next line, after `yy = 2` and `x = 1`: it takes
   * no part in the column, 3, and the fix as written gives it a padding of 0.
   */
  function SplitD(): Stmt {
    Stmt(0, Assignment(3, 4), 3, 4, "abc " + "=" + "\n 1", 13, 20, 3,
         [Token("abc", 3, 0, 3), Token("=", 3, 4, 5), Token("1", 4, 1, 2)])
  }

  function SplitGroup(): seq<Stmt> {
    [ShortA(), ShortB(), SplitD()]
  }

  /** `x = 1` rebuilt for column 3: `x  = 1`, two spaces before `=`. */
  function FixedB(): string { Assemble("x", 2, "=", "1") }

  /** `abc =` and ` 1` rebuilt for column 3: `abc= 1`, pulled onto one line with no space before `=`. */
  function JoinedD(): string { Assemble("abc", 0, "=", "1") }

  lemma FixedBReads()
    ensures FixedB() == "x  = 1"
  {
    TwoSpaces();
  }

  lemma JoinedDReads()
    ensures JoinedD() == "abc= 1"
  {
  }

  /**
   * The group as a second run parses it after the fix as written: the second
   * member respaced, and the third on one line, so both its sides now start on line 3.
   */
  function SecondRun(): seq<Stmt> {
    [ShortA(),
     Stmt(0, Assignment(2, 2), 2, 2, FixedB(), 7, 13, 1, [Token("x", 2, 0, 1), Token("=", 2, 3, 4), Token("1", 2, 5, 6)]),
     Stmt(0, Assignment(3, 3), 3, 3, JoinedD(), 14, 20, 3, [Token("abc", 3, 0, 3), Token("=", 3, 3, 4), Token("1", 3, 5, 6)])]
  }

  /**
   * The fix as written is not idempotent: on `yy = 2`, `x = 1`, `abc =` / ` 1`
   * it yields `x  = 1` and `abc= 1`; parsed again, the third member takes part
   * with position 4, the column becomes 4, where `yy = 2` has no `=`, and a
   * second run reports the group again.
   */
  lemma FixAsWrittenNotIdempotent()
    ensures CheckAsWritten(SplitGroup()) == Fixed([ShortA().text, FixedB(), JoinedD()])
    ensures FixedB() == "x  = 1" && JoinedD() == "abc= 1"
    ensures SecondRun()[0].text == ShortA().text && SecondRun()[1].text == FixedB() && SecondRun()[2].text == JoinedD()
    ensures MaxPos(SecondRun()) == 4 && Reported(SecondRun())
  {
    SplitGroupFixedAsWritten();
    FixedBReads();
    JoinedDReads();
    SecondRunReported();
  }

  lemma SecondRunReported()
    ensures MaxPos(SecondRun()) == 4 && Reported(SecondRun())
  {
    SecondRunColumn();
    assert !EqAt(SecondRun()[0].text, 4);
  }

  /** The corrected fix leaves the split member as it is. */
  lemma SplitMemberKept()
    ensures Check(SplitGroup()).Some? && Check(SplitGroup()).value[2] == SplitD().text
  {
    SplitGroupReported();
  }

  lemma SplitGroupReported()
    ensures MaxPos(SplitGroup()) == 3 && !AreAligned(3, SplitGroup())
  {
    GroupColumn(SplitD());
    assert !EqAt(SplitGroup()[1].text, 3);
  }

  lemma SplitGroupFixedAsWritten()
    ensures CheckAsWritten(SplitGroup()) == Fixed([ShortA().text, FixedB(), JoinedD()])
  {
    SplitGroupReported();
    SplitGroupFixes();
    CollectAllFixed(ShortA().text, FixedB(), JoinedD());
  }

  lemma SplitGroupFixes()
    ensures MemberFixes(SplitGroup(), 3) == [Some(ShortA().text), Some(FixedB()), Some(JoinedD())]
  {
    ShortAKept();
    ShortBFixedAsWritten();
    SplitDFixedAsWritten();
  }

  /** Three fixes that do not throw are collected in order. */
  lemma CollectAllFixed(a: string, b: string, c: string)
    ensures Collect([Some(a), Some(b), Some(c)]) == Fixed([a, b, c])
  {
    var r := Collect([Some(a), Some(b), Some(c)]);
    assert r.Fixed?;
    assert r.texts == [a, b, c];
  }

  lemma ShortAKept()
    ensures FixMemberAsWritten(ShortA(), 3) == Some(ShortA().text)
  {
    assert EqAt(ShortA().text, 3);
  }

  lemma ShortBFixedAsWritten()
    ensures FixMemberAsWritten(ShortB(), 3) == Some(FixedB())
  {
    ShortBRewrites();
    ShortBParts();
    FixedAsWrittenFrom(ShortB(), 3, Token("=", 2, 2, 3), "x", "1");
  }

  lemma ShortBRewrites()
    ensures Rewrites(ShortB(), 3) && FindOperator(ShortB().tokens) == Some(Token("=", 2, 2, 3))
  {
    var s, op := ShortB(), Token("=", 2, 2, 3);
    NotAnOperator("x");
    assert s.tokens[1..][0] == op;
    assert s.text[3] == ' ';
  }

  lemma ShortBParts()
    ensures TrimEndAsWritten(LeftPart(ShortB(), Token("=", 2, 2, 3))) == "x"
    ensures TrimStartAsWritten(RightPart(ShortB(), Token("=", 2, 2, 3))) == "1"
  {
    ShortBSlices();
    TrimmedWord("x" + " ", "x");
    TrimmedIndent(" " + "1", " ", "1");
  }

  lemma ShortBSlices()
    ensures LeftPart(ShortB(), Token("=", 2, 2, 3)) == "x" + " "
    ensures RightPart(ShortB(), Token("=", 2, 2, 3)) == " " + "1"
  {
  }

  lemma SplitDFixedAsWritten()
    ensures FixMemberAsWritten(SplitD(), 3) == Some(JoinedD())
  {
    SplitDRewrites();
    SplitDParts();
    FixedAsWrittenFrom(SplitD(), 3, Token("=", 3, 4, 5), "abc", "1");
  }

  lemma SplitDRewrites()
    ensures Rewrites(SplitD(), 3) && FindOperator(SplitD().tokens) == Some(Token("=", 3, 4, 5))
  {
    var s, op := SplitD(), Token("=", 3, 4, 5);
    NotAnOperator("abc");
    assert s.tokens[1..][0] == op;
    assert s.text[3] == ' ';
  }

  lemma SplitDParts()
    ensures TrimEndAsWritten(LeftPart(SplitD(), Token("=", 3, 4, 5))) == "abc"
    ensures TrimStartAsWritten(RightPart(SplitD(), Token("=", 3, 4, 5))) == "1"
  {
    SplitDSlices();
    TrimmedWord("abc ", "abc");
    TrimmedIndent("\n 1", "\n ", "1");
  }

  lemma SplitDSlices()
    ensures LeftPart(SplitD(), Token("=", 3, 4, 5)) == "abc "
    ensures RightPart(SplitD(), Token("=", 3, 4, 5)) == "\n 1"
  {
    var t := SplitD().text;
    SplitAt("abc " + "=", "\n 1");
    SplitAt("abc ", "=");
    assert t[..4] == t[..5][..4];
  }

  /** The fix as written of a member it rebuilds, from the two trimmed parts. */
  lemma FixedAsWrittenFrom(s: Stmt, maxPos: int, op: Token, start: string, ending: string)
    requires Rewrites(s, maxPos) && FindOperator(s.tokens) == Some(op)
    requires TrimEndAsWritten(LeftPart(s, op)) == start && TrimStartAsWritten(RightPart(s, op)) == ending
    requires maxPos - |start| - |op.value| + 1 >= 0
    ensures FixMemberAsWritten(s, maxPos) == Some(Assemble(start, maxPos - |start| - |op.value| + 1, op.value, ending))
  {
  }

  /** A word followed by one space loses the space and nothing else. */
  lemma TrimmedWord(left: string, w: string)
    requires left == w + " " && |w| > 0 && NoLineBreak(w) && !IsSpace(w[|w| - 1])
    ensures TrimEndAsWritten(left) == w
  {
    TrimEndAsWrittenOnOneLine(left);
    var r := TrimEnd(left);
    assert left[|w| - 1] == w[|w| - 1];
    assert |r| == |w|;
    assert r == left[..|w|] == w;
  }

  /** White space at the start of a text is what `/^\s+/m` removes when the text starts with it. */
  lemma TrimmedIndent(rest: string, ws: string, w: string)
    requires rest == ws + w && |ws| > 0 && AllSpace(ws) && |w| > 0 && !IsSpace(w[0])
    ensures TrimStartAsWritten(rest) == w
  {
    assert IndentFrom(rest, 0) == Some(0);
    WsEndIs(rest, 0, |ws|);
    assert rest[|ws|..] == w;
  }

  /** A text that opens with `n` spaces and `=` matches at once. */
  lemma LeadingEqScan(u: string, n: nat)
    requires n < |u| && u[n] == '=' && forall k :: 0 <= k < n ==> u[k] == ' '
    ensures Scan(u) == Some(Match(0, "="))
  {
    WsEndIs(u, 0, n);
    assert u[n..][..1] == "=";
    ScanIsLeftmost(u, 0, "=");
  }

  /** Parsed again, the group's positions are 3, 2 and 4. */
  lemma SecondRunColumn()
    ensures MaxPos(SecondRun()) == 4
  {
    var g := SecondRun();
    SecondRunFirst();
    SecondRunSecond();
    SecondRunThird();
    var m := MaxPos(g);
    assert 4 <= m;
    if m != 0 {
      var i :| 0 <= i < |g| && Position(g[i]) == Some(m);
      assert i == 0 || i == 1 || i == 2;
    }
  }

  lemma SecondRunFirst()
    ensures Position(SecondRun()[0]) == Some(3)
  {
    SpacedEqScan(ScannedText(ShortA()));
  }

  lemma SecondRunSecond()
    ensures Position(SecondRun()[1]) == Some(2)
  {
    var u := ScannedText(SecondRun()[1]);
    FixedBReads();
    assert u == FixedB()[1..];
    assert u[0] == ' ' && u[1] == ' ' && u[2] == '=';
    LeadingEqScan(u, 2);
  }

  lemma SecondRunThird()
    ensures Position(SecondRun()[2]) == Some(4)
  {
    var u := ScannedText(SecondRun()[2]);
    JoinedDReads();
    assert u == JoinedD()[3..];
    assert u[0] == '=';
    LeadingEqScan(u, 0);
  }

  /** `const A = require('a')` in a group whose column is 10 is rebuilt as `const A   = require('a')`. */
  function RequireA(): Stmt {
    Stmt(0, Declaration(false), 1, 1, "const A " + "=" + " require('a')", 0, 22, 1,
         [Token("const", 1, 0, 5), Token("A", 1, 6, 7), Token("=", 1, 8, 9), Token("require", 1, 10, 17)])
  }

  lemma RequireAFix()
    ensures FixMember(RequireA(), 10) == "const A   = require('a')"
  {
    RequireAParts();
    RequireATrims();
    AssembleRequireA();
  }

  lemma AssembleRequireA()
    ensures Assemble("const A", 3, "=", "require('a')") == "const A   = require('a')"
  {
    var a := "const A" + Spaces(3);
    assert a == "const A   " by {
      assert Spaces(3) == "   ";
    }
    assert a + "=" + " " == "const A   = ";
  }

  lemma RequireAParts()
    ensures FindOperator(RequireA().tokens) == Some(Token("=", 1, 8, 9))
    ensures Refits(RequireA(), 10) && Padding(RequireA(), Token("=", 1, 8, 9), 10) == 3
  {
    RequireATrims();
    RequireAEligible();
    var s := RequireA();
    NotAnOperator("const");
    NotAnOperator("A");
    assert s.tokens[1..][1..][0] == Token("=", 1, 8, 9);
    assert s.text[10] == 'r';
  }

  /** The declaration has its `=` on its first line, so it takes part in the check. */
  lemma RequireAEligible()
    ensures AssignmentOnFirstLine(RequireA())
  {
    FirstLineKeepsPrefix("const A " + "=", " require('a')", '=');
  }

  lemma RequireATrims()
    ensures TrimEndAsWritten(LeftPart(RequireA(), Token("=", 1, 8, 9))) == "const A"
    ensures TrimStart(RightPart(RequireA(), Token("=", 1, 8, 9))) == "require('a')"
  {
    RequireASlices();
    TrimmedA("const A ");
    SpacedRequire(" require('a')");
  }

  /** The text before and after the operator token of `RequireA`. */
  lemma RequireASlices()
    ensures LeftPart(RequireA(), Token("=", 1, 8, 9)) == "const A "
    ensures RightPart(RequireA(), Token("=", 1, 8, 9)) == " require('a')"
  {
    var t := RequireA().text;
    SplitAt("const A " + "=", " require('a')");
    SplitAt("const A ", "=");
    assert t[..8] == t[..9][..8];
  }

  lemma TrimmedA(left: string)
    requires left == "const A "
    ensures TrimEndAsWritten(left) == "const A"
  {
    TrimEndAsWrittenOnOneLine(left);
    assert !IsSpace(left[6]);
    assert TrimEnd(left) <= left;
  }

  lemma SpacedRequire(right: string)
    requires right == " require('a')"
    ensures TrimStart(right) == "require('a')"
  {
    WsEndIs(right, 0, 1);
  }

  /**
   * The shape of a declaration read from inside its keyword: lower-case
   * letters up to `a`, spaces up to `b`, an upper-case name up to `w`, spaces
   * up to `e`, and `=` at `e`.
   */
  predicate NameThenEq(u: string, a: nat, b: nat, w: nat, e: nat) {
    && a < b < w < e < |u| && u[e] == '='
    && (forall k :: 0 <= k < a ==> 'a' <= u[k] <= 'z')
    && (forall k :: a <= k < b ==> u[k] == ' ')
    && (forall k :: b <= k < w ==> 'A' <= u[k] <= 'Z')
    && (forall k :: w <= k < e ==> u[k] == ' ')
  }

  /** Inside a run of spaces that a letter ends, the pattern cannot match: no operator follows the spaces. */
  lemma NoMatchInGap(u: string, lo: nat, hi: nat)
    requires lo <= hi < |u|
    requires forall k :: lo <= k < hi ==> u[k] == ' '
    requires 'A' <= u[hi] <= 'Z' || 'a' <= u[hi] <= 'z'
    ensures forall j, op :: lo <= j < hi ==> !MatchesAt(u, j, op)
  {
    forall j, op | lo <= j < hi
      ensures !MatchesAt(u, j, op)
    {
      WsEndIs(u, j, hi);
      NoMatchAt(u, j, hi);
    }
  }

  /** In a text of that shape the leftmost match is the white space after the name. */
  lemma NameThenEqScan(u: string, a: nat, b: nat, w: nat, e: nat)
    requires NameThenEq(u, a, b, w, e) == true
    ensures Scan(u) == Some(Match(w, "="))
  {
    NoMatchInWord(u, 0, a);
    NoMatchInGap(u, a, b);
    NoMatchInWord(u, b, w);
    WsEndIs(u, w, e);
    assert u[e..][..1] == "=";
    ScanIsLeftmost(u, w, "=");
  }

  /**
   * A declaration whose text from the prefix on has that shape takes part,
   * its position is the end of the white space after the name, and its `=`
   * sits at the prefix plus `e`.
   */
  lemma DeclaredPosition(s: Stmt, head: string, u: string, a: nat, b: nat, w: nat, e: nat)
    requires (!s.kind.Assignment? && s.text == head + u && s.prefix == |head| && '\n' !in head) == true
    requires NameThenEq(u, a, b, w, e) == true
    ensures Position(s) == Some(|head| + w + 1) && EqAt(s.text, |head| + e)
  {
    NameThenEqScan(u, a, b, w, e);
    DeclaredFind(s, head, u, w);
    assert forall k :: 0 <= k < e ==> u[k] != '\n';
    DeclaredEq(s.text, head, u, e);
  }

  lemma DeclaredFind(s: Stmt, head: string, u: string, w: nat)
    requires (s.text == head + u && s.prefix == |head| && Scan(u) == Some(Match(w, "="))) == true
    ensures FindAssignment(s) == Some(|head| + w + 1)
  {
    SplitAt(head, u);
    FindAssignmentOfMatch(s, Match(w, "="));
  }

  /** An `=` with no line feed before it is on the first line. */
  lemma DeclaredEq(t: string, head: string, u: string, e: nat)
    requires (t == head + u && '\n' !in head && e < |u| && u[e] == '=') == true
    requires forall k :: 0 <= k < e ==> u[k] != '\n'
    ensures '=' in FirstLine(t) && EqAt(t, |head| + e)
  {
    var a := head + u[..e + 1];
    assert t == a + u[e + 1..];
    assert a[|head| + e] == '=';
    assert '\n' !in a by {
      forall k | 0 <= k < |a|
        ensures a[k] != '\n'
      {
        if k >= |head| {
          assert a[k] == u[k - |head|];
        }
      }
    }
    FirstLineKeepsPrefix(a, u[e + 1..], '=');
  }

  lemma ABCShape(u: string)
    requires |u| >= 8 && u[..8] == "st ABC ="
    ensures NameThenEq(u, 2, 3, 6, 7)
  {
    assert forall k :: 0 <= k < 8 ==> u[k] == u[..8][k];
  }

  lemma PaddedShape(u: string)
    requires u == "onst A   = require()"
    ensures NameThenEq(u, 4, 5, 6, 9)
  {
  }

  lemma RightShape(u: string)
    requires u == "onst   A = require()"
    ensures NameThenEq(u, 4, 7, 8, 9)
  {
  }

  lemma RequireAShape(u: string)
    requires u == "onst A = require('a')"
    ensures NameThenEq(u, 4, 5, 6, 7)
  {
  }

  /** A declaration whose text reads `const ABC =` and then anything: position 10, with `=` there. */
  lemma ConstABCPosition(s: Stmt, u: string)
    requires (!s.kind.Assignment? && s.prefix == 3 && s.text == "con" + u) == true
    requires (|u| >= 8 && u[..8] == "st ABC =") == true
    ensures Position(s) == Some(10) && EqAt(s.text, 10)
  {
    ABCShape(u);
    DeclaredPosition(s, "con", u, 2, 3, 6, 7);
  }

  lemma ABCHead(u: string, tail: string)
    requires u == "st ABC = require(" + tail
    ensures |u| >= 8 && u[..8] == "st ABC ="
  {
    assert u[..8] == ("st ABC =" + " require(" + tail)[..8];
  }

  /** `const A   = require()`: read from the prefix 1, the match comes before the name's padding, so the position is 8 while `=` is at 10. */
  lemma ConstAPaddedPosition(s: Stmt)
    requires (!s.kind.Assignment? && s.prefix == 1) == true
    requires s.text == "c" + "onst A   = require()"
    ensures Position(s) == Some(8) && EqAt(s.text, 10)
  {
    PaddedShape("onst A   = require()");
    DeclaredPosition(s, "c", "onst A   = require()", 4, 5, 6, 9);
  }

  /** `const   A = require()`: position 10, with `=` there. */
  lemma ConstARightPosition(s: Stmt)
    requires (!s.kind.Assignment? && s.prefix == 1) == true
    requires s.text == "c" + "onst   A = require()"
    ensures Position(s) == Some(10) && EqAt(s.text, 10)
  {
    RightShape("onst   A = require()");
    DeclaredPosition(s, "c", "onst   A = require()", 4, 7, 8, 9);
  }

  lemma RequireAPosition()
    ensures Position(RequireA()) == Some(8)
  {
    assert (!RequireA().kind.Assignment? && RequireA().prefix == 1
            && RequireA().text == "c" + "onst A = require('a')") == true by {
      RequireAScanned();
    }
    ConstAPosition(RequireA());
  }

  /** `const A = require('a')`: position 8, with `=` there. */
  lemma ConstAPosition(s: Stmt)
    requires (!s.kind.Assignment? && s.prefix == 1 && s.text == "c" + "onst A = require('a')") == true
    ensures Position(s) == Some(8)
  {
    RequireAShape("onst A = require('a')");
    DeclaredPosition(s, "c", "onst A = require('a')", 4, 5, 6, 7);
  }

  lemma RequireAScanned()
    ensures RequireA().text == "c" + "onst A = require('a')"
  {
  }

  /**
   * `const ABC = require()` over `const A   = require()`: the column is 10
   * though the second line's position is 8, and both lines have `=` there, so
   * nothing is reported.
   */
  lemma PaddedNameGroupAligned(x: Stmt, y: Stmt)
    requires (!x.kind.Assignment? && x.prefix == 3 && x.text == "con" + "st ABC = require(" + ")") == true
    requires (!y.kind.Assignment? && y.prefix == 1 && y.text == "c" + "onst A   = require()") == true
    ensures MaxPos([x, y]) == 10 && Check([x, y]).None?
  {
    ABCHead("st ABC = require(" + ")", ")");
    ConstABCPosition(x, "st ABC = require(" + ")");
    ConstAPaddedPosition(y);
    TwoMemberColumn([x, y], 10);
    BothAtColumn(x, y, 10);
  }

  /** `const ABC = require()` over `const   A = require()` is aligned at 10. */
  lemma RightAlignedGroupAligned(x: Stmt, y: Stmt)
    requires (!x.kind.Assignment? && x.prefix == 3 && x.text == "con" + "st ABC = require(" + ")") == true
    requires (!y.kind.Assignment? && y.prefix == 1 && y.text == "c" + "onst   A = require()") == true
    ensures MaxPos([x, y]) == 10 && Check([x, y]).None?
  {
    ABCHead("st ABC = require(" + ")", ")");
    ConstABCPosition(x, "st ABC = require(" + ")");
    ConstARightPosition(y);
    TwoMemberColumn([x, y], 10);
    BothAtColumn(x, y, 10);
  }

  /**
   * `const A = require('a')` over `const ABC = require('abc')` has column 10,
   * is reported, and is replaced by `const A   = require('a')` and the
   * unchanged second line.
   */
  lemma RequireGroupFixed(y: Stmt)
    requires (!y.kind.Assignment? && y.prefix == 3 && y.text == "con" + "st ABC = require(" + "'abc')") == true
    ensures MaxPos([RequireA(), y]) == 10
    ensures Check([RequireA(), y]) == Some(["const A   = require('a')", y.text])
  {
    RequireGroupColumn(y);
    RequireAFix();
    RequireAParts();
    FirstRebuilt(RequireA(), y, 10, "const A   = require('a')");
  }

  lemma RequireGroupColumn(y: Stmt)
    requires (!y.kind.Assignment? && y.prefix == 3 && y.text == "con" + "st ABC = require(" + "'abc')") == true
    ensures MaxPos([RequireA(), y]) == 10 && EqAt(y.text, 10)
  {
    RequireAPosition();
    RequireABCPosition(y);
    TwoMemberColumn([RequireA(), y], 10);
  }

  lemma RequireABCPosition(y: Stmt)
    requires (!y.kind.Assignment? && y.prefix == 3 && y.text == "con" + "st ABC = require(" + "'abc')") == true
    ensures Position(y) == Some(10) && EqAt(y.text, 10)
  {
    ABCHead("st ABC = require(" + "'abc')", "'abc')");
    ConstABCPosition(y, "st ABC = require(" + "'abc')");
  }

  /** A reported pair whose second member already has `=` at the column keeps that member's text. */
  lemma FirstRebuilt(x: Stmt, y: Stmt, m: nat, t: string)
    requires (MaxPos([x, y]) == m && Refits(x, m) && FixMember(x, m) == t && EqAt(y.text, m)) == true
    ensures Check([x, y]) == Some([t, y.text])
  {
    PairReported(x, y, m);
    PairFixes(x, y, m, t);
  }

  lemma PairReported(x: Stmt, y: Stmt, m: nat)
    requires (MaxPos([x, y]) == m && Refits(x, m)) == true
    ensures Check([x, y]) == Some(Fixes([x, y], m))
  {
    assert !AreAligned(m, [x, y]) by {
      assert AssignmentOnFirstLine([x, y][0]) && !EqAt([x, y][0].text, m);
    }
  }

  lemma PairFixes(x: Stmt, y: Stmt, m: nat, t: string)
    requires (FixMember(x, m) == t && EqAt(y.text, m)) == true
    ensures Fixes([x, y], m) == [t, y.text]
  {
    var r := Fixes([x, y], m);
    assert r[0] == t;
    assert r[1] == FixMember(y, m) == y.text;
  }

  /**
   * With `requiresOnly`, `const ABC = require()` over `const A = 1`: the plain
   * declaration is dropped before grouping, so the group holds the first line
   * alone, the dropped line never becomes `previousNode`, and the group is
   * not reported.
   */
  lemma RequiresOnlyDropsPlainDeclaration(x: Stmt, y: Stmt)
    requires (x.kind == Declaration(false) && x.prefix == 3 && x.text == "con" + "st ABC = require(" + ")") == true
    requires (y.kind == Declaration(false) && y.text == "const A = 1") == true
    ensures Grouping.GroupAll(Grouping.AlignAssignments(true), [x, y]) == Grouping.Grouper([[x]], Some(x))
    ensures Check([x]).None?
  {
    RequireDeclarationAdmitted(x);
    PlainDeclarationDropped(y);
    DroppedSecond(Grouping.AlignAssignments(true), x, y);
    LoneDeclarationAligned(x);
  }

  /** `const ABC = require()` alone is aligned with itself. */
  lemma LoneDeclarationAligned(x: Stmt)
    requires (!x.kind.Assignment? && x.prefix == 3 && x.text == "con" + "st ABC = require(" + ")") == true
    ensures Check([x]).None?
  {
    ABCHead("st ABC = require(" + ")", ")");
    ConstABCPosition(x, "st ABC = require(" + ")");
    assert AreAligned(MaxPos([x]), [x]);
  }

  /** A second statement the rule drops leaves the first alone in its group, and as `previousNode`. */
  lemma DroppedSecond(rule: Grouping.Rule, x: Stmt, y: Stmt)
    requires (Grouping.Admits(rule, x) && !Grouping.Admits(rule, y)) == true
    ensures Grouping.GroupAll(rule, [x, y]) == Grouping.Grouper([[x]], Some(x))
  {
    Grouping.AdmittedAppend(rule, [x], [y]);
    assert [x] + [y] == [x, y];
    assert Grouping.Admitted(rule, [x, y]) == [x];
    var g := Grouping.GroupAll(rule, [x, y]);
    SingleRun(rule, x);
    Grouping.RunPartitionUnique(rule, [x], g.groups, [[x]]);
  }

  /** One statement on its own is cut into the one run holding it. */
  lemma SingleRun(rule: Grouping.Rule, x: Stmt)
    ensures Grouping.IsRunPartition(rule, [x], [[x]])
  {
    assert Grouping.Flatten([[x]]) == [x] by {
      assert [[x]][..0] == [];
    }
  }

  lemma RequireDeclarationAdmitted(x: Stmt)
    requires (x.kind == Declaration(false) && x.text == "con" + "st ABC = require(" + ")") == true
    ensures Grouping.Admits(Grouping.AlignAssignments(true), x)
  {
    assert x.text == "const ABC = " + "require(" + ")";
    ContainsMiddle("const ABC = ", "require(", ")");
  }

  lemma PlainDeclarationDropped(y: Stmt)
    requires (y.kind == Declaration(false) && y.text == "const A = 1") == true
    ensures !Grouping.Admits(Grouping.AlignAssignments(true), y)
  {
    NoParenNoRequire(y.text);
  }

  lemma ContainsMiddle(a: string, b: string, c: string)
    ensures Contains(a + b + c, b)
  {
    assert OccursAt(a + b + c, b, |a|) by {
      assert (a + b + c)[|a|..|a| + |b|] == b;
    }
  }

  /** A text without `(` does not contain `require(`. */
  lemma NoParenNoRequire(t: string)
    requires t == "const A = 1"
    ensures !Contains(t, "require(")
  {
    forall i: nat | i + 8 <= |t|
      ensures !OccursAt(t, "require(", i)
    {
      assert t[i..i + 8][7] == t[i + 7];
    }
  }

  /** Two members with `=` at their column are not reported. */
  lemma BothAtColumn(x: Stmt, y: Stmt, m: nat)
    requires (MaxPos([x, y]) == m && EqAt(x.text, m) && EqAt(y.text, m)) == true
    ensures Check([x, y]).None?
  {
    assert AreAligned(m, [x, y]);
  }

  /** Two members whose larger position is `m` have column `m`. */
  lemma TwoMemberColumn(g: seq<Stmt>, m: nat)
    requires (|g| == 2 && Position(g[0]).Some? && Position(g[1]).Some?) == true
    requires (m == Position(g[0]).value || m == Position(g[1]).value) == true
    requires (Position(g[0]).value <= m && Position(g[1]).value <= m) == true
    ensures MaxPos(g) == m
  {
    var r := MaxPos(g);
    if r != 0 {
      var i :| 0 <= i < |g| && Position(g[i]) == Some(r);
    }
  }

  /**
   * `/^\s+/m` on a text that does not start with white space removes the
   * indentation of its second line instead: `{` newline, two spaces, `a`.
   */
  lemma TrimStartAsWrittenDropsIndent()
    ensures TrimStartAsWritten("{\n  a") == "{\na"
    ensures TrimStart("{\n  a") == "{\n  a"
  {
    IndentDropped();
    WsEndIs("{\n  a", 0, 0);
  }

  lemma IndentDropped()
    ensures TrimStartAsWritten("{\n  a") == "{\na"
  {
    var s := "{\n  a";
    assert IndentFrom(s, 0) == Some(2) by {
      assert IndentFrom(s, 2) == Some(2);
      assert !AtLineStart(s, 1);
    }
    WsEndIs(s, 2, 4);
    assert s[..2] == "{\n" && s[4..] == "a";
  }

  /** `var a = require('a');`, whose `=` is at column 6. */
  function LineA(): string { "var a " + "= require('a');" }

  /** `var bb = require('b');`, whose `=` is at column 7. */
  function LineB(): string { "var bb " + "= require('b');" }

  /** What stands between the two declarations: a line comment and its line feed. */
  function Comment(): string { " // a\n" }

  /** The two declarations with the comment between them. */
  function CommentedSource(): string {
    LineA() + Comment() + LineB()
  }

  function CommentedGroup(): seq<Stmt> {
    [Stmt(0, Declaration(false), 1, 1, LineA(), 0, 21, 1, []),
     Stmt(0, Declaration(false), 2, 2, LineB(), 27, 49, 2, [])]
  }

  /** The first line fixed: one space inserted before its `=`. */
  function FixedA(): string {
    "var a " + " " + "= require('a');"
  }

  /** The two halves of a concatenation, read back by slicing. */
  lemma SplitAt(l: string, r: string)
    ensures (l + r)[..|l|] == l && (l + r)[|l|..] == r
  {
  }

  lemma ColumnOfA()
    ensures AlignRequires.FindAssignment(LineA()) == 6
  {
    SplitAt("var a ", "= require('a');");
    IndexOfIsFirst(LineA(), '=', 6);
  }

  lemma ColumnOfB()
    ensures AlignRequires.FindAssignment(LineB()) == 7
  {
    SplitAt("var bb ", "= require('b');");
    IndexOfIsFirst(LineB(), '=', 7);
  }

  /** The largest column of two lines whose second column is the larger. */
  lemma MaxPosOfTwo(a: string, b: string)
    requires AlignRequires.FindAssignment(a) <= AlignRequires.FindAssignment(b)
    ensures AlignRequires.MaxPos([a, b]) == AlignRequires.FindAssignment(b)
  {
    assert [a, b][..1] == [a];
  }

  /** A line whose `=` is left of the column gets the missing spaces right before it. */
  lemma FixLineShort(line: string, m: int, pos: nat)
    requires AlignRequires.FindAssignment(line) == pos < m
    ensures AlignRequires.FixLine(line, m) == line[..pos] + Spaces(m - pos) + line[pos..]
  {
  }

  lemma FixA()
    ensures AlignRequires.FindAssignment(LineA()) <= 7
    ensures AlignRequires.FixLine(LineA(), 7) == FixedA()
  {
    SplitAt("var a ", "= require('a');");
    ColumnOfA();
    FixLineShort(LineA(), 7, 6);
    assert Spaces(1) == " ";
  }

  /** Fixing two lines is fixing each. */
  lemma FixAllOfTwo(a: string, b: string, m: int)
    requires AlignRequires.FindAssignment(a) <= m && AlignRequires.FindAssignment(b) <= m
    ensures AlignRequires.FixAll([a, b], m) == [AlignRequires.FixLine(a, m), AlignRequires.FixLine(b, m)]
  {
  }

  lemma CommentedLines()
    ensures AlignRequires.Lines(CommentedGroup()) == [LineA(), LineB()]
  {
  }

  /** The first line needs one space before its `=`; the second is already at the column, 7. */
  lemma CommentedColumns()
    ensures AlignRequires.MaxPos(AlignRequires.Lines(CommentedGroup())) == 7
    ensures AlignRequires.FixAll(AlignRequires.Lines(CommentedGroup()), 7) == [FixedA(), LineB()]
  {
    CommentedLines();
    ColumnOfA();
    ColumnOfB();
    MaxPosOfTwo(LineA(), LineB());
    FixA();
    FixAllOfTwo(LineA(), LineB(), 7);
  }

  lemma CommentedInSource()
    ensures AlignRequires.InSource(CommentedSource(), CommentedGroup())
    ensures AlignRequires.Gaps(CommentedSource(), CommentedGroup()) == [Comment()]
  {
    var src, g := CommentedSource(), CommentedGroup();
    SplitAt(LineA() + Comment(), LineB());
    SplitAt(LineA(), Comment());
    assert src[0..21] == src[..27][..21];
    assert src[21..27] == src[..27][21..];
  }

  /**
   * For a group of two members that is not aligned: `check` as written puts a
   * line feed between the fixed texts, the corrected check puts the file's own
   * text that stood between them.
   */
  lemma TwoMemberReplacements(src: string, g: seq<Stmt>, fa: string, fb: string)
    requires |g| == 2 && AlignRequires.InSource(src, g)
    requires !AlignRequires.AreAligned(AlignRequires.MaxPos(AlignRequires.Lines(g)), AlignRequires.Lines(g))
    requires AlignRequires.FixAll(AlignRequires.Lines(g), AlignRequires.MaxPos(AlignRequires.Lines(g))) == [fa, fb]
    ensures AlignRequires.CheckAsWritten(g).Some?
    ensures AlignRequires.CheckAsWritten(g).value.replacement == fa + "\n" + fb
    ensures AlignRequires.Check(src, g).Some?
    ensures AlignRequires.Check(src, g).value.replacement == fa + src[g[0].end..g[1].start] + fb
  {
    var fixed := [fa, fb];
    assert fixed[..1] == [fa];
    assert AlignRequires.Join(fixed, "\n") == fa + "\n" + fb;
    var gaps := AlignRequires.Gaps(src, g);
    assert gaps[..0] == [];
    assert AlignRequires.Interleave(fixed, gaps) == fa + gaps[0] + fb;
  }

  /**
   * `check` as written replaces the whole range with the fixed lines joined by
   * a line feed, and the comment between them is lost; the corrected check
   * keeps it.
   */
  lemma JoinDropsComment()
    ensures AlignRequires.CheckAsWritten(CommentedGroup()).Some?
    ensures AlignRequires.CheckAsWritten(CommentedGroup()).value.replacement == FixedA() + "\n" + LineB()
    ensures AlignRequires.InSource(CommentedSource(), CommentedGroup())
    ensures AlignRequires.Check(CommentedSource(), CommentedGroup()).Some?
    ensures AlignRequires.Check(CommentedSource(), CommentedGroup()).value.replacement
            == FixedA() + Comment() + LineB()
  {
    var src, g := CommentedSource(), CommentedGroup();
    CommentedColumns();
    CommentedInSource();
    ColumnOfA();
    var lines := AlignRequires.Lines(g);
    assert AlignRequires.FindAssignment(lines[0]) != 7;
    assert AlignRequires.Gaps(src, g)[0] == src[g[0].end..g[1].start];
    TwoMemberReplacements(src, g, FixedA(), LineB());
  }

  /** `const A = require('a')`, whose `=` is at column 8. */
  function TestA(): string { "const A " + "= require('a')" }

  /** `const ABC = require('abc')`, whose `=` is at column 10. */
  function TestAbc(): string { "const ABC " + "= require('abc')" }

  /** The two declarations on consecutive lines. */
  function TestSource(): string { TestA() + "\n" + TestAbc() }

  function TestGroup(): seq<Stmt> {
    [Stmt(0, Declaration(false), 1, 1, TestA(), 0, 22, 1, []),
     Stmt(0, Declaration(false), 2, 2, TestAbc(), 23, 49, 3, [])]
  }

  /** `const A   = require('a')`: two spaces inserted before the `=`. */
  function FixedTestA(): string { "const A " + "  " + "= require('a')" }

  lemma TestColumnA()
    ensures AlignRequires.FindAssignment(TestA()) == 8
  {
    SplitAt("const A ", "= require('a')");
    IndexOfIsFirst(TestA(), '=', 8);
  }

  lemma TestColumnAbc()
    ensures AlignRequires.FindAssignment(TestAbc()) == 10
  {
    SplitAt("const ABC ", "= require('abc')");
    IndexOfIsFirst(TestAbc(), '=', 10);
  }

  lemma TwoSpaces()
    ensures Spaces(2) == "  "
  {
  }

  lemma TestFixA()
    ensures AlignRequires.FindAssignment(TestA()) <= 10
    ensures AlignRequires.FixLine(TestA(), 10) == FixedTestA()
  {
    TestColumnA();
    FixLineShort(TestA(), 10, 8);
    SplitAt("const A ", "= require('a')");
    TwoSpaces();
  }

  lemma TestGroupColumns()
    ensures AlignRequires.MaxPos(AlignRequires.Lines(TestGroup())) == 10
    ensures AlignRequires.FixAll(AlignRequires.Lines(TestGroup()), 10) == [FixedTestA(), TestAbc()]
  {
    assert AlignRequires.Lines(TestGroup()) == [TestA(), TestAbc()];
    TestColumnA();
    TestColumnAbc();
    MaxPosOfTwo(TestA(), TestAbc());
    TestFixA();
    FixAllOfTwo(TestA(), TestAbc(), 10);
  }

  lemma TestInSource()
    ensures AlignRequires.InSource(TestSource(), TestGroup())
    ensures AlignRequires.Gaps(TestSource(), TestGroup()) == ["\n"]
  {
    var src := TestSource();
    SplitAt(TestA() + "\n", TestAbc());
    SplitAt(TestA(), "\n");
    assert src[0..22] == src[..23][..22];
    assert src[22..23] == src[..23][22..];
  }

  /** `const ABC = require()`, whose `=` is at column 10. */
  function ValidAbc(): string { "const ABC " + "= require()" }

  /** `const A   = require()`, padded so that its `=` is also at column 10. */
  function ValidA(): string { "const A   " + "= require()" }

  /** The documented aligned pair on consecutive lines. */
  function ValidSource(): string { ValidAbc() + "\n" + ValidA() }

  function ValidGroup(): seq<Stmt> {
    [Stmt(0, Declaration(false), 1, 1, ValidAbc(), 0, 21, 3, []),
     Stmt(0, Declaration(false), 2, 2, ValidA(), 22, 43, 1, [])]
  }

  lemma ValidColumns()
    ensures AlignRequires.FindAssignment(ValidAbc()) == 10 && AlignRequires.FindAssignment(ValidA()) == 10
  {
    SplitAt("const ABC ", "= require()");
    IndexOfIsFirst(ValidAbc(), '=', 10);
    SplitAt("const A   ", "= require()");
    IndexOfIsFirst(ValidA(), '=', 10);
  }

  lemma ValidInSource()
    ensures AlignRequires.InSource(ValidSource(), ValidGroup())
  {
    var src := ValidSource();
    SplitAt(ValidAbc() + "\n", ValidA());
    SplitAt(ValidAbc(), "\n");
    assert src[0..21] == src[..22][..21];
  }

  /**
   * The documented valid group: `const ABC = require()` above
   * `const A   = require()` has both `=` at column 10, so neither `check` as
   * written nor the corrected check reports it.
   */
  lemma RequiresValidGroup()
    ensures AlignRequires.MaxPos(AlignRequires.Lines(ValidGroup())) == 10
    ensures AlignRequires.CheckAsWritten(ValidGroup()).None?
    ensures AlignRequires.InSource(ValidSource(), ValidGroup())
    ensures AlignRequires.Check(ValidSource(), ValidGroup()).None?
  {
    ValidGroupAligned();
    ValidInSource();
  }

  lemma ValidGroupAligned()
    ensures AlignRequires.MaxPos(AlignRequires.Lines(ValidGroup())) == 10
    ensures AlignRequires.AreAligned(10, AlignRequires.Lines(ValidGroup()))
  {
    assert (AlignRequires.Lines(ValidGroup()) == [ValidAbc(), ValidA()]
      && AlignRequires.FindAssignment(ValidAbc()) == 10 && AlignRequires.FindAssignment(ValidA()) == 10) == true by {
      ValidLines();
      ValidColumns();
    }
    PairAligned(ValidGroup(), ValidAbc(), ValidA(), 10);
  }

  /** A group of two members whose `=` share one column is aligned there. */
  lemma PairAligned(g: seq<Stmt>, a: string, b: string, m: int)
    requires (AlignRequires.Lines(g) == [a, b] && AlignRequires.FindAssignment(a) == m && AlignRequires.FindAssignment(b) == m) == true
    ensures AlignRequires.MaxPos(AlignRequires.Lines(g)) == m && AlignRequires.AreAligned(m, AlignRequires.Lines(g))
  {
    TwoAligned(a, b, m);
  }

  lemma ValidLines()
    ensures AlignRequires.Lines(ValidGroup()) == [ValidAbc(), ValidA()]
  {
  }

  /** Two lines with their first `=` in the same column are aligned there. */
  lemma TwoAligned(a: string, b: string, m: int)
    requires (AlignRequires.FindAssignment(a) == m && AlignRequires.FindAssignment(b) == m) == true
    ensures AlignRequires.MaxPos([a, b]) == m && AlignRequires.AreAligned(m, [a, b])
  {
    MaxPosOfTwo(a, b);
  }

  /**
   * The documented example: `const A = require('a')` above
   * `const ABC = require('abc')` is reported, and both `check` as written and
   * the corrected check replace the pair with `const A   = require('a')`, a
   * line feed, and the second line unchanged.
   */
  lemma RequiresTestOutput()
    ensures AlignRequires.CheckAsWritten(TestGroup()).Some?
    ensures AlignRequires.CheckAsWritten(TestGroup()).value == AlignRequires.Report(0, 49, FixedTestA() + "\n" + TestAbc())
    ensures AlignRequires.InSource(TestSource(), TestGroup())
    ensures AlignRequires.Check(TestSource(), TestGroup()) == AlignRequires.CheckAsWritten(TestGroup())
  {
    var src, g := TestSource(), TestGroup();
    TestGroupColumns();
    TestInSource();
    TestColumnA();
    var lines := AlignRequires.Lines(g);
    assert AlignRequires.FindAssignment(lines[0]) != 10;
    assert AlignRequires.Gaps(src, g)[0] == src[g[0].end..g[1].start];
    TwoMemberReplacements(src, g, FixedTestA(), TestAbc());
  }
}
