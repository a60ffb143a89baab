/**
 * The `align-assignments` rule: finds the column each member's assignment
 * operator should end on, decides whether a group is aligned, and rebuilds the
 * text of each misaligned member with the operator padded to that column.
 */
module AlignAssignments {
  import opened Wrappers
  import opened Text
  import opened Operators
  import opened Statements

  /** The text `findAssigment` scans: the member's text after `prefix` characters, read as `substr` reads it. */
  function ScannedText(s: Stmt): string {
    s.text[JsIndex(|s.text|, s.prefix)..]
  }

  /**
   * `findAssigment`: the prefix, plus the index of the leftmost match of optional
   * white space and an operator in the scanned text, plus that operator's width.
   */
  function FindAssignment(s: Stmt): Option<int> {
    match Scan(ScannedText(s))
    case None => None
    case Some(m) => Some(s.prefix + m.index + |m.op|)
  }

  /**
   * A position lies after the prefix and within the scanned text, and a
   * scanned text without `=` has no position, since every operator ends in `=`.
   */
  lemma FindAssignmentBounds(s: Stmt)
    ensures FindAssignment(s).Some? ==> s.prefix < FindAssignment(s).value <= s.prefix + |ScannedText(s)|
    ensures '=' !in ScannedText(s) ==> FindAssignment(s).None?
  {
    var u := ScannedText(s);
    if Scan(u).Some? {
      ScanSpec(u);
      MatchEndsInEq(u);
      OperatorShape(Scan(u).value.op);
    }
  }

  /**
   * The position is missing exactly when the pattern matches nowhere in the
   * scanned text; otherwise it is the prefix plus the index of the leftmost
   * match plus the width of its operator.
   */
  lemma FindAssignmentIsLeftmost(s: Stmt)
    ensures FindAssignment(s).None? <==> forall i, op :: 0 <= i < |ScannedText(s)| ==> !MatchesAt(ScannedText(s), i, op)
    ensures FindAssignment(s).Some? ==>
      exists i, op :: && 0 <= i < |ScannedText(s)| && MatchesAt(ScannedText(s), i, op)
                      && (forall j, op' :: 0 <= j < i ==> !MatchesAt(ScannedText(s), j, op'))
                      && FindAssignment(s).value == s.prefix + i + |op|
  {
    ScanSpec(ScannedText(s));
  }

  /**
   * When the white space before the scanned operator is a single character,
   * the position `findAssigment` reports is the index of the operator's final `=`.
   */
  lemma FindAssignmentMarksOperatorEnd(s: Stmt)
    requires 0 <= s.prefix <= |s.text|
    requires Scan(ScannedText(s)).Some?
    ensures var u, m := ScannedText(s), Scan(ScannedText(s)).value;
            var gap := WsEnd(u, m.index) - m.index;
            && 0 <= FindAssignment(s).value + gap - 1 < |s.text|
            && s.text[FindAssignment(s).value + gap - 1] == '='
            && (gap == 1 ==> EqAt(s.text, FindAssignment(s).value))
  {
    var u := ScannedText(s);
    var m := Scan(u).value;
    var k := WsEnd(u, m.index);
    ScannedFrom(s, s.prefix);
    FindAssignmentOfMatch(s, m);
    MatchEndsInEq(u);
    assert s.text[s.prefix + k + |m.op| - 1] == u[k + |m.op| - 1];
  }

  /** The leftmost match ends with the `=` of its operator. */
  lemma MatchEndsInEq(u: string)
    requires Scan(u).Some?
    ensures var m := Scan(u).value;
            var k := WsEnd(u, m.index);
            k + |m.op| <= |u| && u[k + |m.op| - 1] == '='
  {
    var m := Scan(u).value;
    var k := WsEnd(u, m.index);
    ScanSpec(u);
    OperatorShape(m.op);
    assert u[k..][..|m.op|] == m.op;
  }

  /** `assignmentOnFirstLine`: whether the member takes part in the column computation and the check. */
  predicate AssignmentOnFirstLine(s: Stmt) {
    match s.kind
    case Assignment(leftLine, rightLine) => leftLine == rightLine
    case _ => '=' in FirstLine(s.text)
  }

  /**
   * A declaration takes part exactly when its text has an `=` with no line
   * feed before it.
   */
  lemma DeclarationOnFirstLine(s: Stmt)
    requires !s.kind.Assignment?
    ensures AssignmentOnFirstLine(s) <==> exists k :: 0 <= k < |s.text| && s.text[k] == '=' && '\n' !in s.text[..k]
  {
    var line := FirstLine(s.text);
    if AssignmentOnFirstLine(s) {
      var k :| 0 <= k < |line| && line[k] == '=';
      assert s.text[..k] == line[..k];
    }
    if exists k :: 0 <= k < |s.text| && s.text[k] == '=' && '\n' !in s.text[..k] {
      var k :| 0 <= k < |s.text| && s.text[k] == '=' && '\n' !in s.text[..k];
      assert forall j :: 0 <= j < k ==> s.text[..k][j] == s.text[j];
      EqOnFirstLine(s.text, k);
    }
  }


  /** The position a member contributes to `getMaxPos`: none when it is filtered out or has no match. */
  function Position(s: Stmt): Option<int> {
    if AssignmentOnFirstLine(s) then FindAssignment(s) else None
  }

  /**
   * `reduce((last, current) => Math.max(last, current), [])` over positions:
   * the initial `[]` and a missing position both read as 0.
   */
  function MaxOf(ps: seq<Option<int>>): (r: nat)
    ensures forall i :: 0 <= i < |ps| && ps[i].Some? ==> ps[i].value <= r
    ensures r == 0 || exists i :: 0 <= i < |ps| && ps[i] == Some(r)
  {
    if |ps| == 0 then 0
    else
      var m := MaxOf(ps[..|ps| - 1]);
      assert forall i :: 0 <= i < |ps| - 1 ==> ps[..|ps| - 1][i] == ps[i];
      match ps[|ps| - 1]
      case Some(p) => if p > m then p else m
      case None => m
  }

  function Positions(g: seq<Stmt>): (r: seq<Option<int>>)
    ensures |r| == |g| && forall i :: 0 <= i < |g| ==> r[i] == Position(g[i])
  {
    seq(|g|, i requires 0 <= i < |g| => Position(g[i]))
  }

  /**
   * `getMaxPos`: the largest position over the eligible members, or 0. With no
   * eligible member the value is never used, because such a group is always aligned.
   */
  function MaxPos(g: seq<Stmt>): (r: nat)
    ensures forall i :: 0 <= i < |g| && Position(g[i]).Some? ==> Position(g[i]).value <= r
    ensures r == 0 || exists i :: 0 <= i < |g| && Position(g[i]) == Some(r)
  {
    MaxOf(Positions(g))
  }

  /** `line.charAt(k) === '='`. */
  predicate EqAt(t: string, k: int) {
    0 <= k < |t| && t[k] == '='
  }

  /**
   * `areAligned`: every eligible member has `=` at index `maxPos` of its text.
   * A group with no eligible member is aligned on every column; one with an
   * eligible member is aligned only on a column inside that member's text.
   */
  predicate AreAligned(maxPos: int, g: seq<Stmt>)
    ensures (forall i :: 0 <= i < |g| ==> !AssignmentOnFirstLine(g[i])) ==> AreAligned(maxPos, g)
    ensures AreAligned(maxPos, g) ==> forall i :: 0 <= i < |g| && AssignmentOnFirstLine(g[i]) ==> 0 <= maxPos < |g[i].text|
  {
    forall i :: 0 <= i < |g| && AssignmentOnFirstLine(g[i]) ==> EqAt(g[i].text, maxPos)
  }

  predicate Reported(g: seq<Stmt>) {
    !AreAligned(MaxPos(g), g)
  }

  /** A group with no eligible member is never reported. */
  lemma NoEligibleNeverReported(g: seq<Stmt>)
    requires forall i :: 0 <= i < |g| ==> !AssignmentOnFirstLine(g[i])
    ensures !Reported(g)
  {
  }

  /** `tokens.find(...)`: the first token whose value is one of the assignment operators. */
  function FindOperator(tokens: seq<Token>): (r: Option<Token>)
    ensures r.Some? ==> |tokens| > 0 && r.value.value in AssignOps
  {
    if |tokens| == 0 then None
    else if tokens[0].value in AssignOps then Some(tokens[0])
    else FindOperator(tokens[1..])
  }

  /** The token found is an operator with no operator before it; none is found only when there is no operator. */
  lemma {:induction false} FindOperatorIsFirst(tokens: seq<Token>)
    ensures FindOperator(tokens).Some? ==>
      exists k :: && 0 <= k < |tokens| && tokens[k] == FindOperator(tokens).value
                  && forall j :: 0 <= j < k ==> tokens[j].value !in AssignOps
    ensures FindOperator(tokens).None? ==> forall j :: 0 <= j < |tokens| ==> tokens[j].value !in AssignOps
  {
    if |tokens| > 0 && tokens[0].value !in AssignOps {
      FindOperatorIsFirst(tokens[1..]);
      assert forall j :: 1 <= j < |tokens| ==> tokens[1..][j - 1] == tokens[j];
      if FindOperator(tokens).Some? {
        var k :| 0 <= k < |tokens| - 1 && tokens[1..][k] == FindOperator(tokens).value
                 && forall j :: 0 <= j < k ==> tokens[1..][j].value !in AssignOps;
        assert tokens[k + 1] == FindOperator(tokens).value;
      }
    } else if |tokens| > 0 {
      assert tokens[0] == FindOperator(tokens).value;
    }
  }

  /** `isMultiline`: the operator token starts on another line than the first token. */
  predicate IsMultiline(first: Token, op: Token) {
    first.line != op.line
  }

  /**
   * Whether the fix rebuilds the member: it has no `=` at `maxPos`, it has an
   * operator token, and that token is on the line of its first token.
   */
  predicate Rewrites(s: Stmt, maxPos: int) {
    && !EqAt(s.text, maxPos)
    && FindOperator(s.tokens).Some?
    && !IsMultiline(s.tokens[0], FindOperator(s.tokens).value)
  }

  /** `line.slice(0, startDelimiter)`: the text before the operator token. */
  function LeftPart(s: Stmt, op: Token): string
    requires |s.tokens| > 0
  {
    s.text[..JsIndex(|s.text|, op.startCol - s.tokens[0].startCol)]
  }

  /** `line.slice(endDelimiter)`: the text after the operator token. */
  function RightPart(s: Stmt, op: Token): string
    requires |s.tokens| > 0
  {
    s.text[JsIndex(|s.text|, op.endCol - s.tokens[0].startCol)..]
  }

  /** `spacesRequired`: the count of spaces before the operator. */
  function Padding(s: Stmt, op: Token, maxPos: int): int
    requires |s.tokens| > 0
  {
    maxPos - |TrimEndAsWritten(LeftPart(s, op))| - |op.value| + 1
  }

  /** Where the fix as written throws: it rebuilds the member with a negative padding. */
  predicate PaddingNegative(s: Stmt, maxPos: int) {
    Rewrites(s, maxPos) && Padding(s, FindOperator(s.tokens).value, maxPos) < 0
  }

  /**
   * Whether the corrected fix rebuilds the member: the fix as written would
   * rebuild it, the member takes part in the check, and the padding it needs
   * is not negative. A member that does not take part is left as it is.
   */
  predicate Refits(s: Stmt, maxPos: int) {
    && AssignmentOnFirstLine(s)
    && Rewrites(s, maxPos)
    && Padding(s, FindOperator(s.tokens).value, maxPos) >= 0
  }

  /**
   * The replacement text of one member. A member the fix rebuilds ends up with
   * its operator's final `=` at index `maxPos`, preceded by the text before the
   * operator and followed by one space and the text after it; every other
   * member keeps its text, including one that does not take part in the check
   * and one whose padding would be negative.
   */
  function FixMember(s: Stmt, maxPos: int): (r: string)
    ensures !Refits(s, maxPos) ==> r == s.text
    ensures Refits(s, maxPos) ==> EqAt(r, maxPos)
  {
    if !Refits(s, maxPos) then s.text
    else
      var op := FindOperator(s.tokens).value;
      var start := TrimEndAsWritten(LeftPart(s, op));
      var ending := TrimStart(RightPart(s, op));
      OperatorShape(op.value);
      AssembledOperatorEnd(start, Padding(s, op, maxPos), op.value, ending);
      Assemble(start, Padding(s, op, maxPos), op.value, ending)
  }

  /** The text a refitted member gets: its two trimmed parts around the operator, which ends at `maxPos`. */
  lemma RefitShape(s: Stmt, maxPos: int, left: string, op: string, right: string)
    requires Refits(s, maxPos)
    requires op == FindOperator(s.tokens).value.value
    requires left == TrimEndAsWritten(LeftPart(s, FindOperator(s.tokens).value))
    requires right == TrimStart(RightPart(s, FindOperator(s.tokens).value))
    ensures SpacedAround(FixMember(s, maxPos), left, maxPos + 1 - |op|, op, right)
    ensures |FixMember(s, maxPos)| == maxPos + 2 + |right| && FixMember(s, maxPos)[maxPos + 1] == ' '
    ensures forall k :: |left| <= k < maxPos + 1 - |op| ==> FixMember(s, maxPos)[k] == ' '
  {
    RebuiltShape(FixMember(s, maxPos), left, Padding(s, FindOperator(s.tokens).value, maxPos), op, right, maxPos);
  }

  /** `start + ' '.repeat(pad) + operator + ' ' + ending`. */
  function Assemble(start: string, pad: nat, op: string, ending: string): string {
    start + Spaces(pad) + op + " " + ending
  }

  lemma AssembledOperatorEnd(start: string, pad: nat, op: string, ending: string)
    requires |op| > 0
    ensures |start| + pad + |op| < |Assemble(start, pad, op, ending)|
    ensures Assemble(start, pad, op, ending)[|start| + pad + |op| - 1] == op[|op| - 1]
  {
  }

  /**
   * The fix of one member as written: `None` when `' '.repeat` is asked for a
   * negative count and throws, and the text after the operator trimmed with
   * the multiline `/^\s+/m`.
   */
  function FixMemberAsWritten(s: Stmt, maxPos: int): (r: Option<string>)
    ensures r.None? <==> PaddingNegative(s, maxPos)
    ensures !Rewrites(s, maxPos) ==> r == Some(s.text)
  {
    if !Rewrites(s, maxPos) then Some(s.text)
    else
      var op := FindOperator(s.tokens).value;
      var pad := Padding(s, op, maxPos);
      if pad < 0 then None
      else Some(Assemble(TrimEndAsWritten(LeftPart(s, op)), pad, op.value, TrimStartAsWritten(RightPart(s, op))))
  }

  /**
   * Where the fix as written rebuilds the member, the member takes part in the
   * check, and the multiline leading trim of the text after the operator
   * removes exactly its leading white space.
   */
  predicate FixesAgree(s: Stmt, maxPos: int) {
    Rewrites(s, maxPos) ==>
      && AssignmentOnFirstLine(s)
      && var rest := RightPart(s, FindOperator(s.tokens).value);
         TrimStartAsWritten(rest) == TrimStart(rest)
  }

  /**
   * Where the fix as written does not throw, rebuilds only members that take
   * part in the check, and its trim agrees with the plain leading trim, the
   * corrected fix builds the same text.
   */
  lemma FixMemberAgrees(s: Stmt, maxPos: int)
    requires FixMemberAsWritten(s, maxPos).Some? && FixesAgree(s, maxPos)
    ensures FixMemberAsWritten(s, maxPos) == Some(FixMember(s, maxPos))
  {
  }

  /**
   * The members with their texts replaced: what a re-check sees after the fix
   * is applied. The other fields stay. Kind and prefix are then what a fresh
   * parse gives for the fixes of this model: a member the corrected fix leaves
   * alone keeps its text, and one it rebuilds takes part in the check and
   * keeps its right side on its first line (`RefitMember`), so the lines its
   * kind records still hold. The tokens keep their old columns; whether a
   * group is reported does not read them.
   */
  function WithTexts(g: seq<Stmt>, texts: seq<string>): (r: seq<Stmt>)
    requires |texts| == |g|
    ensures |r| == |g| && forall i :: 0 <= i < |g| ==> r[i] == g[i].(text := texts[i])
  {
    seq(|g|, i requires 0 <= i < |g| => g[i].(text := texts[i]))
  }

  /**
   * `check`: no report when the group is aligned; otherwise the replacement text
   * of every member, in order, each member either kept or rebuilt with `=` at `maxPos`.
   */
  function Check(g: seq<Stmt>): (r: Option<seq<string>>)
    ensures r.None? <==> AreAligned(MaxPos(g), g)
    ensures r.Some? ==> |r.value| == |g| && forall i :: 0 <= i < |g| ==> r.value[i] == FixMember(g[i], MaxPos(g))
    ensures r.Some? ==> forall i :: 0 <= i < |g| && Refits(g[i], MaxPos(g)) ==> EqAt(r.value[i], MaxPos(g))
    ensures r.Some? ==> forall i :: 0 <= i < |g| && !Refits(g[i], MaxPos(g)) ==> r.value[i] == g[i].text
  {
    var m := MaxPos(g);
    if AreAligned(m, g) then None else Some(Fixes(g, m))
  }

  /** The corrected fix of every member, in order. */
  function Fixes(g: seq<Stmt>, maxPos: int): (r: seq<string>)
    ensures |r| == |g| && forall i :: 0 <= i < |g| ==> r[i] == FixMember(g[i], maxPos)
  {
    seq(|g|, i requires 0 <= i < |g| => FixMember(g[i], maxPos))
  }

  /** What `check` as written does with a group: no report, a report whose fix throws, or a report with its fix. */
  datatype Outcome = NoReport | Throws | Fixed(texts: seq<string>)

  /** `check` as written, with the fix of every member built eagerly as the report does. */
  function CheckAsWritten(g: seq<Stmt>): (r: Outcome)
    ensures r.NoReport? <==> AreAligned(MaxPos(g), g)
    ensures r.Fixed? ==> |r.texts| == |g| && forall i :: 0 <= i < |g| ==> FixMemberAsWritten(g[i], MaxPos(g)) == Some(r.texts[i])
  {
    if AreAligned(MaxPos(g), g) then NoReport
    else Collect(MemberFixes(g, MaxPos(g)))
  }

  /** The fix as written of every member, in order. */
  function MemberFixes(g: seq<Stmt>, maxPos: int): (r: seq<Option<string>>)
    ensures |r| == |g| && forall i :: 0 <= i < |g| ==> r[i] == FixMemberAsWritten(g[i], maxPos)
  {
    seq(|g|, i requires 0 <= i < |g| => FixMemberAsWritten(g[i], maxPos))
  }

  /** `check` as written throws exactly when the group is reported and some member's padding is negative. */
  lemma CheckAsWrittenThrows(g: seq<Stmt>)
    ensures CheckAsWritten(g).Throws? <==>
      !AreAligned(MaxPos(g), g) && exists i :: 0 <= i < |g| && PaddingNegative(g[i], MaxPos(g))
  {
    var fixes := MemberFixes(g, MaxPos(g));
    assert forall i :: 0 <= i < |g| ==> (fixes[i].None? <==> PaddingNegative(g[i], MaxPos(g)));
  }

  /**
   * The member fixes built in order: the first that throws ends the run;
   * otherwise the texts of all of them.
   */
  function Collect(fixes: seq<Option<string>>): (r: Outcome)
    ensures !r.NoReport?
    ensures r.Throws? <==> exists i :: 0 <= i < |fixes| && fixes[i].None?
    ensures r.Fixed? ==> |r.texts| == |fixes| && forall i :: 0 <= i < |fixes| ==> fixes[i] == Some(r.texts[i])
  {
    if |fixes| == 0 then Fixed([])
    else
      match fixes[0]
      case None => Throws
      case Some(t) =>
        var rest := Collect(fixes[1..]);
        assert forall i :: 1 <= i < |fixes| ==> fixes[1..][i - 1] == fixes[i];
        if rest.Throws? then Throws else Fixed([t] + rest.texts)
  }

  /**
   * Where `check` as written does not throw, rebuilds only members that take
   * part in the check, and every trim agrees, it yields the corrected fix.
   */
  lemma CheckAgrees(g: seq<Stmt>)
    requires CheckAsWritten(g).Fixed?
    requires forall i :: 0 <= i < |g| ==> FixesAgree(g[i], MaxPos(g))
    ensures Check(g) == Some(CheckAsWritten(g).texts)
  {
    var texts, m := CheckAsWritten(g).texts, MaxPos(g);
    var fixed := Fixes(g, m);
    forall i | 0 <= i < |g|
      ensures texts[i] == fixed[i]
    {
      MemberAgrees(g[i], m, texts[i]);
    }
    assert texts == fixed;
  }

  lemma MemberAgrees(s: Stmt, m: int, t: string)
    requires FixMemberAsWritten(s, m) == Some(t) && FixesAgree(s, m) == true
    ensures t == FixMember(s, m)
  {
    FixMemberAgrees(s, m);
  }

  /** The member has tokens and one of them is an assignment operator. */
  predicate HasOperator(s: Stmt) {
    FindOperator(s.tokens).Some?
  }

  /** The operator token the fix moves. */
  function OperatorToken(s: Stmt): Token
    requires HasOperator(s)
  {
    FindOperator(s.tokens).value
  }

  /** The operator token's start column, counted from the member's first token. */
  function OperatorOffset(s: Stmt): int
    requires HasOperator(s)
  {
    OperatorToken(s).startCol - s.tokens[0].startCol
  }

  /** The text before the operator without its trailing white space. */
  function Before(s: Stmt): string
    requires HasOperator(s)
  {
    TrimEnd(LeftPart(s, OperatorToken(s)))
  }

  /** The text after the operator without its leading white space. */
  function After(s: Stmt): string
    requires HasOperator(s)
  {
    TrimStart(RightPart(s, OperatorToken(s)))
  }

  /**
   * The operator token lies on the member's first line, so its columns, taken
   * from the first token's column, are offsets into the text where its value stands.
   */
  predicate OperatorInText(s: Stmt) {
    && HasOperator(s)
    && var op, d := OperatorToken(s), OperatorOffset(s);
       && op.line == s.tokens[0].line
       && 0 <= d && d + |op.value| <= |s.text|
       && op.endCol == op.startCol + |op.value|
       && s.text[d..d + |op.value|] == op.value
       && NoLineBreak(s.text[..d])
  }

  /** On a member whose operator stands on its first line, the fix's trim of the text before it is `Before`. */
  lemma FixMemberParts(s: Stmt)
    requires OperatorInText(s)
    ensures TrimEndAsWritten(LeftPart(s, OperatorToken(s))) == Before(s)
  {
    var d := OperatorOffset(s);
    assert LeftPart(s, OperatorToken(s)) == s.text[..d];
    TrimEndAsWrittenOnOneLine(s.text[..d]);
  }

  /** The member's text reads `Before`, white space, the operator token, white space, `After`. */
  lemma OperatorSurroundings(s: Stmt)
    requires OperatorInText(s)
    ensures SpacedAround(s.text, Before(s), OperatorOffset(s), OperatorToken(s).value, After(s))
  {
    var op, d := OperatorToken(s).value, OperatorOffset(s);
    assert LeftPart(s, OperatorToken(s)) == s.text[..d];
    assert RightPart(s, OperatorToken(s)) == s.text[d + |op|..];
    OriginalShape(s.text, d, op, Before(s), After(s));
  }

  /**
   * The fix changes nothing but the white space around the operator: like the
   * member's text (`OperatorSurroundings`), the rebuilt text reads `Before`,
   * white space, the operator, white space, `After`; the operator's last
   * character is at `maxPos` and exactly one space follows it.
   */
  lemma FixTouchesOnlyOperatorSpacing(s: Stmt, maxPos: int)
    requires Refits(s, maxPos) == true && OperatorInText(s) == true
    ensures SpacedAround(FixMember(s, maxPos), Before(s), maxPos + 1 - |OperatorToken(s).value|, OperatorToken(s).value, After(s))
    ensures |FixMember(s, maxPos)| == maxPos + 2 + |After(s)| && FixMember(s, maxPos)[maxPos + 1] == ' '
    ensures forall k :: |Before(s)| <= k < maxPos + 1 - |OperatorToken(s).value| ==> FixMember(s, maxPos)[k] == ' '
  {
    var tok := FindOperator(s.tokens).value;
    assert (&& OperatorToken(s).value == tok.value
            && Before(s) == TrimEndAsWritten(LeftPart(s, tok))
            && After(s) == TrimStart(RightPart(s, tok))) == true by {
      FixMemberParts(s);
    }
    RefitShape(s, maxPos, Before(s), OperatorToken(s).value, After(s));
  }

  /**
   * `t` reads `left`, then white space, then `op` at offset `d`, then white
   * space, then `right`.
   */
  predicate SpacedAround(t: string, left: string, d: int, op: string, right: string) {
    && left <= t && |left| <= d && d + |op| <= |t| - |right|
    && AllSpace(t[|left|..d]) && t[d..d + |op|] == op
    && AllSpace(t[d + |op|..|t| - |right|]) && t[|t| - |right|..] == right
  }

  lemma OriginalShape(t: string, d: nat, op: string, left: string, right: string)
    requires d + |op| <= |t| && t[d..d + |op|] == op
    requires left == TrimEnd(t[..d]) && right == TrimStart(t[d + |op|..])
    ensures SpacedAround(t, left, d, op, right)
  {
    assert t[|left|..d] == t[..d][|left|..];
    assert t[|t| - |right|..] == t[d + |op|..][|t| - d - |op| - |right|..];
  }

  lemma RebuiltShape(r: string, left: string, pad: nat, op: string, right: string, maxPos: int)
    requires |left| + pad + |op| - 1 == maxPos
    requires r == Assemble(left, pad, op, right)
    ensures SpacedAround(r, left, maxPos + 1 - |op|, op, right)
    ensures |r| == maxPos + 2 + |right| && r[maxPos + 1] == ' '
    ensures forall k :: |left| <= k < maxPos + 1 - |op| ==> r[k] == ' '
  {
    assert r[|left|..maxPos + 1 - |op|] == Spaces(pad);
    assert r[maxPos + 1 - |op|..maxPos + 1] == op;
    assert r[maxPos + 2..] == right;
  }

  /**
   * The scan of the member's text finds its operator token: the leftmost match
   * starts where the white space before the token starts.
   */
  predicate ScanFindsOperator(s: Stmt) {
    && OperatorInText(s)
    && 0 <= s.prefix <= |Before(s)|
    && Scan(s.text[s.prefix..]) == Some(Match(|Before(s)| - s.prefix, OperatorToken(s).value))
  }

  /**
   * Refitting a member whose scan finds its operator token, with at least one
   * space of padding, keeps its position: the scan of the rebuilt text finds
   * the same operator after the same text.
   */
  lemma FixKeepsPosition(s: Stmt, maxPos: int)
    requires ScanFindsOperator(s) && Refits(s, maxPos)
    requires |Before(s)| + |OperatorToken(s).value| <= maxPos
    ensures FindAssignment(s.(text := FixMember(s, maxPos))) == FindAssignment(s)
  {
    var r := FixMember(s, maxPos);
    RefitKeepsScan(s, maxPos, r);
    PositionFromScan(s, s.(text := r));
  }

  /** The scan of the refitted text from the prefix finds what the scan of the original text finds. */
  lemma RefitKeepsScan(s: Stmt, maxPos: int, r: string)
    requires ScanFindsOperator(s) && Refits(s, maxPos)
    requires |Before(s)| + |OperatorToken(s).value| <= maxPos
    requires r == FixMember(s, maxPos)
    ensures 0 <= s.prefix <= |r| && Scan(r[s.prefix..]) == Scan(s.text[s.prefix..])
  {
    RefitKeepsBefore(s, maxPos, r);
    RespacedScanOf(s, r, maxPos + 1 - |OperatorToken(s).value|);
  }

  /**
   * A text that starts with `Before(s)`, then at least one space up to the
   * operator token at `e`, scans from the prefix like the member's own text.
   */
  lemma RespacedScanOf(s: Stmt, r: string, e: int)
    requires ScanFindsOperator(s) == true
    requires |Before(s)| < e && Before(s) <= r
    requires e + |OperatorToken(s).value| <= |r| && r[e..e + |OperatorToken(s).value|] == OperatorToken(s).value
    requires forall k :: |Before(s)| <= k < e ==> r[k] == ' '
    ensures 0 <= s.prefix <= |r| && Scan(r[s.prefix..]) == Scan(s.text[s.prefix..])
  {
    BeforeEndsWord(s);
    BeforeOnOneLine(s);
    RespacedScan(s.text, r, Before(s), e, OperatorToken(s).value, s.prefix);
  }

  /**
   * Where the leftmost match is the white space after the trimmed text before
   * the operator token, followed by that token, `findAssigment` is the length
   * of that text plus the operator's width: the index of the operator's final
   * `=` when one space precedes the operator, and the end of the token only
   * when nothing does.
   */
  lemma ScanFindsOperatorPosition(s: Stmt)
    requires HasOperator(s) && 0 <= s.prefix <= |Before(s)| <= |s.text|
    requires Scan(s.text[s.prefix..]) == Some(Match(|Before(s)| - s.prefix, OperatorToken(s).value))
    ensures FindAssignment(s) == Some(|Before(s)| + |OperatorToken(s).value|)
  {
    PositionAfter(s, |Before(s)|, OperatorToken(s).value);
  }

  /** Two members with the same prefix whose texts scan alike from it have the same `findAssigment`. */
  lemma PositionFromScan(s: Stmt, s': Stmt)
    requires s'.prefix == s.prefix && 0 <= s.prefix <= |s.text| && s.prefix <= |s'.text|
    requires Scan(s'.text[s.prefix..]) == Scan(s.text[s.prefix..])
    ensures FindAssignment(s') == FindAssignment(s)
  {
    var m := Scan(ScannedText(s));
    assert Scan(ScannedText(s')) == m by {
      ScannedFrom(s, s.prefix);
      ScannedFrom(s', s.prefix);
    }
    if m.Some? {
      assert FindAssignment(s') == Some(s.prefix + m.value.index + |m.value.op|);
    }
  }

  /** The text before the operator, trimmed, is empty or ends in a character that is not white space. */
  lemma BeforeEndsWord(s: Stmt)
    requires HasOperator(s)
    ensures Before(s) == [] || !IsSpace(Before(s)[|Before(s)| - 1])
  {
  }

  lemma BeforeFits(s: Stmt)
    requires HasOperator(s)
    ensures |Before(s)| <= |s.text|
  {
  }

  /** A match in the text from the prefix on places `findAssigment` after it. */
  lemma FindAssignmentOfMatch(s: Stmt, m: Match)
    requires (0 <= s.prefix <= |s.text| && Scan(s.text[s.prefix..]) == Some(m)) == true
    ensures FindAssignment(s) == Some(s.prefix + m.index + |m.op|)
  {
    ScannedFrom(s, s.prefix);
  }

  /** A match of `op` whose white space starts at index `b` places `findAssigment` at `b + |op|`. */
  lemma PositionAfter(s: Stmt, b: int, op: string)
    requires (0 <= s.prefix <= b <= |s.text| && Scan(s.text[s.prefix..]) == Some(Match(b - s.prefix, op))) == true
    ensures FindAssignment(s) == Some(b + |op|)
  {
    FindAssignmentOfMatch(s, Match(b - s.prefix, op));
  }

  /** With the prefix inside the text, the scanned text is the text from the prefix on. */
  lemma ScannedFrom(s: Stmt, p: int)
    requires p == s.prefix && 0 <= p <= |s.text|
    ensures ScannedText(s) == s.text[p..]
  {
  }

  /**
   * After refitting, the text still starts with the trimmed text before the
   * operator, followed by spaces up to the operator.
   */
  lemma RefitKeepsBefore(s: Stmt, maxPos: int, r: string)
    requires Refits(s, maxPos) == true && OperatorInText(s) == true && r == FixMember(s, maxPos)
    ensures var op := OperatorToken(s).value;
            && Before(s) <= r
            && maxPos + 1 <= |r| && r[maxPos + 1 - |op|..maxPos + 1] == op
            && forall k :: |Before(s)| <= k < maxPos + 1 - |op| ==> r[k] == ' '
  {
    BeforeOnOneLine(s);
    FixTouchesOnlyOperatorSpacing(s, maxPos);
  }

  /**
   * `t` and `r` both start with `left`, and `r` continues with at least one
   * space and then `op` at `e`. If the leftmost match in `t` from `p` is `op`
   * right after `left`, so is the leftmost match in `r`.
   */
  lemma RespacedScan(t: string, r: string, left: string, e: int, op: string, p: nat)
    requires op in AssignOps && p <= |left| < e
    requires left == [] || !IsSpace(left[|left| - 1])
    requires left <= t && left <= r
    requires e + |op| <= |r| && r[e..e + |op|] == op && forall k :: |left| <= k < e ==> r[k] == ' '
    requires Scan(t[p..]) == Some(Match(|left| - p, op))
    ensures Scan(r[p..]) == Some(Match(|left| - p, op))
  {
    SpacedMatch(r, p, |left|, e, op);
    NoEarlierMatchAfterRespacing(t, r, left, p, op);
    ScanIsLeftmost(r[p..], |left| - p, op);
  }

  /** No match in `r` starts before `left` ends, when none does in `t` and `r` has a space after `left`. */
  lemma NoEarlierMatchAfterRespacing(t: string, r: string, left: string, p: nat, op: string)
    requires p <= |left| < |r| && r[|left|] == ' '
    requires left == [] || !IsSpace(left[|left| - 1])
    requires left <= t && left <= r
    requires Scan(t[p..]) == Some(Match(|left| - p, op))
    ensures forall i, op' :: 0 <= i < |left| - p ==> !MatchesAt(r[p..], i, op')
  {
    ScanSpec(t[p..]);
    if p < |left| {
      EarlierMatchesCarry(t, r, left, p);
    }
  }

  /** Only spaces from `b` up to `op` at `e`: the pattern matches at `b`, seen from `p`. */
  lemma SpacedMatch(r: string, p: nat, b: nat, e: nat, op: string)
    requires op in AssignOps && p <= b < e
    requires e + |op| <= |r| && r[e..e + |op|] == op && forall k :: b <= k < e ==> r[k] == ' '
    ensures MatchesAt(r[p..], b - p, op)
  {
    OperatorShape(op);
    var w := r[p..];
    assert w[e - p..][..|op|] == op by {
      assert r[e..e + |op|] == op;
    }
    assert !IsSpace(w[e - p]) by {
      assert w[e - p] == op[0];
      assert !IsSpace(op[0]);
    }
    assert forall k :: b - p <= k < e - p ==> w[k] == ' ' by {
      assert forall k :: b - p <= k < e - p ==> w[k] == r[k + p];
    }
    WsEndIs(w, b - p, e - p);
    assert StartsWith(w[e - p..], op);
  }

  /**
   * `t` and `r` share the prefix `left`, which ends in a character that is not
   * white space, and `r` has a space after it: any match in `r` that starts
   * inside `left` is a match in `t`.
   */
  lemma EarlierMatchesCarry(t: string, r: string, left: string, p: nat)
    requires p < |left| < |r| && r[|left|] == ' '
    requires !IsSpace(left[|left| - 1])
    requires left <= t && left <= r
    ensures forall i, op :: 0 <= i < |left| - p && MatchesAt(r[p..], i, op) ==> MatchesAt(t[p..], i, op)
  {
    var u, w, j := t[p..], r[p..], |left| - p;
    assert u[..j] == w[..j] by {
      assert t[..|left|] == r[..|left|];
    }
    assert !IsSpace(w[j - 1]) && IsSpace(w[j]) by {
      assert left[|left| - 1] == w[j - 1];
      assert w[j] == r[|left|];
    }
    NoEarlierMatch(u, w, j);
  }

  /** A member the fix refits has `=` on the first line of its text, before and after the fix. */
  lemma RefitFirstLine(s: Stmt, maxPos: int)
    requires Refits(s, maxPos) && OperatorInText(s)
    ensures '=' in FirstLine(s.text) && '=' in FirstLine(FixMember(s, maxPos))
  {
    var op := OperatorToken(s).value;
    var e := maxPos + 1 - |op|;
    EqOnFirstLineAt(s.text, OperatorOffset(s), op);
    RefitLineBeforeOperator(s, maxPos, op, e, FixMember(s, maxPos));
    EqOnFirstLineAt(FixMember(s, maxPos), e, op);
  }

  /** After refitting, the operator stands at `e` with no line break before it. */
  lemma RefitLineBeforeOperator(s: Stmt, maxPos: int, op: string, e: int, r: string)
    requires Refits(s, maxPos) && OperatorInText(s)
    requires op == OperatorToken(s).value && e == maxPos + 1 - |op| && r == FixMember(s, maxPos)
    ensures 0 <= e && e + |op| <= |r| && r[e..e + |op|] == op && NoLineBreak(r[..e])
  {
    BeforeOnOneLine(s);
    FixTouchesOnlyOperatorSpacing(s, maxPos);
    SpacesNoBreak(r, Before(s), e);
  }

  /** The text before the operator starts the member's text and lies on its first line. */
  lemma BeforeOnOneLine(s: Stmt)
    requires OperatorInText(s) == true
    ensures Before(s) <= s.text && NoLineBreak(Before(s))
  {
    var d := OperatorOffset(s);
    assert LeftPart(s, OperatorToken(s)) == s.text[..d];
  }

  /** A prefix on one line followed by spaces up to `e` is on one line. */
  lemma SpacesNoBreak(r: string, left: string, e: int)
    requires left <= r && |left| <= e <= |r| && NoLineBreak(left)
    requires forall k :: |left| <= k < e ==> r[k] == ' '
    ensures NoLineBreak(r[..e])
  {
    assert forall k :: 0 <= k < |left| ==> r[k] == left[k];
  }

  /** An operator with no line break before it puts `=` on the first line. */
  lemma EqOnFirstLineAt(t: string, d: int, op: string)
    requires op in AssignOps && 0 <= d && d + |op| <= |t| && t[d..d + |op|] == op && NoLineBreak(t[..d])
    ensures '=' in FirstLine(t)
  {
    OperatorShape(op);
    var n := d + |op| - 1;
    assert t[n] == '=' by {
      assert t[d..d + |op|][|op| - 1] == op[|op| - 1];
    }
    assert forall k :: 0 <= k < n ==> t[k] != '\n' by {
      assert forall k :: 0 <= k < d ==> t[k] == t[..d][k];
      assert forall k :: d <= k < n ==> t[k] == op[k - d] by {
        assert forall k :: d <= k < n ==> t[k] == t[d..d + |op|][k - d];
      }
    }
    EqOnFirstLine(t, n);
  }

  /**
   * One member of a reported group after the fix: a member that does not take
   * part in the check keeps its text; one that does keeps its position and has
   * `=` at `maxPos`; and when it is rebuilt, no line break precedes the text
   * after its operator, so its right side is still on its first line.
   */
  lemma RefitMember(s: Stmt, maxPos: int)
    requires AssignmentOnFirstLine(s) ==> ScanFindsOperator(s) && (Position(s).Some? ==> Position(s).value <= maxPos)
    ensures var s' := s.(text := FixMember(s, maxPos));
            && (!AssignmentOnFirstLine(s) ==> s' == s)
            && AssignmentOnFirstLine(s') == AssignmentOnFirstLine(s)
            && Position(s') == Position(s)
            && (AssignmentOnFirstLine(s) ==> EqAt(s'.text, maxPos))
            && (Refits(s, maxPos) ==> |After(s)| <= |s'.text| && NoLineBreak(s'.text[..|s'.text| - |After(s)|]))
  {
    if AssignmentOnFirstLine(s) {
      FixMemberParts(s);
      BeforeFits(s);
      ScanFindsOperatorPosition(s);
    }
    if Refits(s, maxPos) {
      if !s.kind.Assignment? {
        RefitFirstLine(s, maxPos);
      }
      FixKeepsPosition(s, maxPos);
      RefitKeepsRightOnFirstLine(s, maxPos);
    }
  }

  /** A rebuilt member has no line break before the text after its operator. */
  lemma RefitKeepsRightOnFirstLine(s: Stmt, maxPos: int)
    requires Refits(s, maxPos) && OperatorInText(s)
    ensures var r := FixMember(s, maxPos);
            |After(s)| <= |r| && NoLineBreak(r[..|r| - |After(s)|])
  {
    var r, op := FixMember(s, maxPos), OperatorToken(s).value;
    var e := maxPos + 1 - |op|;
    RefitLineBeforeOperator(s, maxPos, op, e, r);
    FixTouchesOnlyOperatorSpacing(s, maxPos);
    OperatorShape(op);
    forall k | 0 <= k < |r| - |After(s)|
      ensures !IsLineTerminator(r[k])
    {
      if k < e {
        assert r[k] == r[..e][k];
      } else if k < e + |op| {
        assert r[k] == r[e..e + |op|][k - e];
      }
    }
  }

  /**
   * The fix is idempotent: after the replacement texts of a reported group are
   * applied, the column is the same and the group is aligned, so a second run
   * reports nothing. It holds when the scan of every member that takes part
   * finds its operator token.
   */
  lemma FixIsIdempotent(g: seq<Stmt>)
    requires forall i :: 0 <= i < |g| && AssignmentOnFirstLine(g[i]) ==> ScanFindsOperator(g[i])
    requires Check(g).Some?
    ensures MaxPos(WithTexts(g, Check(g).value)) == MaxPos(g)
    ensures !Reported(WithTexts(g, Check(g).value))
  {
    var m, texts := MaxPos(g), Check(g).value;
    var g' := WithTexts(g, texts);
    forall i | 0 <= i < |g|
      ensures AssignmentOnFirstLine(g'[i]) == AssignmentOnFirstLine(g[i])
      ensures Position(g'[i]) == Position(g[i])
      ensures AssignmentOnFirstLine(g[i]) ==> EqAt(g'[i].text, m)
    {
      assert g'[i] == g[i].(text := FixMember(g[i], m));
      RefitMember(g[i], m);
    }
    assert Positions(g') == Positions(g);
  }

  /**
   * A member that takes part in the check, and whose scan finds its operator
   * token, needs at least one space of padding: its position is at most the
   * group's column.
   */
  lemma EligiblePaddingPositive(g: seq<Stmt>, i: nat)
    requires i < |g| && AssignmentOnFirstLine(g[i]) && ScanFindsOperator(g[i])
    ensures Padding(g[i], OperatorToken(g[i]), MaxPos(g)) >= 1
  {
    FixMemberParts(g[i]);
    BeforeFits(g[i]);
    ScanFindsOperatorPosition(g[i]);
  }
}
