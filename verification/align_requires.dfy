/**
 * The `align-requires` rule: in each group of `require` declarations, the
 * column of each line's first `=`, whether the group is aligned, and the
 * replacement that pads every line so that its `=` lands on the largest column.
 */
module AlignRequires {
  import opened Wrappers
  import opened Text
  import opened Statements

  /** `findAssigment`: `line.search('=')`, the index of the first `=`, or -1 when there is none. */
  function FindAssignment(line: string): (r: int)
    ensures r == -1 <==> '=' !in line
    ensures r >= 0 ==> r < |line| && line[r] == '=' && '=' !in line[..r]
  {
    IndexOf(line, '=')
  }

  /** `getMaxPos`: `reduce` with no initial value, so the largest position of a non-empty group. */
  function MaxPos(lines: seq<string>): (r: int)
    requires |lines| > 0
    ensures forall i :: 0 <= i < |lines| ==> FindAssignment(lines[i]) <= r
    ensures exists i :: 0 <= i < |lines| && FindAssignment(lines[i]) == r
  {
    if |lines| == 1 then FindAssignment(lines[0])
    else
      var init := lines[..|lines| - 1];
      var last := FindAssignment(lines[|lines| - 1]);
      var m := MaxPos(init);
      assert forall i :: 0 <= i < |init| ==> init[i] == lines[i];
      if last > m then last else m
  }

  /**
   * `areAligned`: every line has its first `=` at `maxPos`. Then `maxPos` is the
   * group's own column; on a non-negative column every line has `=` there, and
   * on -1 no line has an `=`.
   */
  predicate AreAligned(maxPos: int, lines: seq<string>)
    ensures AreAligned(maxPos, lines) && |lines| > 0 ==> MaxPos(lines) == maxPos
    ensures AreAligned(maxPos, lines) && maxPos >= 0 ==> forall i :: 0 <= i < |lines| ==> maxPos < |lines[i]| && lines[i][maxPos] == '='
    ensures AreAligned(maxPos, lines) && maxPos < 0 ==> forall i :: 0 <= i < |lines| ==> '=' !in lines[i]
  {
    forall i :: 0 <= i < |lines| ==> FindAssignment(lines[i]) == maxPos
  }

  predicate Reported(lines: seq<string>)
    requires |lines| > 0
  {
    !AreAligned(MaxPos(lines), lines)
  }

  /** A group is reported exactly when two of its lines have their first `=` in different columns. */
  lemma ReportedIffColumnsDiffer(lines: seq<string>)
    requires |lines| > 0
    ensures Reported(lines) <==>
      exists i, j :: 0 <= i < |lines| && 0 <= j < |lines| && FindAssignment(lines[i]) != FindAssignment(lines[j])
  {
    var m := MaxPos(lines);
    var j :| 0 <= j < |lines| && FindAssignment(lines[j]) == m;
    if Reported(lines) {
      var i :| 0 <= i < |lines| && FindAssignment(lines[i]) != m;
      assert FindAssignment(lines[i]) != FindAssignment(lines[j]);
    }
  }

  /**
   * The fix of one line: unchanged when its `=` is at `maxPos`; otherwise
   * `maxPos - pos` spaces inserted at `pos`, read by `substring`, so that a
   * line with no `=` gets them at its start.
   */
  function FixLine(line: string, maxPos: int): (r: string)
    requires FindAssignment(line) <= maxPos
    ensures |r| == |line| + maxPos - FindAssignment(line)
    ensures FindAssignment(line) == maxPos ==> r == line
    ensures '=' in line ==> line[..FindAssignment(line)] <= r
  {
    var pos := FindAssignment(line);
    if pos == maxPos then line
    else
      var k := SubstringIndex(|line|, pos);
      line[..k] + Spaces(maxPos - pos) + line[k..]
  }

  /**
   * The fixed line is the line with `maxPos - pos` spaces inserted where its
   * first `=` stands (or at its start when it has none): deleting them gives
   * back the line.
   */
  lemma FixLineInsertsSpaces(line: string, maxPos: int)
    requires FindAssignment(line) <= maxPos
    ensures var pos, r := FindAssignment(line), FixLine(line, maxPos);
            var k, n := if pos < 0 then 0 else pos, maxPos - pos;
            && |r| == |line| + n
            && k + n <= |r|
            && r[k..k + n] == Spaces(n)
            && r[..k] + r[k + n..] == line
  {
    var pos, r := FindAssignment(line), FixLine(line, maxPos);
    var k, n := if pos < 0 then 0 else pos, maxPos - pos;
    if pos != maxPos {
      assert r == line[..k] + Spaces(n) + line[k..];
      assert r[..k] == line[..k];
      assert r[k..k + n] == Spaces(n);
      assert r[k + n..] == line[k..];
      assert line[..k] + line[k..] == line;
    } else {
      assert r[..k] + r[k..] == line;
    }
  }

  /** After the fix, a line's first `=` is at `maxPos`; a line with no `=` still has none. */
  lemma FixLineAligns(line: string, maxPos: int)
    requires FindAssignment(line) <= maxPos
    ensures FindAssignment(FixLine(line, maxPos)) == (if '=' in line then maxPos else -1)
  {
    var pos, r := FindAssignment(line), FixLine(line, maxPos);
    var k, n := if pos < 0 then 0 else pos, maxPos - pos;
    FixLineInsertsSpaces(line, maxPos);
    assert r == r[..k] + r[k..k + n] + r[k + n..];
    assert '=' !in Spaces(n);
    if pos >= 0 {
      assert r[..maxPos] == r[..k] + r[k..k + n];
      assert r[maxPos] == line[k];
      IndexOfIsFirst(r, '=', maxPos);
    } else {
      assert '=' !in r[..k] + r[k + n..];
    }
  }

  /** Every line fixed against one column. */
  function FixAll(lines: seq<string>, maxPos: int): (r: seq<string>)
    requires forall i :: 0 <= i < |lines| ==> FindAssignment(lines[i]) <= maxPos
    ensures |r| == |lines| && forall i :: 0 <= i < |lines| ==> r[i] == FixLine(lines[i], maxPos)
  {
    seq(|lines|, i requires 0 <= i < |lines| => FixLine(lines[i], maxPos))
  }

  /**
   * The fix is idempotent when every line has an `=`: the fixed lines share
   * the column, so a second run reports nothing.
   */
  lemma FixIsIdempotent(lines: seq<string>)
    requires |lines| > 0
    requires forall i :: 0 <= i < |lines| ==> '=' in lines[i]
    ensures MaxPos(FixAll(lines, MaxPos(lines))) == MaxPos(lines)
    ensures !Reported(FixAll(lines, MaxPos(lines)))
  {
    var m := MaxPos(lines);
    var fixed := FixAll(lines, m);
    forall i | 0 <= i < |lines|
      ensures FindAssignment(fixed[i]) == m
    {
      FixLineAligns(lines[i], m);
    }
    var j :| 0 <= j < |fixed| && FindAssignment(fixed[j]) == MaxPos(fixed);
  }

  /**
   * A line with no `=` keeps the group reported after the fix whenever
   * another line has one: the fix cannot align such a group.
   */
  lemma LineWithoutEqStaysReported(lines: seq<string>, i: nat, j: nat)
    requires i < |lines| && j < |lines|
    requires '=' !in lines[i] && '=' in lines[j]
    ensures Reported(FixAll(lines, MaxPos(lines)))
  {
    var m := MaxPos(lines);
    var fixed := FixAll(lines, m);
    FixLineAligns(lines[i], m);
    FixLineAligns(lines[j], m);
    assert FindAssignment(fixed[i]) != FindAssignment(fixed[j]);
    ReportedIffColumnsDiffer(fixed);
  }

  /** `lines.join(sep)`. */
  function Join(ts: seq<string>, sep: string): string
    requires |ts| > 0
  {
    if |ts| == 1 then ts[0] else Join(ts[..|ts| - 1], sep) + sep + ts[|ts| - 1]
  }

  /** The texts with the given separators between consecutive ones. */
  function Interleave(ts: seq<string>, gaps: seq<string>): string
    requires |ts| > 0 && |gaps| == |ts| - 1
  {
    if |ts| == 1 then ts[0]
    else Interleave(ts[..|ts| - 1], gaps[..|gaps| - 1]) + gaps[|gaps| - 1] + ts[|ts| - 1]
  }

  /** Joining with one separator is interleaving with that separator in every gap. */
  lemma {:induction false} JoinIsInterleave(ts: seq<string>, gaps: seq<string>, sep: string)
    requires |ts| > 0 && |gaps| == |ts| - 1
    requires forall i :: 0 <= i < |gaps| ==> gaps[i] == sep
    ensures Join(ts, sep) == Interleave(ts, gaps)
    decreases |ts|
  {
    if |ts| > 1 {
      JoinIsInterleave(ts[..|ts| - 1], gaps[..|gaps| - 1], sep);
    }
  }

  /** The members' texts, as `sourceCode.getText` gives them. */
  function Lines(g: seq<Stmt>): (r: seq<string>)
    ensures |r| == |g| && forall i :: 0 <= i < |g| ==> r[i] == g[i].text
  {
    seq(|g|, i requires 0 <= i < |g| => g[i].text)
  }

  /** A report: the range of the file it replaces and the text it puts there. */
  datatype Report = Report(start: nat, end: nat, replacement: string)

  /**
   * `check` as written: no report when the group is aligned; otherwise the
   * range from the first member's start to the last member's end, replaced by
   * the fixed lines joined with `\n`.
   */
  function CheckAsWritten(g: seq<Stmt>): (r: Option<Report>)
    requires |g| > 0
    ensures r.None? <==> AreAligned(MaxPos(Lines(g)), Lines(g))
    ensures r.Some? ==> r.value.start == g[0].start && r.value.end == g[|g| - 1].end
  {
    var lines := Lines(g);
    var m := MaxPos(lines);
    if AreAligned(m, lines) then None
    else Some(Report(g[0].start, g[|g| - 1].end, Join(FixAll(lines, m), "\n")))
  }

  /** The members stand in the file in order, each at its offsets, none overlapping the next. */
  predicate InSource(src: string, g: seq<Stmt>) {
    && (forall i :: 0 <= i < |g| ==> g[i].start <= g[i].end <= |src| && src[g[i].start..g[i].end] == g[i].text)
    && (forall i, j :: 0 <= i < j < |g| ==> g[i].end <= g[j].start)
  }

  /** The file's text between consecutive members. */
  function Gaps(src: string, g: seq<Stmt>): (r: seq<string>)
    requires InSource(src, g)
    ensures |r| == if |g| == 0 then 0 else |g| - 1
    ensures forall i :: 0 <= i < |g| - 1 ==> r[i] == src[g[i].end..g[i + 1].start]
  {
    if |g| == 0 then [] else seq(|g| - 1, i requires 0 <= i < |g| - 1 => src[g[i].end..g[i + 1].start])
  }

  /** `fixer.replaceTextRange`: the file with the report's range replaced. */
  function Apply(src: string, r: Report): string
    requires r.start <= r.end <= |src|
  {
    src[..r.start] + r.replacement + src[r.end..]
  }

  /**
   * The file with each member's text replaced by the corresponding new text,
   * one member at a time from the last, everything between members left as it is.
   */
  function ReplaceEach(src: string, g: seq<Stmt>, ts: seq<string>): string
    requires |ts| == |g| && InSource(src, g)
    decreases |g|
  {
    if |g| == 0 then src
    else
      var n := |g|;
      var src' := src[..g[n - 1].start] + ts[n - 1] + src[g[n - 1].end..];
      ReplaceLastKeepsEarlier(src, g, ts[n - 1]);
      ReplaceEach(src', g[..n - 1], ts[..n - 1])
  }

  /** Replacing the last member's text leaves the earlier members where they were. */
  lemma ReplaceLastKeepsEarlier(src: string, g: seq<Stmt>, t: string)
    requires |g| > 0 && InSource(src, g)
    ensures var n := |g|;
            var src' := src[..g[n - 1].start] + t + src[g[n - 1].end..];
            && InSource(src', g[..n - 1])
            && src'[..g[n - 1].start] == src[..g[n - 1].start]
  {
    var n := |g|;
    var c := g[n - 1].start;
    var src' := src[..c] + t + src[g[n - 1].end..];
    assert src'[..c] == src[..c];
    forall i | 0 <= i < n - 1
      ensures src'[g[i].start..g[i].end] == g[i].text
    {
      assert g[i].start <= g[i].end <= c;
      SliceBelow(src', src, c, g[i].start, g[i].end);
    }
  }

  /**
   * The corrected replacement: the fixed lines with the file's own text
   * between them, so that indentation, line endings and comments between
   * members survive.
   */
  function Replacement(src: string, g: seq<Stmt>): string
    requires |g| > 0 && InSource(src, g)
  {
    var lines := Lines(g);
    Interleave(FixAll(lines, MaxPos(lines)), Gaps(src, g))
  }

  /** The corrected `check`: the report of `check` as written with the corrected replacement. */
  function Check(src: string, g: seq<Stmt>): (r: Option<Report>)
    requires |g| > 0 && InSource(src, g)
    ensures r.None? <==> AreAligned(MaxPos(Lines(g)), Lines(g))
    ensures r.Some? ==> r.value.start == g[0].start && r.value.end == g[|g| - 1].end <= |src|
    ensures r.Some? ==> r.value.start <= r.value.end
  {
    var n := |g|;
    assert g[0].start <= g[0].end <= g[n - 1].end;
    if AreAligned(MaxPos(Lines(g)), Lines(g)) then None
    else Some(Report(g[0].start, g[n - 1].end, Replacement(src, g)))
  }

  /**
   * Applying the corrected report is fixing each member in place: the file
   * changes only inside the members' texts, each of which becomes its fixed line.
   */
  lemma CheckFixesEachMember(src: string, g: seq<Stmt>)
    requires |g| > 0 && InSource(src, g)
    requires Check(src, g).Some?
    ensures Apply(src, Check(src, g).value) == ReplaceEach(src, g, FixAll(Lines(g), MaxPos(Lines(g))))
  {
    var lines := Lines(g);
    var ts := FixAll(lines, MaxPos(lines));
    InterleaveReplacesEach(src, g, ts);
  }

  /** The range from the first member's start to the last one's end, rebuilt from new texts and the gaps. */
  lemma {:induction false} InterleaveReplacesEach(src: string, g: seq<Stmt>, ts: seq<string>)
    requires |g| > 0 && |ts| == |g| && InSource(src, g)
    ensures g[0].start <= g[|g| - 1].end <= |src|
    ensures src[..g[0].start] + Interleave(ts, Gaps(src, g)) + src[g[|g| - 1].end..] == ReplaceEach(src, g, ts)
    decreases |g|
  {
    var n := |g|;
    assert g[0].start <= g[0].end <= g[n - 1].end;
    var src' := src[..g[n - 1].start] + ts[n - 1] + src[g[n - 1].end..];
    ReplaceLastKeepsEarlier(src, g, ts[n - 1]);
    if n == 1 {
      assert ReplaceEach(src, g, ts) == ReplaceEach(src', [], []);
    } else {
      var init, ts' := g[..n - 1], ts[..n - 1];
      InterleaveReplacesEach(src', init, ts');
      assert ReplaceEach(src, g, ts) == ReplaceEach(src', init, ts');
      GapsOfReplaced(src, g, ts[n - 1]);
      var gaps := Gaps(src, g);
      assert Interleave(ts, gaps) == Interleave(ts', gaps[..n - 2]) + gaps[n - 2] + ts[n - 1];
      assert gaps[n - 2] == src[g[n - 2].end..g[n - 1].start];
      Regroup(src, g[0].start, g[n - 2].end, g[n - 1].start, g[n - 1].end, ts[n - 1], Interleave(ts', gaps[..n - 2]));
    }
  }

  /** Replacing `src[c..d]` by `t` leaves everything before `c` alone. */
  lemma Regroup(src: string, a: nat, b: nat, c: nat, d: nat, t: string, mid: string)
    requires a <= b <= c <= d <= |src|
    ensures var src' := src[..c] + t + src[d..];
            src[..a] + (mid + src[b..c] + t) + src[d..] == src'[..a] + mid + src'[b..]
  {
    var src' := src[..c] + t + src[d..];
    assert src'[..a] == src[..a];
    assert src'[b..] == src[b..c] + t + src[d..];
  }

  /** Replacing the last member's text leaves the gaps between the earlier members as they were. */
  lemma GapsOfReplaced(src: string, g: seq<Stmt>, t: string)
    requires |g| > 1 && InSource(src, g)
    ensures var n := |g|;
            var src' := src[..g[n - 1].start] + t + src[g[n - 1].end..];
            && InSource(src', g[..n - 1])
            && Gaps(src', g[..n - 1]) == Gaps(src, g)[..n - 2]
  {
    var n := |g|;
    var c := g[n - 1].start;
    var src' := src[..c] + t + src[g[n - 1].end..];
    ReplaceLastKeepsEarlier(src, g, t);
    forall i | 0 <= i < n - 2
      ensures src'[g[i].end..g[i + 1].start] == src[g[i].end..g[i + 1].start]
    {
      assert g[i].end <= g[i + 1].start <= g[i + 1].end <= c;
      SliceBelow(src', src, c, g[i].end, g[i + 1].start);
    }
  }

  /** Two strings that agree below `c` agree on every slice below `c`. */
  lemma SliceBelow(x: string, y: string, c: nat, i: nat, j: nat)
    requires c <= |x| && c <= |y| && x[..c] == y[..c] && i <= j <= c
    ensures x[i..j] == y[i..j]
  {
    forall k | 0 <= k < j - i
      ensures x[i..j][k] == y[i..j][k]
    {
      assert x[i + k] == x[..c][i + k];
      assert y[i + k] == y[..c][i + k];
    }
  }

  /** Where every gap is a single line feed, `check` as written and the corrected check agree. */
  lemma CheckAgrees(src: string, g: seq<Stmt>)
    requires |g| > 0 && InSource(src, g)
    requires forall i :: 0 <= i < |g| - 1 ==> src[g[i].end..g[i + 1].start] == "\n"
    ensures CheckAsWritten(g) == Check(src, g)
  {
    var lines := Lines(g);
    JoinIsInterleave(FixAll(lines, MaxPos(lines)), Gaps(src, g), "\n");
  }
}
