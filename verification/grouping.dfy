/**
 * The grouper shared by both rules: a fold over the visited statements that
 * drops the ones the rule ignores and cuts the rest into runs of adjacent
 * statements under one parent.
 */
module Grouping {
  import opened Wrappers
  import opened Text
  import opened Statements

  /** The two rules; only the assignment rule has the `requiresOnly` option and the for-loop cut. */
  datatype Rule = AlignAssignments(requiresOnly: bool) | AlignRequires

  function Last<T>(s: seq<T>): T
    requires |s| > 0
  {
    s[|s| - 1]
  }

  /** The `/require\(/` test on a statement's text. */
  predicate HasRequire(s: Stmt) {
    Contains(s.text, "require(")
  }

  /**
   * Whether the rule's visitors pass the statement on to the grouper. Bare
   * expressions never reach it, a declaration that calls `require(` always does,
   * and the require rule takes nothing else. With `requiresOnly` the
   * assignment rule drops the declarations without `require(` and keeps
   * assignments.
   */
  predicate Admits(rule: Rule, s: Stmt)
    ensures Admits(rule, s) ==> !s.kind.OtherExpression?
    ensures s.kind.Declaration? && HasRequire(s) ==> Admits(rule, s)
    ensures rule.AlignRequires? && Admits(rule, s) ==> s.kind.Declaration? && HasRequire(s)
    ensures rule == AlignAssignments(false) ==> (Admits(rule, s) <==> !s.kind.OtherExpression?)
    ensures rule == AlignAssignments(true) ==> (Admits(rule, s) <==> s.kind.Assignment? || (s.kind.Declaration? && HasRequire(s)))
  {
    match rule
    case AlignAssignments(requiresOnly) =>
      (match s.kind
       case Declaration(_) => !requiresOnly || HasRequire(s)
       case Assignment(_, _) => true
       case OtherExpression => false)
    case AlignRequires => s.kind.Declaration? && HasRequire(s)
  }

  /**
   * `shouldStartNewGroup`: whether `s` opens a group rather than joining the
   * previous statement's. It joins exactly when it has the same parent, begins
   * on the line after the previous statement ends, and, under the assignment
   * rule, the previous statement is not the declaration of a for-loop.
   */
  predicate StartsNewGroup(rule: Rule, s: Stmt, previous: Option<Stmt>)
    ensures previous.None? ==> StartsNewGroup(rule, s, previous)
    ensures previous.Some? ==>
              (!StartsNewGroup(rule, s, previous) <==>
                 && s.parent == previous.value.parent
                 && s.firstLine == previous.value.lastLine + 1
                 && !(rule.AlignAssignments? && previous.value.kind == Declaration(true)))
  {
    match previous
    case None => true
    case Some(p) =>
      || s.parent != p.parent
      || (rule.AlignAssignments? && p.kind.Declaration? && p.kind.parentIsFor)
      || s.firstLine - p.lastLine != 1
  }

  /** The grouper's state: the groups so far and the last statement added to one. */
  datatype Grouper = Grouper(groups: seq<seq<Stmt>>, previous: Option<Stmt>)

  /**
   * One visitor call followed by `addNode`. A statement the rule drops changes
   * nothing; an admitted one becomes `previous` and is appended to the groups,
   * in a group of its own when it starts one and otherwise at the end of the
   * last group. The groups before the one it lands in stay as they were.
   */
  function Observe(rule: Rule, g: Grouper, s: Stmt): (r: Grouper)
    requires g.previous.Some? ==> |g.groups| > 0
    ensures !Admits(rule, s) ==> r == g
    ensures Admits(rule, s) ==>
              && r.previous == Some(s)
              && Flatten(r.groups) == Flatten(g.groups) + [s]
              && |r.groups| > 0 && Last(r.groups) == (if StartsNewGroup(rule, s, g.previous) then [s] else Last(g.groups) + [s])
    ensures Admits(rule, s) && StartsNewGroup(rule, s, g.previous) ==>
              |r.groups| == |g.groups| + 1 && r.groups[..|g.groups|] == g.groups
    ensures Admits(rule, s) && !StartsNewGroup(rule, s, g.previous) ==>
              |r.groups| == |g.groups| && r.groups[..|g.groups| - 1] == g.groups[..|g.groups| - 1]
  {
    if !Admits(rule, s) then g
    else if StartsNewGroup(rule, s, g.previous) then
      FlattenSnoc(g.groups, [s]);
      assert (g.groups + [[s]])[..|g.groups|] == g.groups;
      Grouper(g.groups + [[s]], Some(s))
    else
      var init := g.groups[..|g.groups| - 1];
      assert g.groups == init + [Last(g.groups)];
      FlattenSnoc(init, Last(g.groups));
      FlattenSnoc(init, Last(g.groups) + [s]);
      assert (init + [Last(g.groups) + [s]])[..|init|] == init;
      Grouper(init + [Last(g.groups) + [s]], Some(s))
  }

  /**
   * The statements the rule passes on to the grouper, in visit order: exactly
   * the admitted ones, never more than were visited. Order is stated by
   * `AdmittedAppend`: filtering distributes over concatenation.
   */
  function Admitted(rule: Rule, stmts: seq<Stmt>): (r: seq<Stmt>)
    ensures |r| <= |stmts|
    ensures forall s :: s in r ==> s in stmts && Admits(rule, s)
    ensures forall s {:trigger Admits(rule, s), s in stmts} :: s in stmts && Admits(rule, s) ==> s in r
    ensures |stmts| == 1 ==> r == (if Admits(rule, stmts[0]) then stmts else [])
  {
    if |stmts| == 0 then []
    else
      var init := stmts[..|stmts| - 1];
      assert stmts == init + [Last(stmts)];
      Admitted(rule, init) + (if Admits(rule, Last(stmts)) then [Last(stmts)] else [])
  }

  /** Filtering a concatenation filters each part and keeps them in order. */
  lemma {:induction false} AdmittedAppend(rule: Rule, a: seq<Stmt>, b: seq<Stmt>)
    ensures Admitted(rule, a + b) == Admitted(rule, a) + Admitted(rule, b)
    decreases |b|
  {
    if |b| == 0 {
      assert a + b == a;
    } else {
      var b' := b[..|b| - 1];
      assert (a + b)[..|a + b| - 1] == a + b';
      assert Last(a + b) == Last(b);
      AdmittedAppend(rule, a, b');
    }
  }

  function Flatten(gs: seq<seq<Stmt>>): seq<Stmt> {
    if |gs| == 0 then [] else Flatten(gs[..|gs| - 1]) + Last(gs)
  }

  /**
   * `gs` cuts `a` into its maximal runs: concatenated the groups give back `a`,
   * no group is empty, consecutive members of a group never call for a new group,
   * and each group after the first starts where the rule calls for one.
   */
  ghost predicate IsRunPartition(rule: Rule, a: seq<Stmt>, gs: seq<seq<Stmt>>) {
    && Flatten(gs) == a
    && (forall i :: 0 <= i < |gs| ==> |gs[i]| > 0)
    && (forall i, k :: 0 <= i < |gs| && 0 < k < |gs[i]| ==> !StartsNewGroup(rule, gs[i][k], Some(gs[i][k - 1])))
    && (forall i :: 0 < i < |gs| ==> StartsNewGroup(rule, gs[i][0], Some(Last(gs[i - 1]))))
  }

  /**
   * The groups after visiting `stmts`: the maximal runs of the admitted
   * statements. The last admitted statement is the grouper's `previous`;
   * a statement the rule drops never becomes it.
   */
  function GroupAll(rule: Rule, stmts: seq<Stmt>): (r: Grouper)
    ensures IsRunPartition(rule, Admitted(rule, stmts), r.groups)
    ensures r.previous == (if |Admitted(rule, stmts)| == 0 then None else Some(Last(Admitted(rule, stmts))))
  {
    if |stmts| == 0 then Grouper([], None)
    else
      var g := GroupAll(rule, stmts[..|stmts| - 1]);
      var s := Last(stmts);
      ObserveExtends(rule, Admitted(rule, stmts[..|stmts| - 1]), g, s);
      Observe(rule, g, s)
  }

  lemma FlattenSnoc(gs: seq<seq<Stmt>>, g: seq<Stmt>)
    ensures Flatten(gs + [g]) == Flatten(gs) + g
  {
    assert (gs + [g])[..|gs|] == gs;
  }

  lemma FlattenNonEmpty(gs: seq<seq<Stmt>>)
    requires |gs| > 0 && |Last(gs)| > 0
    ensures |Flatten(gs)| > 0 && Last(Flatten(gs)) == Last(Last(gs))
  {
  }

  lemma {:induction false} FlattenEmpty(gs: seq<seq<Stmt>>)
    requires forall i :: 0 <= i < |gs| ==> |gs[i]| > 0
    requires Flatten(gs) == []
    ensures gs == []
  {
  }

  /** Observing one more statement extends the partition of the admitted statements by it. */
  lemma {:induction false} ObserveExtends(rule: Rule, a: seq<Stmt>, g: Grouper, s: Stmt)
    requires IsRunPartition(rule, a, g.groups)
    requires g.previous == (if |a| == 0 then None else Some(Last(a)))
    ensures g.previous.Some? ==> |g.groups| > 0
    ensures IsRunPartition(rule, a + (if Admits(rule, s) then [s] else []), Observe(rule, g, s).groups)
    ensures Observe(rule, g, s).previous == (if Admits(rule, s) then Some(s) else g.previous)
  {
    if |g.groups| == 0 {
      assert a == [];
    } else {
      FlattenNonEmpty(g.groups);
    }
    if Admits(rule, s) {
      if StartsNewGroup(rule, s, g.previous) {
        OpenGroupExtends(rule, a, g.groups, s);
      } else {
        JoinGroupExtends(rule, a, g.groups, s);
      }
    }
  }

  lemma OpenGroupExtends(rule: Rule, a: seq<Stmt>, gs: seq<seq<Stmt>>, s: Stmt)
    requires IsRunPartition(rule, a, gs)
    requires StartsNewGroup(rule, s, if |a| == 0 then None else Some(Last(a)))
    ensures IsRunPartition(rule, a + [s], gs + [[s]])
  {
    FlattenSnoc(gs, [s]);
    var r := gs + [[s]];
    if |gs| > 0 {
      FlattenNonEmpty(gs);
    }
    forall i | 0 < i < |r|
      ensures StartsNewGroup(rule, r[i][0], Some(Last(r[i - 1])))
    {
      if i == |gs| {
        assert Last(r[i - 1]) == Last(a);
      } else {
        assert r[i] == gs[i] && r[i - 1] == gs[i - 1];
      }
    }
    forall i, k | 0 <= i < |r| && 0 < k < |r[i]|
      ensures !StartsNewGroup(rule, r[i][k], Some(r[i][k - 1]))
    {
      assert r[i] == gs[i];
    }
  }

  lemma JoinGroupExtends(rule: Rule, a: seq<Stmt>, gs: seq<seq<Stmt>>, s: Stmt)
    requires IsRunPartition(rule, a, gs)
    requires |a| > 0 && |gs| > 0
    requires !StartsNewGroup(rule, s, Some(Last(a)))
    ensures IsRunPartition(rule, a + [s], gs[..|gs| - 1] + [Last(gs) + [s]])
  {
    FlattenNonEmpty(gs);
    var init := gs[..|gs| - 1];
    var r := init + [Last(gs) + [s]];
    assert gs == init + [Last(gs)];
    FlattenSnoc(init, Last(gs));
    FlattenSnoc(init, Last(gs) + [s]);
    assert Flatten(r) == a + [s];
    forall i, k | 0 <= i < |r| && 0 < k < |r[i]|
      ensures !StartsNewGroup(rule, r[i][k], Some(r[i][k - 1]))
    {
      if i == |init| && k == |Last(gs)| {
        assert r[i][k - 1] == Last(a);
      } else {
        assert r[i][k] == gs[i][k] && r[i][k - 1] == gs[i][k - 1];
      }
    }
    forall i | 0 < i < |r|
      ensures StartsNewGroup(rule, r[i][0], Some(Last(r[i - 1])))
    {
      assert r[i][0] == gs[i][0] && r[i - 1] == gs[i - 1];
    }
  }

  /** Each statement the rule admits lands in exactly one group, in visit order. */
  lemma GroupsCoverAdmitted(rule: Rule, stmts: seq<Stmt>)
    ensures Flatten(GroupAll(rule, stmts).groups) == Admitted(rule, stmts)
    ensures forall i :: 0 <= i < |GroupAll(rule, stmts).groups| ==> |GroupAll(rule, stmts).groups[i]| > 0
  {
  }

  /**
   * Within a group, consecutive members share a parent and stand on consecutive
   * lines, and under the assignment rule the earlier one is not the declaration
   * of a for-loop. So a blank line, or a different parent, always separates groups.
   */
  lemma GroupsAreContiguous(rule: Rule, stmts: seq<Stmt>, i: nat, k: nat)
    requires i < |GroupAll(rule, stmts).groups|
    requires 0 < k < |GroupAll(rule, stmts).groups[i]|
    ensures var g := GroupAll(rule, stmts).groups[i];
            && g[k].parent == g[k - 1].parent
            && g[k].firstLine == g[k - 1].lastLine + 1
            && !(rule.AlignAssignments? && g[k - 1].kind.Declaration? && g[k - 1].kind.parentIsFor)
  {
  }

  /** A partition into maximal runs is unique: the fold computes the only one. */
  lemma {:induction false} RunPartitionUnique(rule: Rule, a: seq<Stmt>, gs1: seq<seq<Stmt>>, gs2: seq<seq<Stmt>>)
    requires IsRunPartition(rule, a, gs1) && IsRunPartition(rule, a, gs2)
    ensures gs1 == gs2
    decreases |a|
  {
    if |a| == 0 {
      FlattenEmpty(gs1);
      FlattenEmpty(gs2);
    } else {
      var p1, single1 := Peel(rule, a, gs1);
      var p2, single2 := Peel(rule, a, gs2);
      RunPartitionUnique(rule, a[..|a| - 1], p1, p2);
    }
  }

  /**
   * Removes the last statement from a run partition. `single` says whether it
   * stood alone in its group, which happens exactly when it starts a new group.
   */
  lemma {:induction false} Peel(rule: Rule, a: seq<Stmt>, gs: seq<seq<Stmt>>) returns (p: seq<seq<Stmt>>, single: bool)
    requires |a| > 0 && IsRunPartition(rule, a, gs)
    ensures IsRunPartition(rule, a[..|a| - 1], p)
    ensures single <==> (|a| == 1 || StartsNewGroup(rule, Last(a), Some(a[|a| - 2])))
    ensures single ==> gs == p + [[Last(a)]]
    ensures !single ==> |p| > 0 && gs == p[..|p| - 1] + [Last(p) + [Last(a)]]
  {
    assert |gs| > 0;
    var init := gs[..|gs| - 1];
    var g := Last(gs);
    assert gs == init + [g];
    FlattenSnoc(init, g);
    if |g| == 1 {
      p, single := init, true;
      PeelSingle(rule, a, gs);
    } else {
      p, single := init + [g[..|g| - 1]], false;
      PeelJoined(rule, a, gs);
      assert p[..|p| - 1] == init;
      assert g == Last(p) + [Last(a)];
    }
  }

  lemma PeelSingle(rule: Rule, a: seq<Stmt>, gs: seq<seq<Stmt>>)
    requires |a| > 0 && IsRunPartition(rule, a, gs)
    requires |gs| > 0 && |Last(gs)| == 1
    ensures IsRunPartition(rule, a[..|a| - 1], gs[..|gs| - 1])
    ensures |a| == 1 || StartsNewGroup(rule, Last(a), Some(a[|a| - 2]))
    ensures gs == gs[..|gs| - 1] + [[Last(a)]]
  {
    var n := |gs|;
    var init := gs[..n - 1];
    var g := Last(gs);
    assert gs == init + [g];
    FlattenSnoc(init, g);
    assert g == [Last(a)];
    assert Flatten(init) == a[..|a| - 1];
    GroupsPrefix(rule, a, gs, a[..|a| - 1], n - 1);
    if |a| > 1 {
      assert |init| > 0;
      FlattenNonEmpty(init);
      assert a[|a| - 2] == Last(gs[n - 2]);
      assert StartsNewGroup(rule, gs[n - 1][0], Some(Last(gs[n - 2])));
    }
  }

  /** The first `m` groups of a partition partition whatever they flatten to. */
  lemma GroupsPrefix(rule: Rule, a: seq<Stmt>, gs: seq<seq<Stmt>>, a': seq<Stmt>, m: nat)
    requires IsRunPartition(rule, a, gs)
    requires m <= |gs| && Flatten(gs[..m]) == a'
    ensures IsRunPartition(rule, a', gs[..m])
  {
    assert forall i :: 0 <= i < m ==> gs[..m][i] == gs[i];
  }

  lemma PeelJoined(rule: Rule, a: seq<Stmt>, gs: seq<seq<Stmt>>)
    requires |a| > 0 && IsRunPartition(rule, a, gs)
    requires |gs| > 0 && |Last(gs)| > 1
    ensures var g := Last(gs);
            && IsRunPartition(rule, a[..|a| - 1], gs[..|gs| - 1] + [g[..|g| - 1]])
            && |a| > 1 && !StartsNewGroup(rule, Last(a), Some(a[|a| - 2]))
            && g == g[..|g| - 1] + [Last(a)]
  {
    var init := gs[..|gs| - 1];
    var g := Last(gs);
    var g' := g[..|g| - 1];
    var p := init + [g'];
    assert gs == init + [g];
    FlattenSnoc(init, g);
    FlattenSnoc(init, g');
    assert g == g' + [Last(g)];
    assert Flatten(init) + g == (Flatten(init) + g') + [Last(g)];
    assert Flatten(p) == a[..|a| - 1];
    assert a[|a| - 2] == g[|g| - 2];
    assert !StartsNewGroup(rule, g[|g| - 1], Some(g[|g| - 2]));
    forall i, k | 0 <= i < |p| && 0 < k < |p[i]|
      ensures !StartsNewGroup(rule, p[i][k], Some(p[i][k - 1]))
    {
      assert p[i][k] == gs[i][k] && p[i][k - 1] == gs[i][k - 1];
    }
    forall i | 0 < i < |p|
      ensures StartsNewGroup(rule, p[i][0], Some(Last(p[i - 1])))
    {
      assert p[i][0] == gs[i][0] && p[i - 1] == gs[i - 1];
    }
  }
}
