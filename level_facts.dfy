/** What the level decomposition of getEmployeesByLevel (lib/org-utils.ts)
    means for a tree: level k holds exactly the nodes k child steps below the
    root, the levels together hold exactly the reachable nodes, no node is
    listed twice, and the decomposition is unique. */
module LevelFacts {
  import opened EmployeeTypes
  import opened OrgTree
  import opened OrgLevels

  /** No id occurs twice in `s`. */
  ghost predicate Distinct(s: seq<int>)
  {
    forall i, j :: 0 <= i < j < |s| ==> s[i] != s[j]
  }

  /** Level `k` holds exactly the nodes `k` child steps below the root. */
  lemma {:induction false} InLevelIffAtDepth(t: Tree, levels: seq<seq<int>>, k: nat, x: int)
    requires IsLevelDecomposition(t, levels) && k < |levels|
    ensures x in levels[k] <==> AtDepth(t, k, x)
  {
    if k > 0 {
      assert FollowsLevel(t, levels, k);
      NextLevelMembers(t, levels[k - 1]);
      if x in levels[k] {
        var p :| p in levels[k - 1] && x in Children(t, p);
        InLevelIffAtDepth(t, levels, k - 1, p);
      }
      if AtDepth(t, k, x) {
        var p :| AtDepth(t, k - 1, p) && x in Children(t, p);
        InLevelIffAtDepth(t, levels, k - 1, p);
      }
    }
  }

  /** Nothing lies deeper than the last level. */
  lemma {:induction false} NothingBelowLastLevel(t: Tree, levels: seq<seq<int>>, k: nat, x: int)
    requires IsLevelDecomposition(t, levels) && k >= |levels|
    ensures !AtDepth(t, k, x)
  {
    if AtDepth(t, k, x) {
      var p :| AtDepth(t, k - 1, p) && x in Children(t, p);
      if k - 1 >= |levels| {
        NothingBelowLastLevel(t, levels, k - 1, p);
      } else {
        var last := levels[|levels| - 1];
        InLevelIffAtDepth(t, levels, k - 1, p);
        ChildInNextLevel(t, last, p, x);
      }
    }
  }

  /** A child of a node of a level is in the next level. */
  lemma ChildInNextLevel(t: Tree, level: seq<int>, p: int, x: int)
    requires p in level && x in Children(t, p)
    ensures x in NextLevel(t, level)
  {
    NextLevelMembers(t, level);
  }

  /** A node is in some level exactly when it is reachable from the root. */
  lemma LevelsHoldReachable(t: Tree, levels: seq<seq<int>>, x: int)
    requires IsLevelDecomposition(t, levels)
    ensures (exists k :: 0 <= k < |levels| && x in levels[k]) <==> Reachable(t, x)
  {
    if k :| 0 <= k < |levels| && x in levels[k] {
      InLevelIffAtDepth(t, levels, k, x);
    }
    if Reachable(t, x) {
      var k: nat :| AtDepth(t, k, x);
      if k >= |levels| {
        NothingBelowLastLevel(t, levels, k, x);
      } else {
        InLevelIffAtDepth(t, levels, k, x);
      }
    }
  }

  /** In a well-formed tree a node lies at one depth only. */
  lemma {:induction false} DepthUnique(t: Tree, k: nat, m: nat, x: int)
    requires WellFormed(t) && AtDepth(t, k, x) && AtDepth(t, m, x)
    ensures k == m
  {
    if k == 0 && m > 0 {
      var q :| AtDepth(t, m - 1, q) && x in Children(t, q);
      ChildIsNode(t, q, x);
    } else if k > 0 && m == 0 {
      var p :| AtDepth(t, k - 1, p) && x in Children(t, p);
      ChildIsNode(t, p, x);
    } else if k > 0 && m > 0 {
      var p :| AtDepth(t, k - 1, p) && x in Children(t, p);
      var q :| AtDepth(t, m - 1, q) && x in Children(t, q);
      OneParent(t, x, p, q);
      DepthUnique(t, k - 1, m - 1, p);
    }
  }

  /** The next level of a level without repeats has no repeats either: each
      child list is repeat-free and no child has two parents. */
  lemma {:induction false} NextLevelDistinct(t: Tree, level: seq<int>)
    requires WellFormed(t) && Distinct(level)
    ensures Distinct(NextLevel(t, level))
  {
    if level != [] {
      var prefix := level[..|level| - 1];
      var x := level[|level| - 1];
      assert Distinct(prefix);
      NextLevelDistinct(t, prefix);
      NextLevelMembers(t, prefix);
      assert x !in prefix;
      var front, kids := NextLevel(t, prefix), Children(t, x);
      var whole := front + kids;
      assert NextLevel(t, level) == whole;
      forall i, j | 0 <= i < j < |whole|
        ensures whole[i] != whole[j]
      {
        if j < |front| {
          assert whole[i] == front[i] && whole[j] == front[j];
        } else if i >= |front| {
          assert whole[i] == kids[i - |front|] && whole[j] == kids[j - |front|];
          ChildrenDistinct(t, x, i - |front|, j - |front|);
        } else {
          var c := whole[i];
          assert c == front[i] && whole[j] == kids[j - |front|];
          assert c in NextLevel(t, prefix);
          var p :| p in prefix && c in Children(t, p);
          if c == whole[j] {
            OneParent(t, c, p, x);
          }
        }
      }
    }
  }

  /** No level repeats a node. */
  lemma {:induction false} LevelDistinct(t: Tree, levels: seq<seq<int>>, k: nat)
    requires WellFormed(t) && IsLevelDecomposition(t, levels) && k < |levels|
    ensures Distinct(levels[k])
  {
    if k > 0 {
      assert FollowsLevel(t, levels, k);
      LevelDistinct(t, levels, k - 1);
      NextLevelDistinct(t, levels[k - 1]);
    }
  }

  /** In a well-formed tree every node appears at most once in the levels:
      two positions holding the same id are the same position. */
  lemma EachNodeOnce(t: Tree, levels: seq<seq<int>>, k: nat, i: nat, m: nat, j: nat)
    requires WellFormed(t) && IsLevelDecomposition(t, levels)
    requires k < |levels| && i < |levels[k]| && m < |levels| && j < |levels[m]|
    requires levels[k][i] == levels[m][j]
    ensures k == m && i == j
  {
    var x := levels[k][i];
    InLevelIffAtDepth(t, levels, k, x);
    InLevelIffAtDepth(t, levels, m, x);
    DepthUnique(t, k, m, x);
    LevelDistinct(t, levels, k);
  }

  /** Every id in a level is a node of a well-formed tree. */
  lemma LevelNodesAreNodes(t: Tree, levels: seq<seq<int>>, k: nat, x: int)
    requires WellFormed(t) && IsLevelDecomposition(t, levels) && k < |levels| && x in levels[k]
    ensures x in t.nodes
  {
    if k > 0 {
      assert FollowsLevel(t, levels, k);
      NextLevelMembers(t, levels[k - 1]);
      var p :| p in levels[k - 1] && x in Children(t, p);
      ChildIsNode(t, p, x);
    }
  }

  /** Two decompositions of one tree agree level by level. */
  lemma {:induction false} LevelsAgree(t: Tree, a: seq<seq<int>>, b: seq<seq<int>>, k: nat)
    requires IsLevelDecomposition(t, a) && IsLevelDecomposition(t, b) && k < |a| && k < |b|
    ensures a[k] == b[k]
  {
    if k > 0 {
      assert FollowsLevel(t, a, k) && FollowsLevel(t, b, k);
      LevelsAgree(t, a, b, k - 1);
    }
  }

  /** Every level but the last has children: the next level is not empty. */
  lemma InnerLevelHasChildren(t: Tree, levels: seq<seq<int>>, k: int)
    requires IsLevelDecomposition(t, levels) && 0 < k < |levels|
    ensures NextLevel(t, levels[k - 1]) != []
  {
    assert FollowsLevel(t, levels, k);
  }

  /** A tree has one level decomposition: the result of getEmployeesByLevel
      is determined by the tree. */
  lemma DecompositionUnique(t: Tree, a: seq<seq<int>>, b: seq<seq<int>>)
    requires IsLevelDecomposition(t, a) && IsLevelDecomposition(t, b)
    ensures a == b
  {
    if |a| < |b| {
      LevelsAgree(t, a, b, |a| - 1);
      InnerLevelHasChildren(t, b, |a|);
    } else if |b| < |a| {
      LevelsAgree(t, a, b, |b| - 1);
      InnerLevelHasChildren(t, a, |b|);
    } else {
      forall k | 0 <= k < |a|
        ensures a[k] == b[k]
      {
        LevelsAgree(t, a, b, k);
      }
    }
  }

  /** A record whose parent id names no record appears in no level of the
      tree built from the list. */
  lemma OrphanInNoLevel(s: seq<Employee>, levels: seq<seq<int>>, i: int, q: int, k: nat)
    requires UniqueIds(s) && OrgTreeOf(s).Ok? && IsLevelDecomposition(OrgTreeOf(s).value, levels)
    requires 0 <= i < |s| && ParentOf(s[i]) == Some(q) && q !in Ids(s) && k < |levels|
    ensures s[i].id !in levels[k]
  {
    var t := OrgTreeOf(s).value;
    if k == 0 {
      RootIsLastParentless(s);
      var r :| 0 <= r < |s| && s[r].id == t.root && ParentOf(s[r]).None?;
      assert r != i;
    } else {
      assert FollowsLevel(t, levels, k);
      OrphanExcluded(s, i, q);
      forall p ensures s[i].id !in Children(t, p) {
      }
      NextLevelMembers(t, levels[k - 1]);
    }
  }
}
