/** What the chart component of components/org-chart.tsx derives from the
    records and the search term: the tree (or the error view when none can
    be built), its levels, and the cards shown on each level. */
module OrgChart {
  import opened EmployeeTypes
  import opened OrgTree
  import opened OrgLevels
  import opened LevelFacts
  import opened Search

  /** What the component renders: the error view, or one row of card ids
      per level. */
  datatype Screen = ErrorScreen | ChartScreen(rows: seq<seq<int>>)

  /** The viewport counts as mobile below 768 pixels. */
  function IsMobile(innerWidth: int): (r: bool)
    ensures r <==> innerWidth < 768
  {
    innerWidth < 768
  }

  /** The rows of cards: each level filtered to the records that match the
      search, in level order. */
  function Rows(levels: seq<seq<int>>, filtered: seq<Employee>): (r: seq<seq<int>>)
    ensures |r| == |levels|
    ensures forall k :: 0 <= k < |r| ==> r[k] == VisibleCards(levels[k], filtered)
  {
    seq(|levels|, k requires 0 <= k < |levels| => VisibleCards(levels[k], filtered))
  }

  /** The records, the search term and the derived tree and levels decide
      the screen: the error view when there is no tree, the rows otherwise. */
  function ScreenOf(tree: Result<Tree>, levels: seq<seq<int>>, data: seq<Employee>, term: string): (r: Screen)
    ensures r == ErrorScreen <==> tree.Err?
    ensures r.ChartScreen? ==>
              |r.rows| == |levels| &&
              forall k :: 0 <= k < |levels| ==> r.rows[k] == VisibleCards(levels[k], FilterBySearch(data, term))
  {
    if tree.Err? then ErrorScreen else ChartScreen(Rows(levels, FilterBySearch(data, term)))
  }

  /** Builds the tree (the error of the builder becomes "no tree"), groups it
      by level (no levels without a tree), and renders the screen. */
  method RenderChart(data: seq<Employee>, term: string) returns (levels: seq<seq<int>>, screen: Screen)
    requires UniqueIds(data)
    ensures OrgTreeOf(data).Err? ==> levels == [] && screen == ErrorScreen
    ensures OrgTreeOf(data).Ok? ==>
              IsLevelDecomposition(OrgTreeOf(data).value, levels) &&
              screen == ChartScreen(Rows(levels, FilterBySearch(data, term)))
  {
    var root := BuildOrgTree(data);
    if root.Ok? {
      BuiltTreeWellFormed(data);
      levels := GetEmployeesByLevel(root.value);
    } else {
      levels := [];
    }
    screen := ScreenOf(root, levels, data, term);
  }

  /** The error view is shown exactly when no record lacks a parent. */
  lemma ErrorScreenIffNoRoot(data: seq<Employee>, levels: seq<seq<int>>, term: string)
    ensures ScreenOf(OrgTreeOf(data), levels, data, term) == ErrorScreen <==>
            forall i :: 0 <= i < |data| ==> ParentOf(data[i]).Some?
  {
    NoRootIffError(data);
  }

  /** The levels do not depend on the search term: two renders of the same
      records produce the same levels. */
  lemma LevelsIgnoreSearch(data: seq<Employee>, levels1: seq<seq<int>>, levels2: seq<seq<int>>)
    requires OrgTreeOf(data).Ok?
    requires IsLevelDecomposition(OrgTreeOf(data).value, levels1)
    requires IsLevelDecomposition(OrgTreeOf(data).value, levels2)
    ensures levels1 == levels2
  {
    DecompositionUnique(OrgTreeOf(data).value, levels1, levels2);
  }

  /** Every node of the levels of a built tree is the id of a record. */
  lemma LevelIdsAreRecords(data: seq<Employee>, levels: seq<seq<int>>, k: nat, x: int)
    requires UniqueIds(data) && OrgTreeOf(data).Ok? && IsLevelDecomposition(OrgTreeOf(data).value, levels)
    requires k < |levels| && x in levels[k]
    ensures x in Ids(data)
  {
    BuiltTreeWellFormed(data);
    LevelNodesAreNodes(OrgTreeOf(data).value, levels, k, x);
  }

  /** With an empty search every level is shown in full. */
  lemma EmptySearchShowsEveryLevel(data: seq<Employee>, levels: seq<seq<int>>)
    requires UniqueIds(data) && OrgTreeOf(data).Ok? && IsLevelDecomposition(OrgTreeOf(data).value, levels)
    ensures Rows(levels, FilterBySearch(data, "")) == levels
  {
    forall k | 0 <= k < |levels|
      ensures VisibleCards(levels[k], FilterBySearch(data, "")) == levels[k]
    {
      forall x | x in levels[k]
        ensures x in Ids(data)
      {
        LevelIdsAreRecords(data, levels, k, x);
      }
      AllCardsWithoutSearch(levels[k], data);
    }
  }

  /** A card is shown on some row exactly when its node is reachable from the
      root and its record matches the search. */
  lemma ShownIffReachableAndMatching(data: seq<Employee>, levels: seq<seq<int>>, term: string, x: int)
    requires OrgTreeOf(data).Ok? && IsLevelDecomposition(OrgTreeOf(data).value, levels)
    ensures (exists k :: 0 <= k < |levels| && x in Rows(levels, FilterBySearch(data, term))[k]) <==>
            Reachable(OrgTreeOf(data).value, x) && x in Ids(FilterBySearch(data, term))
  {
    var t, shown := OrgTreeOf(data).value, FilterBySearch(data, term);
    var rows := Rows(levels, shown);
    LevelsHoldReachable(t, levels, x);
    if k :| 0 <= k < |levels| && x in rows[k] {
      assert rows[k] == VisibleCards(levels[k], shown);
      assert x in levels[k];
    }
    if Reachable(t, x) && x in Ids(shown) {
      var k :| 0 <= k < |levels| && x in levels[k];
      assert rows[k] == VisibleCards(levels[k], shown);
      assert x in rows[k];
    }
  }

  /** No card is shown twice: a card id sits on one row only, and no row
      repeats a card. */
  lemma CardShownOnce(data: seq<Employee>, levels: seq<seq<int>>, term: string, k: nat, m: nat, x: int)
    requires UniqueIds(data) && OrgTreeOf(data).Ok? && IsLevelDecomposition(OrgTreeOf(data).value, levels)
    requires k < |levels| && m < |levels|
    requires x in Rows(levels, FilterBySearch(data, term))[k] && x in Rows(levels, FilterBySearch(data, term))[m]
    ensures k == m
    ensures Distinct(Rows(levels, FilterBySearch(data, term))[k])
  {
    var t := OrgTreeOf(data).value;
    BuiltTreeWellFormed(data);
    InLevelIffAtDepth(t, levels, k, x);
    InLevelIffAtDepth(t, levels, m, x);
    DepthUnique(t, k, m, x);
    LevelDistinct(t, levels, k);
    SubsequenceDistinct(Rows(levels, FilterBySearch(data, term))[k], levels[k]);
  }

  /** Every entry of a subsequence is an entry of the whole. */
  lemma {:induction false} SubsequenceMembers(a: seq<int>, b: seq<int>, x: int)
    requires IsSubsequence(a, b) && x in a
    ensures x in b
    decreases |b|
  {
    if a[0] == b[0] && IsSubsequence(a[1..], b[1..]) {
      if x != a[0] {
        assert x in a[1..];
        SubsequenceMembers(a[1..], b[1..], x);
      }
    } else {
      SubsequenceMembers(a, b[1..], x);
    }
  }

  /** A subsequence of a repeat-free sequence is repeat-free. */
  lemma {:induction false} SubsequenceDistinct(a: seq<int>, b: seq<int>)
    requires IsSubsequence(a, b) && Distinct(b)
    ensures Distinct(a)
    decreases |b|
  {
    if a != [] {
      assert Distinct(b[1..]) by {
        forall i, j | 0 <= i < j < |b[1..]| ensures b[1..][i] != b[1..][j] {
          assert b[1..][i] == b[i + 1] && b[1..][j] == b[j + 1];
        }
      }
      if a[0] == b[0] && IsSubsequence(a[1..], b[1..]) {
        SubsequenceDistinct(a[1..], b[1..]);
        forall i, j | 0 <= i < j < |a| ensures a[i] != a[j] {
          if i == 0 {
            assert a[j] == a[1..][j - 1];
            SubsequenceMembers(a[1..], b[1..], a[j]);
            var n :| 0 <= n < |b[1..]| && b[1..][n] == a[j];
            assert b[n + 1] == a[j];
          } else {
            assert a[i] == a[1..][i - 1] && a[j] == a[1..][j - 1];
          }
        }
      } else {
        SubsequenceDistinct(a, b[1..]);
      }
    }
  }
}
