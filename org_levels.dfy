/** getEmployeesByLevel of lib/org-utils.ts: a breadth-first walk from the root
    that groups node ids by depth. The specification is level by level: level 0
    is the root, and each next level is the concatenation of the child lists of
    the previous level's nodes, in that level's order. */
module OrgLevels {
  import opened EmployeeTypes
  import opened OrgTree

  /** The children of the nodes of `level`, parent by parent, each parent's
      children in child-list order. */
  function NextLevel(t: Tree, level: seq<int>): seq<int>
  {
    if level == [] then []
    else NextLevel(t, level[..|level| - 1]) + Children(t, level[|level| - 1])
  }

  /** A node is in the next level exactly when one of the level's nodes lists
      it as a child. */
  lemma {:induction false} NextLevelMembers(t: Tree, level: seq<int>)
    ensures forall c :: c in NextLevel(t, level) <==> exists p :: p in level && c in Children(t, p)
  {
    if level != [] {
      var prefix := level[..|level| - 1];
      NextLevelMembers(t, prefix);
      assert level == prefix + [level[|level| - 1]];
    }
  }

  /** Appending one node to a level appends its children to the next level. */
  lemma {:induction false} NextLevelAppend(t: Tree, level: seq<int>, x: int)
    ensures NextLevel(t, level + [x]) == NextLevel(t, level) + Children(t, x)
  {
    assert (level + [x])[..|level|] == level;
  }

  /** The result getEmployeesByLevel promises: a non-empty list of non-empty
      levels, starting with the root alone, each level the children of the one
      before it, and the last level with no children. */
  ghost predicate IsLevelDecomposition(t: Tree, levels: seq<seq<int>>)
  {
    |levels| > 0 && levels[0] == [t.root] &&
    (forall k :: 0 <= k < |levels| ==> levels[k] != []) &&
    (forall k :: 0 < k < |levels| ==> FollowsLevel(t, levels, k)) &&
    NextLevel(t, levels[|levels| - 1]) == []
  }

  /** Level `k` is the next level of level k-1. */
  ghost predicate FollowsLevel(t: Tree, levels: seq<seq<int>>, k: int)
    requires 0 < k < |levels|
  {
    levels[k] == NextLevel(t, levels[k - 1])
  }

  /** `x` lies `k` child steps below the root. */
  ghost predicate AtDepth(t: Tree, k: nat, x: int)
    decreases k
  {
    if k == 0 then x == t.root
    else exists p :: AtDepth(t, k - 1, p) && x in Children(t, p)
  }

  /** `x` can be reached from the root by following child lists. */
  ghost predicate Reachable(t: Tree, x: int)
  {
    exists k: nat :: AtDepth(t, k, x)
  }

  // ---------------------------------------------------------------------------
  // The walk itself

  /** Queue entries pairing each id in `s` with the level number `lvl`. */
  function Tagged(s: seq<int>, lvl: int): (r: seq<(int, int)>)
    ensures |r| == |s|
    ensures forall i {:trigger r[i]} :: 0 <= i < |s| ==> r[i] == (s[i], lvl)
  {
    seq(|s|, i requires 0 <= i < |s| => (s[i], lvl))
  }

  lemma TaggedConcat(a: seq<int>, b: seq<int>, lvl: int)
    ensures Tagged(a + b, lvl) == Tagged(a, lvl) + Tagged(b, lvl)
  {
    assert forall i :: 0 <= i < |a + b| ==> Tagged(a + b, lvl)[i] == (Tagged(a, lvl) + Tagged(b, lvl))[i];
  }

  lemma TaggedTail(a: seq<int>, lvl: int)
    requires a != []
    ensures Tagged(a[1..], lvl) == Tagged(a, lvl)[1..]
  {
  }

  /** What level `k` must become once complete: the root for level 0, the
      children of level k-1 otherwise. */
  ghost function LevelTarget(t: Tree, levels: seq<seq<int>>, k: int): seq<int>
    requires 0 <= k < |levels|
  {
    if k == 0 then [t.root] else NextLevel(t, levels[k - 1])
  }

  /** Level `k` is complete. */
  ghost predicate LevelDone(t: Tree, levels: seq<seq<int>>, k: int)
    requires 0 <= k < |levels|
  {
    levels[k] == LevelTarget(t, levels, k)
  }

  /** The levels built so far: all are non-empty, all but the last are
      complete, and the last is a prefix of what it must become. */
  ghost predicate BfsState(t: Tree, levels: seq<seq<int>>)
  {
    (forall k :: 0 <= k < |levels| ==> levels[k] != []) &&
    (forall k :: 0 <= k < |levels| - 1 ==> LevelDone(t, levels, k)) &&
    (|levels| > 0 ==>
       |levels[|levels| - 1]| <= |LevelTarget(t, levels, |levels| - 1)| &&
       levels[|levels| - 1] == LevelTarget(t, levels, |levels| - 1)[..|levels[|levels| - 1]|])
  }

  /** The entries of `s` after its first `n`; none when `s` is shorter. */
  function After(s: seq<int>, n: int): seq<int>
  {
    if 0 <= n <= |s| then s[n..] else []
  }

  /** The queue the walk holds in a given state: the rest of the last level,
      then the children found so far for the level after it. */
  ghost function Pending(t: Tree, levels: seq<seq<int>>): seq<(int, int)>
  {
    if levels == [] then [(t.root, 0)]
    else
      var d := |levels|;
      Tagged(After(LevelTarget(t, levels, d - 1), |levels[d - 1]|), d - 1) + Tagged(NextLevel(t, levels[d - 1]), d)
  }

  /** The entry at the head of the queue belongs to the last level or to the
      one after it. */
  lemma PendingHead(t: Tree, levels: seq<seq<int>>)
    requires Pending(t, levels) != []
    ensures Pending(t, levels)[0].1 == |levels| || Pending(t, levels)[0].1 + 1 == |levels|
  {
  }

  /** The first entry taken from the queue starts level 0. */
  lemma BfsFirstStep(t: Tree, next: seq<seq<int>>)
    requires next == [[t.root]]
    ensures BfsState(t, next) && Pending(t, next) == Tagged(Children(t, t.root), 1)
  {
    assert NextLevel(t, [t.root]) == Children(t, t.root) by {
      NextLevelAppend(t, [], t.root);
    }
  }

  /** A proper prefix grows by the element after it. */
  lemma PrefixExtend(a: seq<int>, b: seq<int>)
    requires |a| < |b| && a == b[..|a|]
    ensures b[..|a| + 1] == a + [b[|a|]]
  {
  }

  /** Appending the next expected node to the unfinished last level keeps
      the state. */
  lemma SameLevelState(t: Tree, levels: seq<seq<int>>, x: int, next: seq<seq<int>>)
    requires BfsState(t, levels) && levels != []
    requires |levels[|levels| - 1]| < |LevelTarget(t, levels, |levels| - 1)|
    requires x == LevelTarget(t, levels, |levels| - 1)[|levels[|levels| - 1]|]
    requires next == levels[|levels| - 1 := levels[|levels| - 1] + [x]]
    ensures BfsState(t, next)
  {
    var d := |levels|;
    var last := levels[d - 1];
    var target := LevelTarget(t, levels, d - 1);
    forall k | 0 <= k < |next|
      ensures next[k] != []
    {
      if k < d - 1 {
        assert next[k] == levels[k];
      }
    }
    forall k | 0 <= k < |next| - 1
      ensures LevelDone(t, next, k)
    {
      assert next[k] == levels[k];
      if k > 0 {
        assert next[k - 1] == levels[k - 1];
      }
      assert LevelDone(t, levels, k);
      assert LevelTarget(t, next, k) == LevelTarget(t, levels, k);
    }
    if d > 1 {
      assert next[d - 2] == levels[d - 2];
    }
    assert LevelTarget(t, next, d - 1) == target;
    PrefixExtend(last, target);
  }

  /** The head belongs to the last level: it is appended there and its
      children are queued for the level after it. */
  lemma BfsSameLevelStep(t: Tree, levels: seq<seq<int>>, grown: seq<seq<int>>, next: seq<seq<int>>)
    requires BfsState(t, levels) && levels != []
    requires |levels[|levels| - 1]| < |LevelTarget(t, levels, |levels| - 1)|
    requires Pending(t, levels) != [] && Pending(t, levels)[0].1 <= |levels|
    requires grown == if Pending(t, levels)[0].1 >= |levels| then levels + [[]] else levels
    requires next == grown[Pending(t, levels)[0].1 := grown[Pending(t, levels)[0].1] + [Pending(t, levels)[0].0]]
    ensures BfsState(t, next)
    ensures Pending(t, next) == Pending(t, levels)[1..] + Tagged(Children(t, Pending(t, levels)[0].0), Pending(t, levels)[0].1 + 1)
  {
    var x := LevelTarget(t, levels, |levels| - 1)[|levels[|levels| - 1]|];
    SamePendingNow(t, levels);
    SameLevelState(t, levels, x, next);
    SamePending(t, levels, x, next);
  }

  /** The queue after a same-level step is the old queue without its head,
      followed by the head's children one level deeper. */
  lemma SamePending(t: Tree, levels: seq<seq<int>>, x: int, next: seq<seq<int>>)
    requires levels != []
    requires |levels[|levels| - 1]| < |LevelTarget(t, levels, |levels| - 1)|
    requires x == LevelTarget(t, levels, |levels| - 1)[|levels[|levels| - 1]|]
    requires next == levels[|levels| - 1 := levels[|levels| - 1] + [x]]
    ensures Pending(t, next) == Pending(t, levels)[1..] + Tagged(Children(t, x), |levels|)
  {
    SamePendingNow(t, levels);
    SamePendingNext(t, levels, x, next);
    QueueAfterAppend(LevelTarget(t, levels, |levels| - 1), |levels[|levels| - 1]|, NextLevel(t, levels[|levels| - 1]),
                     Children(t, x), |levels| - 1, |levels|, Pending(t, levels), Pending(t, next));
  }

  /** While the last level is unfinished, the queue holds the rest of it and
      then the children found so far for the level after it. */
  lemma SamePendingNow(t: Tree, levels: seq<seq<int>>)
    requires levels != []
    requires |levels[|levels| - 1]| < |LevelTarget(t, levels, |levels| - 1)|
    ensures Pending(t, levels) ==
            Tagged(LevelTarget(t, levels, |levels| - 1)[|levels[|levels| - 1]|..], |levels| - 1) +
            Tagged(NextLevel(t, levels[|levels| - 1]), |levels|)
    ensures Pending(t, levels)[0] == (LevelTarget(t, levels, |levels| - 1)[|levels[|levels| - 1]|], |levels| - 1)
  {
  }

  /** The queue after a same-level step: the rest of the last level, then
      the children found so far followed by those of the new node. */
  lemma SamePendingNext(t: Tree, levels: seq<seq<int>>, x: int, next: seq<seq<int>>)
    requires levels != []
    requires |levels[|levels| - 1]| < |LevelTarget(t, levels, |levels| - 1)|
    requires x == LevelTarget(t, levels, |levels| - 1)[|levels[|levels| - 1]|]
    requires next == levels[|levels| - 1 := levels[|levels| - 1] + [x]]
    ensures Pending(t, next) ==
            Tagged(LevelTarget(t, levels, |levels| - 1)[|levels[|levels| - 1]| + 1..], |levels| - 1) +
            Tagged(NextLevel(t, levels[|levels| - 1]) + Children(t, x), |levels|)
  {
    var d := |levels|;
    var last := levels[d - 1];
    if d > 1 {
      assert next[d - 2] == levels[d - 2];
    }
    assert LevelTarget(t, next, d - 1) == LevelTarget(t, levels, d - 1);
    assert next[d - 1] == last + [x];
    NextLevelAppend(t, last, x);
  }

  /** The queue arithmetic of a same-level step: dropping the head of the
      unfinished level and queueing the head's children after the others. */
  lemma QueueAfterAppend(target: seq<int>, n: nat, front: seq<int>, kids: seq<int>, lvl: int, deeper: int,
                         queue: seq<(int, int)>, after: seq<(int, int)>)
    requires n < |target| && deeper == lvl + 1
    requires queue == Tagged(target[n..], lvl) + Tagged(front, deeper)
    requires after == Tagged(target[n + 1..], lvl) + Tagged(front + kids, deeper)
    ensures after == queue[1..] + Tagged(kids, deeper)
  {
    TaggedConcat(front, kids, deeper);
    TaggedTail(target[n..], lvl);
    assert target[n..][1..] == target[n + 1..];
  }

  /** Opening a new level with the first child of the complete last level
      keeps the state. */
  lemma {:induction false} NewLevelState(t: Tree, levels: seq<seq<int>>, x: int, next: seq<seq<int>>)
    requires BfsState(t, levels) && levels != []
    requires levels[|levels| - 1] == LevelTarget(t, levels, |levels| - 1)
    requires NextLevel(t, levels[|levels| - 1]) != [] && x == NextLevel(t, levels[|levels| - 1])[0]
    requires next == levels + [[x]]
    ensures BfsState(t, next)
  {
    var d := |levels|;
    forall k | 0 <= k < d
      ensures LevelDone(t, next, k)
    {
      assert next[k] == levels[k];
      if k > 0 {
        assert next[k - 1] == levels[k - 1];
      }
      if k < d - 1 {
        assert LevelDone(t, levels, k);
      }
      assert LevelTarget(t, next, k) == LevelTarget(t, levels, k);
    }
    assert next[d - 1] == levels[d - 1];
    assert LevelTarget(t, next, d)[..1] == [x];
  }

  /** The last level is complete and the head starts a new level: it opens
      that level and its children are queued for the level after it. */
  lemma BfsNewLevelStep(t: Tree, levels: seq<seq<int>>, grown: seq<seq<int>>, next: seq<seq<int>>)
    requires BfsState(t, levels) && levels != []
    requires |levels[|levels| - 1]| == |LevelTarget(t, levels, |levels| - 1)|
    requires Pending(t, levels) != [] && Pending(t, levels)[0].1 <= |levels|
    requires grown == if Pending(t, levels)[0].1 >= |levels| then levels + [[]] else levels
    requires next == grown[Pending(t, levels)[0].1 := grown[Pending(t, levels)[0].1] + [Pending(t, levels)[0].0]]
    ensures BfsState(t, next)
    ensures Pending(t, next) == Pending(t, levels)[1..] + Tagged(Children(t, Pending(t, levels)[0].0), Pending(t, levels)[0].1 + 1)
  {
    var front := NextLevel(t, levels[|levels| - 1]);
    NewPendingNow(t, levels);
    var x := front[0];
    OpenLevel(levels, grown, next, x);
    NewLevelState(t, levels, x, next);
    NewPendingNext(t, levels, x, next);
    TaggedTail(front, |levels|);
  }

  /** With the last level complete, the queue holds only the children found
      for the level after it. */
  lemma NewPendingNow(t: Tree, levels: seq<seq<int>>)
    requires levels != [] && Pending(t, levels) != []
    requires |levels[|levels| - 1]| == |LevelTarget(t, levels, |levels| - 1)|
    ensures NextLevel(t, levels[|levels| - 1]) != []
    ensures Pending(t, levels) == Tagged(NextLevel(t, levels[|levels| - 1]), |levels|)
  {
    var d := |levels|;
    var rest := After(LevelTarget(t, levels, d - 1), |levels[d - 1]|);
    assert rest == [];
    assert Tagged(rest, d - 1) == [];
  }

  /** The queue after opening a level with `x`: the other children of the
      complete level, then the children of `x` one level deeper. */
  lemma NewPendingNext(t: Tree, levels: seq<seq<int>>, x: int, next: seq<seq<int>>)
    requires levels != [] && NextLevel(t, levels[|levels| - 1]) != []
    requires x == NextLevel(t, levels[|levels| - 1])[0]
    requires next == levels + [[x]]
    ensures Pending(t, next) ==
            Tagged(NextLevel(t, levels[|levels| - 1])[1..], |levels|) + Tagged(Children(t, x), |levels| + 1)
  {
    var d := |levels|;
    assert next[d - 1] == levels[d - 1];
    assert next[d] == [x];
    assert LevelTarget(t, next, d) == NextLevel(t, levels[d - 1]);
    assert NextLevel(t, [x]) == Children(t, x) by {
      NextLevelAppend(t, [], x);
    }
  }

  /** An empty queue means the levels are complete. */
  lemma BfsDone(t: Tree, levels: seq<seq<int>>)
    requires BfsState(t, levels) && Pending(t, levels) == []
    ensures IsLevelDecomposition(t, levels)
  {
    var d := |levels|;
    var last := levels[d - 1];
    var target := LevelTarget(t, levels, d - 1);
    assert |target[|last|..]| == 0 && NextLevel(t, last) == [] by {
      assert |Tagged(After(target, |last|), d - 1)| + |Tagged(NextLevel(t, last), d)| == 0;
    }
    assert LevelDone(t, levels, d - 1);
    CompleteLevels(t, levels);
  }

  /** Levels that are all complete, the last one included, and whose last
      level has no children form the decomposition. */
  lemma CompleteLevels(t: Tree, levels: seq<seq<int>>)
    requires BfsState(t, levels) && |levels| > 0 && LevelDone(t, levels, |levels| - 1)
    requires NextLevel(t, levels[|levels| - 1]) == []
    ensures IsLevelDecomposition(t, levels)
  {
    assert LevelDone(t, levels, 0);
    forall k | 0 < k < |levels|
      ensures FollowsLevel(t, levels, k)
    {
      assert LevelDone(t, levels, k);
    }
  }

  /** Queueing one more child extends the tagged entries by one. */
  lemma TaggedStep(s: seq<int>, i: int, next: int, lvl: int)
    requires 0 <= i < |s| && next == i + 1
    ensures Tagged(s[..next], lvl) == Tagged(s[..i], lvl) + [(s[i], lvl)]
  {
    assert Tagged(s[..next], lvl)[i] == (s[i], lvl);
  }

  /** One turn of the walk, whichever case it falls in: the head is recorded
      in its level and its children are queued one level deeper. */
  lemma BfsStep(t: Tree, levels: seq<seq<int>>, grown: seq<seq<int>>, next: seq<seq<int>>)
    requires BfsState(t, levels) && Pending(t, levels) != []
    requires Pending(t, levels)[0].1 <= |levels|
    requires grown == if Pending(t, levels)[0].1 >= |levels| then levels + [[]] else levels
    requires next == grown[Pending(t, levels)[0].1 := grown[Pending(t, levels)[0].1] + [Pending(t, levels)[0].0]]
    ensures BfsState(t, next)
    ensures Pending(t, next) == Pending(t, levels)[1..] + Tagged(Children(t, Pending(t, levels)[0].0), Pending(t, levels)[0].1 + 1)
  {
    if levels == [] {
      OpenLevel(levels, grown, next, t.root);
      BfsFirstStep(t, next);
    } else if |levels[|levels| - 1]| < |LevelTarget(t, levels, |levels| - 1)| {
      BfsSameLevelStep(t, levels, grown, next);
    } else {
      BfsNewLevelStep(t, levels, grown, next);
    }
  }

  /** Opening a level and appending to it is appending a one-node level. */
  lemma OpenLevel(levels: seq<seq<int>>, grown: seq<seq<int>>, next: seq<seq<int>>, x: int)
    requires grown == levels + [[]] && next == grown[|levels| := grown[|levels|] + [x]]
    ensures next == levels + [[x]]
  {
    assert next[|levels|] == [x];
  }

  /** `c` is the root or a child of a node in `seen`. */
  ghost predicate FoundFrom(t: Tree, seen: set<int>, c: int)
  {
    c == t.root ||
    exists p, a :: p in seen && p in t.nodes && 0 <= a < |t.nodes[p].children| && ChildAt(t, p, a) == c
  }

  /** What the walk has seen: visited ids are nodes, queued ids are distinct
      unvisited nodes, and every visited or queued id is the root or a child
      of a visited node. */
  ghost predicate Discovered(t: Tree, visited: set<int>, queue: seq<(int, int)>)
  {
    visited <= t.nodes.Keys &&
    (forall i :: 0 <= i < |queue| ==>
       queue[i].0 in t.nodes && queue[i].0 !in visited && FoundFrom(t, visited, queue[i].0)) &&
    (forall i, j :: 0 <= i < j < |queue| ==> queue[i].0 != queue[j].0) &&
    (forall v :: v in visited ==> FoundFrom(t, visited, v))
  }

  /** A child of the node at the head of the queue is a node other than the
      root, is not visited and is not queued: its only parent is the head,
      which is not visited yet. */
  lemma FreshChild(t: Tree, visited: set<int>, queue: seq<(int, int)>, a: int)
    requires WellFormed(t) && Discovered(t, visited, queue) && queue != []
    requires 0 <= a < |t.nodes[queue[0].0].children|
    ensures ChildAt(t, queue[0].0, a) in t.nodes && ChildAt(t, queue[0].0, a) != t.root
    ensures ChildAt(t, queue[0].0, a) !in visited
    ensures forall i :: 0 <= i < |queue| ==> queue[i].0 != ChildAt(t, queue[0].0, a)
  {
    var x := queue[0].0;
    forall p, b | p in visited && p in t.nodes && 0 <= b < |t.nodes[p].children|
      ensures ChildAt(t, p, b) != ChildAt(t, x, a)
    {
    }
  }

  /** After a step every queued id is an unvisited node found from a visited
      one. */
  lemma StepQueued(t: Tree, visited: set<int>, queue: seq<(int, int)>, tag: int, next: seq<(int, int)>)
    requires WellFormed(t) && Discovered(t, visited, queue) && queue != []
    requires next == queue[1..] + Tagged(t.nodes[queue[0].0].children, tag)
    ensures forall i :: 0 <= i < |next| ==>
              next[i].0 in t.nodes && next[i].0 !in visited + {queue[0].0} &&
              FoundFrom(t, visited + {queue[0].0}, next[i].0)
  {
    var x := queue[0].0;
    var n := |queue| - 1;
    forall i | 0 <= i < |next|
      ensures next[i].0 in t.nodes && next[i].0 !in visited + {x} && FoundFrom(t, visited + {x}, next[i].0)
    {
      if i < n {
        assert next[i] == queue[i + 1];
        assert FoundFrom(t, visited, queue[i + 1].0);
      } else {
        assert next[i].0 == ChildAt(t, x, i - n);
        FreshChild(t, visited, queue, i - n);
      }
    }
  }

  /** After a step no id is queued twice. */
  lemma StepDistinct(t: Tree, visited: set<int>, queue: seq<(int, int)>, tag: int, next: seq<(int, int)>)
    requires WellFormed(t) && Discovered(t, visited, queue) && queue != []
    requires next == queue[1..] + Tagged(t.nodes[queue[0].0].children, tag)
    ensures forall i, j :: 0 <= i < j < |next| ==> next[i].0 != next[j].0
  {
    var x := queue[0].0;
    var n := |queue| - 1;
    forall i, j | 0 <= i < j < |next|
      ensures next[i].0 != next[j].0
    {
      if j < n {
        assert next[i] == queue[i + 1] && next[j] == queue[j + 1];
      } else if i < n {
        assert next[i] == queue[i + 1] && next[j].0 == ChildAt(t, x, j - n);
        FreshChild(t, visited, queue, j - n);
      } else {
        assert next[i].0 == ChildAt(t, x, i - n) && next[j].0 == ChildAt(t, x, j - n);
      }
    }
  }

  /** Taking the head and queueing its children keeps Discovered and shrinks
      the set of unvisited nodes. */
  lemma StepDiscovered(t: Tree, visited: set<int>, queue: seq<(int, int)>, tag: int, next: seq<(int, int)>)
    requires WellFormed(t) && Discovered(t, visited, queue) && queue != []
    requires next == queue[1..] + Tagged(t.nodes[queue[0].0].children, tag)
    ensures Discovered(t, visited + {queue[0].0}, next)
    ensures |t.nodes.Keys - (visited + {queue[0].0})| < |t.nodes.Keys - visited|
  {
    var x := queue[0].0;
    var seen := visited + {x};
    StepQueued(t, visited, queue, tag, next);
    StepDistinct(t, visited, queue, tag, next);
    forall v | v in seen
      ensures FoundFrom(t, seen, v)
    {
      assert FoundFrom(t, visited, v);
    }
    assert t.nodes.Keys - seen == (t.nodes.Keys - visited) - {x};
  }

  /** The inner loop of getEmployeesByLevel: pushes each child, in order, at
      the back of the queue with level `lvl`. */
  method EnqueueAll(queue: seq<(int, int)>, children: seq<int>, lvl: int) returns (r: seq<(int, int)>)
    ensures r == queue + Tagged(children, lvl)
  {
    r := queue;
    var i := 0;
    while i < |children|
      invariant 0 <= i <= |children|
      invariant r == queue + Tagged(children[..i], lvl)
    {
      r := r + [(children[i], lvl)];
      i := i + 1;
      TaggedStep(children, i - 1, i, lvl);
    }
    assert children[..i] == children;
  }

  /** The loop invariant of getEmployeesByLevel: the levels built so far,
      the queue they imply, and what has been seen. */
  ghost predicate Walking(t: Tree, levels: seq<seq<int>>, queue: seq<(int, int)>, visited: set<int>)
  {
    WellFormed(t) && BfsState(t, levels) && queue == Pending(t, levels) && Discovered(t, visited, queue)
  }

  /** The walk starts with the root alone in the queue. */
  lemma WalkStart(t: Tree)
    requires WellFormed(t)
    ensures Walking(t, [], [(t.root, 0)], {})
  {
  }

  /** The head of the queue is a node, at the last level or the one after. */
  lemma WalkHead(t: Tree, levels: seq<seq<int>>, queue: seq<(int, int)>, visited: set<int>)
    requires Walking(t, levels, queue, visited) && queue != []
    ensures queue[0].0 in t.nodes && queue[0].1 <= |levels|
  {
    PendingHead(t, levels);
  }

  /** One turn of the loop keeps the invariant and visits one more node. */
  lemma WalkStep(t: Tree, levels: seq<seq<int>>, queue: seq<(int, int)>, visited: set<int>,
                 grown: seq<seq<int>>, next: seq<seq<int>>, rest: seq<(int, int)>)
    requires Walking(t, levels, queue, visited) && queue != [] && queue[0].1 <= |levels|
    requires grown == if queue[0].1 >= |levels| then levels + [[]] else levels
    requires next == grown[queue[0].1 := grown[queue[0].1] + [queue[0].0]]
    requires rest == queue[1..] + Tagged(t.nodes[queue[0].0].children, queue[0].1 + 1)
    ensures Walking(t, next, rest, visited + {queue[0].0})
    ensures |t.nodes.Keys - (visited + {queue[0].0})| < |t.nodes.Keys - visited|
  {
    BfsStep(t, levels, grown, next);
    StepDiscovered(t, visited, queue, queue[0].1 + 1, rest);
  }

  /** An empty queue ends the walk with the complete levels. */
  lemma WalkDone(t: Tree, levels: seq<seq<int>>, visited: set<int>)
    requires Walking(t, levels, [], visited)
    ensures IsLevelDecomposition(t, levels)
  {
    BfsDone(t, levels);
  }

  /** getEmployeesByLevel: a queue of (node, level) pairs starting with the
      root at level 0; each node taken from the front is appended to its
      level, opening the level first if needed, and its children are queued
      one level deeper. Levels hold node ids; a node's record is in `t.nodes`.
      The walk terminates because a well-formed tree gives every node at most
      one parent and never makes the root a child. */
  method GetEmployeesByLevel(t: Tree) returns (levels: seq<seq<int>>)
    requires WellFormed(t)
    ensures IsLevelDecomposition(t, levels)
  {
    levels := [];
    var queue: seq<(int, int)> := [(t.root, 0)];
    ghost var visited: set<int> := {};
    WalkStart(t);
    while |queue| > 0
      invariant Walking(t, levels, queue, visited)
      decreases |t.nodes.Keys - visited|
    {
      var (node, level) := queue[0];
      WalkHead(t, levels, queue, visited);
      ghost var before, taken := levels, queue;
      queue := queue[1..];
      if level >= |levels| {
        levels := levels + [[]];
      }
      ghost var grown := levels;
      levels := levels[level := levels[level] + [node]];
      queue := EnqueueAll(queue, t.nodes[node].children, level + 1);
      WalkStep(t, before, taken, visited, grown, levels, queue);
      visited := visited + {node};
    }
    WalkDone(t, levels, visited);
  }
}
