/** buildOrgTree of lib/org-utils.ts: records that name their parent to a rooted tree.
    A node is identified by its record's id; the tree is the root id and a
    map from id to node, a node being the record plus its ordered child ids. */
module OrgTree {
  import opened EmployeeTypes

  datatype Node = Node(emp: Employee, children: seq<int>)

  datatype Tree = Tree(root: int, nodes: map<int, Node>)

  datatype BuildError = NoRootFound

  datatype Result<T> = Ok(value: T) | Err(error: BuildError)

  /** The children of `x`; a node that is not in the map has none. */
  function Children(t: Tree, x: int): seq<int>
  {
    if x in t.nodes then t.nodes[x].children else []
  }

  /** The id of the last record with a falsy parent, scanning in input order. */
  function LastRoot(s: seq<Employee>): Option<int>
  {
    if s == [] then None
    else if ParentOf(s[|s| - 1]).None? then Some(s[|s| - 1].id)
    else LastRoot(s[..|s| - 1])
  }

  /** There is a root exactly when some record has a falsy parent, and the
      root is the id of the last such record. */
  lemma {:induction false} LastRootSpec(s: seq<Employee>)
    ensures LastRoot(s).None? <==> forall i :: 0 <= i < |s| ==> ParentOf(s[i]).Some?
    ensures LastRoot(s).Some? ==>
              exists i :: 0 <= i < |s| && s[i].id == LastRoot(s).value && ParentOf(s[i]).None? &&
                          forall j :: i < j < |s| ==> ParentOf(s[j]).Some?
  {
    if s != [] && ParentOf(s[|s| - 1]).Some? {
      var prefix := s[..|s| - 1];
      LastRootSpec(prefix);
      assert forall i :: 0 <= i < |prefix| ==> prefix[i] == s[i];
    }
  }

  /** The last record carrying `id`: the one whose node survives in the map. */
  function LastWithId(s: seq<Employee>, id: int): (r: Option<Employee>)
    ensures r.None? <==> id !in Ids(s)
    ensures r.Some? ==> r.value.id == id
  {
    if s == [] then None
    else if s[|s| - 1].id == id then Some(s[|s| - 1])
    else
      var r := LastWithId(s[..|s| - 1], id);
      assert Ids(s) == Ids(s[..|s| - 1]) + {s[|s| - 1].id};
      r
  }

  /** The record LastWithId picks is the last one in the list with that id. */
  lemma {:induction false} LastWithIdIsLast(s: seq<Employee>, id: int)
    requires id in Ids(s)
    ensures exists i :: 0 <= i < |s| && s[i] == LastWithId(s, id).value &&
                        forall j :: i < j < |s| ==> s[j].id != id
  {
    if s[|s| - 1].id != id {
      var prefix := s[..|s| - 1];
      assert Ids(s) == Ids(prefix) + {s[|s| - 1].id};
      LastWithIdIsLast(prefix, id);
      assert forall i :: 0 <= i < |prefix| ==> prefix[i] == s[i];
    }
  }

  /** The ids of the records whose truthy parent is `p`, in input order. */
  function ChildrenOf(s: seq<Employee>, p: int): (r: seq<int>)
    ensures |r| <= |s|
  {
    if s == [] then []
    else ChildrenOf(s[..|s| - 1], p) + (if ParentOf(s[|s| - 1]) == Some(p) then [s[|s| - 1].id] else [])
  }

  /** A child list holds exactly the ids of the records naming `p` as parent. */
  lemma {:induction false} ChildrenOfMembers(s: seq<Employee>, p: int)
    ensures forall c :: c in ChildrenOf(s, p) <==>
                        exists j :: 0 <= j < |s| && s[j].id == c && ParentOf(s[j]) == Some(p)
  {
    if s != [] {
      var prefix := s[..|s| - 1];
      ChildrenOfMembers(prefix, p);
      assert forall i :: 0 <= i < |prefix| ==> prefix[i] == s[i];
    }
  }

  /** One node per id, holding the record that id last named and its children. */
  function NodeMap(s: seq<Employee>): map<int, Node>
  {
    map id | id in Ids(s) :: Node(LastWithId(s, id).value, ChildrenOf(s, id))
  }

  /** What buildOrgTree returns, or the error it throws. */
  function OrgTreeOf(s: seq<Employee>): Result<Tree>
  {
    match LastRoot(s)
    case None => Err(NoRootFound)
    case Some(r) => Ok(Tree(r, NodeMap(s)))
  }

  /** The shape a tree has when built from records with unique ids: the root is
      a node, every child is a node other than the root, and each id occurs at
      most once among all child lists. */
  ghost predicate WellFormed(t: Tree)
  {
    t.root in t.nodes &&
    (forall p, a :: p in t.nodes && 0 <= a < |t.nodes[p].children| ==>
       ChildAt(t, p, a) in t.nodes && ChildAt(t, p, a) != t.root) &&
    (forall p, q, a, b ::
       p in t.nodes && q in t.nodes && 0 <= a < |t.nodes[p].children| && 0 <= b < |t.nodes[q].children| &&
       ChildAt(t, p, a) == ChildAt(t, q, b)
       ==> p == q && a == b)
  }

  /** The `a`-th child of node `p`. */
  function ChildAt(t: Tree, p: int, a: int): int
    requires p in t.nodes && 0 <= a < |t.nodes[p].children|
  {
    t.nodes[p].children[a]
  }

  /** In a well-formed tree a child is a node other than the root, listed
      under a node. */
  lemma ChildIsNode(t: Tree, p: int, x: int)
    requires WellFormed(t) && x in Children(t, p)
    ensures p in t.nodes && x in t.nodes && x != t.root
  {
    var a :| 0 <= a < |t.nodes[p].children| && t.nodes[p].children[a] == x;
    assert ChildAt(t, p, a) == x;
  }

  /** In a well-formed tree a node is listed under at most one parent. */
  lemma OneParent(t: Tree, x: int, p: int, q: int)
    requires WellFormed(t) && x in Children(t, p) && x in Children(t, q)
    ensures p == q
  {
    var a :| 0 <= a < |t.nodes[p].children| && t.nodes[p].children[a] == x;
    var b :| 0 <= b < |t.nodes[q].children| && t.nodes[q].children[b] == x;
    assert ChildAt(t, p, a) == ChildAt(t, q, b);
  }

  /** In a well-formed tree no child list repeats an id. */
  lemma ChildrenDistinct(t: Tree, p: int, i: int, j: int)
    requires WellFormed(t) && 0 <= i < j < |Children(t, p)|
    ensures Children(t, p)[i] != Children(t, p)[j]
  {
    assert ChildAt(t, p, i) != ChildAt(t, p, j);
  }

  /** The node map after the creating loop has visited the first `i` records. */
  ghost function Created(s: seq<Employee>, i: int): map<int, Node>
    requires 0 <= i <= |s|
  {
    map k | k in Ids(s[..i]) :: Node(LastWithId(s[..i], k).value, [])
  }

  /** The node map after the attaching loop has visited the first `i` records. */
  ghost function Attached(s: seq<Employee>, i: int): map<int, Node>
    requires 0 <= i <= |s|
  {
    map k | k in Ids(s) :: Node(LastWithId(s, k).value, ChildrenOf(s[..i], k))
  }

  /** Creating the node of one more record adds it, replacing an earlier
      node with the same id. */
  lemma CreateStep(s: seq<Employee>, i: int, next: int)
    requires 0 <= i < |s| && next == i + 1
    ensures Created(s, next) == Created(s, i)[s[i].id := Node(s[i], [])]
  {
    assert s[..next][..i] == s[..i];
    assert Ids(s[..next]) == Ids(s[..i]) + {s[i].id};
  }

  /** Scanning one more record appends its id to the child list of its
      truthy parent, and to no other. */
  lemma ChildrenOfStep(s: seq<Employee>, i: int, next: int, k: int)
    requires 0 <= i < |s| && next == i + 1
    ensures ChildrenOf(s[..next], k) == ChildrenOf(s[..i], k) + (if ParentOf(s[i]) == Some(k) then [s[i].id] else [])
  {
    assert s[..next][..i] == s[..i];
  }

  /** Scanning one more record makes it the root when its parent is falsy. */
  lemma LastRootStep(s: seq<Employee>, i: int, next: int)
    requires 0 <= i < |s| && next == i + 1
    ensures LastRoot(s[..next]) == if ParentOf(s[i]).None? then Some(s[i].id) else LastRoot(s[..i])
  {
    assert s[..next][..i] == s[..i];
  }

  /** A record whose parent has a node is appended to that node's children. */
  lemma AttachToParent(s: seq<Employee>, i: int, next: int, p: int)
    requires 0 <= i < |s| && next == i + 1 && ParentOf(s[i]) == Some(p) && p in Attached(s, i)
    ensures Attached(s, next) == Attached(s, i)[p := Attached(s, i)[p].(children := Attached(s, i)[p].children + [s[i].id])]
  {
    var before, after := Attached(s, i), Attached(s, next);
    var expected := before[p := before[p].(children := before[p].children + [s[i].id])];
    forall k | k in after
      ensures after[k] == expected[k]
    {
      ChildrenOfStep(s, i, next, k);
    }
    assert after == expected;
  }

  /** A root record, or one whose parent has no node, changes no child list. */
  lemma AttachNothing(s: seq<Employee>, i: int, next: int)
    requires 0 <= i < |s| && next == i + 1 && (ParentOf(s[i]).None? || ParentOf(s[i]).value !in Attached(s, i))
    ensures Attached(s, next) == Attached(s, i)
  {
    var before, after := Attached(s, i), Attached(s, next);
    forall k | k in after
      ensures after[k] == before[k]
    {
      ChildrenOfStep(s, i, next, k);
    }
    assert after == before;
  }

  /** The creating loop ends where the attaching loop starts. */
  lemma CreatedIsUnattached(s: seq<Employee>)
    ensures Created(s, |s|) == Attached(s, 0)
  {
    assert s[..|s|] == s;
    assert s[..0] == [];
  }

  /** The attaching loop ends at NodeMap. */
  lemma AttachedIsNodeMap(s: seq<Employee>)
    ensures Attached(s, |s|) == NodeMap(s)
  {
    assert s[..|s|] == s;
  }

  /** buildOrgTree: one node per record, then each record is appended to its
      parent's children or, having a falsy parent, becomes the root. */
  method BuildOrgTree(employees: seq<Employee>) returns (r: Result<Tree>)
    ensures r == OrgTreeOf(employees)
  {
    var nodes: map<int, Node> := map[];
    var i := 0;
    assert employees[..0] == [];
    while i < |employees|
      invariant 0 <= i <= |employees|
      invariant nodes == Created(employees, i)
    {
      var emp := employees[i];
      nodes := nodes[emp.id := Node(emp, [])];
      i := i + 1;
      CreateStep(employees, i - 1, i);
    }
    CreatedIsUnattached(employees);

    var root: Option<int> := None;
    i := 0;
    while i < |employees|
      invariant 0 <= i <= |employees|
      invariant nodes == Attached(employees, i)
      invariant root == LastRoot(employees[..i])
    {
      var emp := employees[i];
      ghost var scanned := i;
      if ParentOf(emp).None? {
        root := Some(emp.id);
        AttachNothing(employees, scanned, i + 1);
      } else {
        var p := ParentOf(emp).value;
        assert emp.id in Ids(employees);
        if p in nodes && emp.id in nodes {
          AttachToParent(employees, scanned, i + 1, p);
          nodes := nodes[p := nodes[p].(children := nodes[p].children + [emp.id])];
        } else {
          AttachNothing(employees, scanned, i + 1);
        }
      }
      i := i + 1;
      LastRootStep(employees, scanned, i);
    }
    assert employees[..i] == employees;
    AttachedIsNodeMap(employees);

    if root.None? {
      return Err(NoRootFound);
    }
    return Ok(Tree(root.value, nodes));
  }

  /** buildOrgTree throws exactly when no record has a falsy parent. */
  lemma NoRootIffError(s: seq<Employee>)
    ensures OrgTreeOf(s).Err? <==> forall i :: 0 <= i < |s| ==> ParentOf(s[i]).Some?
  {
    LastRootSpec(s);
  }

  /** With several parentless records, the root is the last of them. */
  lemma RootIsLastParentless(s: seq<Employee>)
    requires OrgTreeOf(s).Ok?
    ensures exists i :: 0 <= i < |s| && s[i].id == OrgTreeOf(s).value.root && ParentOf(s[i]).None? &&
                        forall j :: i < j < |s| ==> ParentOf(s[j]).Some?
  {
    LastRootSpec(s);
  }

  /** With exactly one parentless record, the root is that record's id. */
  lemma SingleRootSelected(s: seq<Employee>, i: int)
    requires 0 <= i < |s| && ParentOf(s[i]).None?
    requires forall j :: 0 <= j < |s| && j != i ==> ParentOf(s[j]).Some?
    ensures OrgTreeOf(s).Ok? && OrgTreeOf(s).value.root == s[i].id
  {
    LastRootSpec(s);
    var k :| 0 <= k < |s| && s[k].id == LastRoot(s).value && ParentOf(s[k]).None? &&
             forall j :: k < j < |s| ==> ParentOf(s[j]).Some?;
    assert k == i;
  }

  /** Child lists follow input order: the records of a longer list append
      their children after those of its prefix. */
  lemma {:induction false} ChildrenOfConcat(s: seq<Employee>, u: seq<Employee>, p: int)
    ensures ChildrenOf(s + u, p) == ChildrenOf(s, p) + ChildrenOf(u, p)
    decreases |u|
  {
    if u == [] {
      assert s + u == s;
    } else {
      var n := |u| - 1;
      assert (s + u)[..|s + u| - 1] == s + u[..n];
      ChildrenOfConcat(s, u[..n], p);
    }
  }

  /** Each node carries its record's fields unchanged. */
  lemma NodeKeepsRecord(s: seq<Employee>, i: int)
    requires UniqueIds(s) && 0 <= i < |s|
    ensures s[i].id in NodeMap(s) && NodeMap(s)[s[i].id].emp == s[i]
  {
    assert s[i].id in Ids(s);
    LastWithIdIsLast(s, s[i].id);
    var k :| 0 <= k < |s| && s[k] == LastWithId(s, s[i].id).value && forall j :: k < j < |s| ==> s[j].id != s[i].id;
    assert k == i;
  }

  /** With unique ids, a child list never names the same record twice. */
  lemma {:induction false} ChildrenOfDistinct(s: seq<Employee>, p: int)
    requires UniqueIds(s)
    ensures forall a, b :: 0 <= a < b < |ChildrenOf(s, p)| ==> ChildrenOf(s, p)[a] != ChildrenOf(s, p)[b]
  {
    if s != [] {
      var n := |s| - 1;
      var prefix := s[..n];
      assert forall i :: 0 <= i < n ==> prefix[i] == s[i];
      ChildrenOfDistinct(prefix, p);
      ChildrenOfMembers(prefix, p);
      forall c | c in ChildrenOf(prefix, p)
        ensures c != s[n].id
      {
        var j :| 0 <= j < n && prefix[j].id == c && ParentOf(prefix[j]) == Some(p);
        assert s[j].id != s[n].id;
      }
      var head := ChildrenOf(prefix, p);
      assert ChildrenOf(s, p) == head + (if ParentOf(s[n]) == Some(p) then [s[n].id] else []);
      forall a, b | 0 <= a < b < |ChildrenOf(s, p)|
        ensures ChildrenOf(s, p)[a] != ChildrenOf(s, p)[b]
      {
        assert ChildrenOf(s, p)[a] == head[a];
        if b < |head| {
          assert ChildrenOf(s, p)[b] == head[b];
        } else {
          assert ChildrenOf(s, p)[b] == s[n].id;
          assert head[a] in head;
        }
      }
    }
  }

  /** A record whose parent id names no record is in no node's child list. */
  lemma OrphanExcluded(s: seq<Employee>, i: int, q: int)
    requires UniqueIds(s) && 0 <= i < |s|
    requires ParentOf(s[i]) == Some(q) && q !in Ids(s)
    ensures forall p :: p in NodeMap(s) ==> s[i].id !in NodeMap(s)[p].children
  {
    forall p | p in NodeMap(s)
      ensures s[i].id !in NodeMap(s)[p].children
    {
      ChildrenOfMembers(s, p);
      forall j | 0 <= j < |s| && s[j].id == s[i].id
        ensures ParentOf(s[j]) != Some(p)
      {
        assert j == i;
      }
    }
  }

  /** Built from records with unique ids, the tree is well formed. */
  lemma BuiltTreeWellFormed(s: seq<Employee>)
    requires UniqueIds(s) && OrgTreeOf(s).Ok?
    ensures WellFormed(OrgTreeOf(s).value)
  {
    var t := OrgTreeOf(s).value;
    RootIsLastParentless(s);
    forall p, a | p in t.nodes && 0 <= a < |t.nodes[p].children|
      ensures ChildAt(t, p, a) in t.nodes && ChildAt(t, p, a) != t.root
    {
      BuiltChildIsNode(s, p, a);
    }
    forall p, q, a, b |
      p in t.nodes && q in t.nodes && 0 <= a < |t.nodes[p].children| && 0 <= b < |t.nodes[q].children| &&
      ChildAt(t, p, a) == ChildAt(t, q, b)
      ensures p == q && a == b
    {
      BuiltChildHasOneParent(s, p, q, a, b);
    }
  }

  /** Every child in the built tree is a node of it and is not the root. */
  lemma BuiltChildIsNode(s: seq<Employee>, p: int, a: int)
    requires UniqueIds(s) && OrgTreeOf(s).Ok?
    requires p in OrgTreeOf(s).value.nodes && 0 <= a < |OrgTreeOf(s).value.nodes[p].children|
    ensures ChildAt(OrgTreeOf(s).value, p, a) in OrgTreeOf(s).value.nodes
    ensures ChildAt(OrgTreeOf(s).value, p, a) != OrgTreeOf(s).value.root
  {
    var t := OrgTreeOf(s).value;
    RootIsLastParentless(s);
    var ri :| 0 <= ri < |s| && s[ri].id == t.root && ParentOf(s[ri]).None?;
    var c := ChildAt(t, p, a);
    ChildrenOfMembers(s, p);
    assert c in ChildrenOf(s, p);
    var j :| 0 <= j < |s| && s[j].id == c && ParentOf(s[j]) == Some(p);
    assert c in Ids(s);
    assert j != ri;
  }

  /** A child occurs once in the built tree: under one parent, at one index. */
  lemma BuiltChildHasOneParent(s: seq<Employee>, p: int, q: int, a: int, b: int)
    requires UniqueIds(s) && OrgTreeOf(s).Ok?
    requires p in OrgTreeOf(s).value.nodes && 0 <= a < |OrgTreeOf(s).value.nodes[p].children|
    requires q in OrgTreeOf(s).value.nodes && 0 <= b < |OrgTreeOf(s).value.nodes[q].children|
    requires ChildAt(OrgTreeOf(s).value, p, a) == ChildAt(OrgTreeOf(s).value, q, b)
    ensures p == q && a == b
  {
    var t := OrgTreeOf(s).value;
    var c := t.nodes[p].children[a];
    ChildrenOfMembers(s, p);
    ChildrenOfMembers(s, q);
    assert c in ChildrenOf(s, p);
    assert t.nodes[q].children[b] in ChildrenOf(s, q);
    var j :| 0 <= j < |s| && s[j].id == c && ParentOf(s[j]) == Some(p);
    var k :| 0 <= k < |s| && s[k].id == c && ParentOf(s[k]) == Some(q);
    assert j == k;
    ChildrenOfDistinct(s, p);
  }
}
