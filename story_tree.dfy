/** The story outline: every StoryNodeItem of every view lives in one arena
    (a sequence indexed by node id). A node carries the Uuid of the story
    element it shows, the element's type, its ordered Children and its Parent
    back-reference. Parentless nodes are the view roots (Explorer, Narrator,
    TrashCan). */
module StoryTree {
  import opened Wrappers

  type NodeId = nat
  /** A story element's Guid; only equality is ever used. */
  type Uuid = nat

  datatype StoryItemType =
    | StoryOverview | Folder | Section | Problem | Character | Setting
    | Scene | Notes | Web | TrashCan

  datatype StoryNode = StoryNode(
    uuid: Uuid,
    kind: StoryItemType,
    children: seq<NodeId>,
    parent: Option<NodeId>)

  /** StoryNodeItem.IsRoot: the node has no Parent. */
  predicate IsRoot(n: StoryNode) {
    n.parent.None?
  }

  /** The arena is a forest: Parent and Children agree, no node is listed twice
      among its parent's Children, and the ghost `depth` counts Parent links
      (this is what makes the Parent chains finite). */
  ghost predicate WellFormed(nodes: seq<StoryNode>, depth: seq<nat>) {
    && |depth| == |nodes|
    && ChildrenPointBack(nodes)
    && ParentsListChild(nodes, depth)
    && ChildrenDistinct(nodes)
    && ChildDepths(nodes, depth)
  }

  /** Every child lists its parent as Parent. */
  ghost predicate ChildrenPointBack(nodes: seq<StoryNode>) {
    forall p, c {:trigger c in nodes[p].children} ::
      0 <= p < |nodes| && c in nodes[p].children ==> c < |nodes| && nodes[c].parent == Some(p)
  }

  /** Every Parent lists the node among its Children, one level up; roots
      are at depth 0. */
  ghost predicate ParentsListChild(nodes: seq<StoryNode>, depth: seq<nat>) {
    |depth| == |nodes| &&
    forall c {:trigger nodes[c].parent} :: 0 <= c < |nodes| ==>
      && (nodes[c].parent.None? ==> depth[c] == 0)
      && (nodes[c].parent.Some? ==>
            && nodes[c].parent.value < |nodes|
            && c in nodes[nodes[c].parent.value].children
            && depth[c] == depth[nodes[c].parent.value] + 1)
  }

  /** No Children list repeats a node. */
  ghost predicate ChildrenDistinct(nodes: seq<StoryNode>) {
    forall p {:trigger nodes[p].children} :: 0 <= p < |nodes| ==> Distinct(nodes[p].children)
  }

  /** Children sit one level below their parent. */
  ghost predicate ChildDepths(nodes: seq<StoryNode>, depth: seq<nat>) {
    |depth| == |nodes| &&
    forall p, k {:trigger nodes[p].children[k]} ::
      0 <= p < |nodes| && 0 <= k < |nodes[p].children| ==>
      nodes[p].children[k] < |nodes| && depth[nodes[p].children[k]] == depth[p] + 1
  }

  /** `x` is `a` or lies below `a` (following Parent links). */
  ghost predicate Descends(nodes: seq<StoryNode>, depth: seq<nat>, x: NodeId, a: NodeId)
    requires WellFormed(nodes, depth) && x < |nodes|
    decreases depth[x]
  {
    x == a || (nodes[x].parent.Some? && Descends(nodes, depth, nodes[x].parent.value, a))
  }

  lemma {:induction false} DescendsDepth(nodes: seq<StoryNode>, depth: seq<nat>, x: NodeId, a: NodeId)
    requires WellFormed(nodes, depth) && x < |nodes| && Descends(nodes, depth, x, a)
    ensures a < |nodes| && depth[a] <= depth[x]
    ensures x != a ==> depth[a] < depth[x]
    decreases depth[x]
  {
    if x != a {
      DescendsDepth(nodes, depth, nodes[x].parent.value, a);
    }
  }

  lemma {:induction false} DescendsTrans(nodes: seq<StoryNode>, depth: seq<nat>, x: NodeId, b: NodeId, a: NodeId)
    requires WellFormed(nodes, depth) && x < |nodes| && b < |nodes|
    requires Descends(nodes, depth, x, b) && Descends(nodes, depth, b, a)
    ensures Descends(nodes, depth, x, a)
    decreases depth[x]
  {
    if x != b {
      DescendsTrans(nodes, depth, nodes[x].parent.value, b, a);
    }
  }

  /** Two ancestors of one node at the same depth are the same node. */
  lemma {:induction false} SameDepthAncestors(nodes: seq<StoryNode>, depth: seq<nat>, x: NodeId, a: NodeId, b: NodeId)
    requires WellFormed(nodes, depth) && x < |nodes| && a < |nodes| && b < |nodes|
    requires Descends(nodes, depth, x, a) && Descends(nodes, depth, x, b)
    requires depth[a] == depth[b]
    ensures a == b
    decreases depth[x]
  {
    if x == a {
      DescendsDepth(nodes, depth, x, b);
    } else if x == b {
      DescendsDepth(nodes, depth, x, a);
    } else {
      SameDepthAncestors(nodes, depth, nodes[x].parent.value, a, b);
    }
  }

  /** The view root a node belongs to: the end of its Parent chain. */
  ghost function RootOf(nodes: seq<StoryNode>, depth: seq<nat>, n: NodeId): (r: NodeId)
    requires WellFormed(nodes, depth) && n < |nodes|
    ensures r < |nodes| && IsRoot(nodes[r]) && Descends(nodes, depth, n, r)
    decreases depth[n]
  {
    match nodes[n].parent
    case None => n
    case Some(p) => RootOf(nodes, depth, p)
  }

  /** RootOf is the only root above a node. */
  lemma RootOfUnique(nodes: seq<StoryNode>, depth: seq<nat>, n: NodeId, r: NodeId)
    requires WellFormed(nodes, depth) && n < |nodes| && r < |nodes|
    requires IsRoot(nodes[r]) && Descends(nodes, depth, n, r)
    ensures RootOf(nodes, depth, n) == r
  {
    SameDepthAncestors(nodes, depth, n, r, RootOf(nodes, depth, n));
  }

  /** TreeViewNode.Depth of the node showing `n`: the number of Parent links
      between `n` and its view root. */
  function Depth(nodes: seq<StoryNode>, ghost depth: seq<nat>, n: NodeId): (d: nat)
    requires WellFormed(nodes, depth) && n < |nodes|
    ensures d == depth[n]
    ensures d == 0 <==> IsRoot(nodes[n])
    decreases depth[n]
  {
    match nodes[n].parent
    case None => 0
    case Some(p) => Depth(nodes, depth, p) + 1
  }

  // ---- List operations of the source's ObservableCollection ----

  /** Collection.Remove(x): drops the first occurrence of x, if any. */
  function RemoveFirst(s: seq<NodeId>, x: NodeId): (r: seq<NodeId>)
    ensures |r| == if x in s then |s| - 1 else |s|
    ensures forall y :: y in r ==> y in s
    ensures forall y :: y in s && y != x ==> y in r
  {
    if s == [] then []
    else if s[0] == x then s[1..]
    else [s[0]] + RemoveFirst(s[1..], x)
  }

  lemma {:induction false} RemoveFirstAbsent(s: seq<NodeId>, x: NodeId)
    requires x !in s
    ensures RemoveFirst(s, x) == s
  {
    if s != [] {
      RemoveFirstAbsent(s[1..], x);
    }
  }

  lemma {:induction false} RemoveFirstDistinct(s: seq<NodeId>, x: NodeId)
    requires Distinct(s)
    ensures Distinct(RemoveFirst(s, x))
    ensures x !in RemoveFirst(s, x)
  {
    if s != [] {
      if s[0] == x {
        assert forall y :: y in s[1..] ==> y != x by {
          forall y | y in s[1..] ensures y != x {
            var k :| 0 <= k < |s[1..]| && s[1..][k] == y;
            assert s[k + 1] == y;
          }
        }
      } else {
        RemoveFirstDistinct(s[1..], x);
        var r := [s[0]] + RemoveFirst(s[1..], x);
        forall i, j | 0 <= i < j < |r| ensures r[i] != r[j] {
          if i == 0 {
            assert r[j] in RemoveFirst(s[1..], x);
            assert r[j] in s[1..];
          }
        }
      }
    }
  }

  /** Collection.IndexOf(x): the first index holding x, or -1. */
  function IndexOf(s: seq<NodeId>, x: NodeId): (k: int)
    ensures k == -1 <==> x !in s
    ensures k != -1 ==> 0 <= k < |s| && s[k] == x
    ensures k != -1 ==> forall j :: 0 <= j < k ==> s[j] != x
  {
    if s == [] then -1
    else if s[0] == x then 0
    else var k := IndexOf(s[1..], x); if k == -1 then -1 else k + 1
  }

  /** Collection.Insert(k, x): x ends up at index k, before the old s[k]. */
  function InsertAt(s: seq<NodeId>, k: nat, x: NodeId): (r: seq<NodeId>)
    requires k <= |s|
  {
    s[..k] + [x] + s[k..]
  }

  lemma InsertAtFacts(s: seq<NodeId>, k: nat, x: NodeId)
    requires k <= |s| && Distinct(s) && x !in s
    ensures Distinct(InsertAt(s, k, x))
    ensures forall y :: y in InsertAt(s, k, x) <==> y in s || y == x
    ensures RemoveFirst(InsertAt(s, k, x), x) == s
  {
    var a, b := s[..k], s[k..];
    assert s == a + b;
    DistinctParts(a, b);
    DistinctConcat(a, [x]);
    DistinctConcat(a + [x], b);
    RemoveFirstSplit(a, x, b);
  }

  lemma DistinctParts<T>(a: seq<T>, b: seq<T>)
    requires Distinct(a + b)
    ensures Distinct(a) && Distinct(b)
    ensures forall y :: y in a ==> y !in b
  {
    forall i, j | 0 <= i < j < |a| ensures a[i] != a[j] {
      assert a[i] == (a + b)[i] && a[j] == (a + b)[j];
    }
    forall i, j | 0 <= i < j < |b| ensures b[i] != b[j] {
      assert b[i] == (a + b)[|a| + i] && b[j] == (a + b)[|a| + j];
    }
    forall y | y in a ensures y !in b {
      var i :| 0 <= i < |a| && a[i] == y;
      assert (a + b)[i] == y;
      forall j | 0 <= j < |b| ensures b[j] != y {
        assert (a + b)[|a| + j] == b[j];
      }
    }
  }

  lemma DistinctConcat<T>(a: seq<T>, b: seq<T>)
    requires Distinct(a) && Distinct(b)
    requires forall y :: y in a ==> y !in b
    ensures Distinct(a + b)
  {
    var r := a + b;
    forall i, j | 0 <= i < j < |r| ensures r[i] != r[j] {
      if i < |a| && j >= |a| {
        assert r[i] in a && r[j] == b[j - |a|];
      }
    }
  }

  lemma {:induction false} RemoveFirstSplit(a: seq<NodeId>, x: NodeId, b: seq<NodeId>)
    requires x !in a
    ensures RemoveFirst(a + [x] + b, x) == a + b
  {
    var s := a + [x] + b;
    if a == [] {
      assert s == [x] + b;
    } else {
      assert s[0] == a[0] && a[0] in a;
      assert s[1..] == a[1..] + [x] + b;
      RemoveFirstSplit(a[1..], x, b);
      ConsConcat(a, b);
    }
  }

  lemma ConsConcat<T>(a: seq<T>, b: seq<T>)
    requires a != []
    ensures a + b == [a[0]] + (a[1..] + b)
  {
    assert a == [a[0]] + a[1..];
  }

  // ---- Structural changes ----

  /** `new StoryNodeItem(element, parent)`: a fresh node showing the element is
      appended to `parent`'s Children. */
  function AddNode(nodes: seq<StoryNode>, parent: NodeId, uuid: Uuid, kind: StoryItemType): seq<StoryNode>
    requires parent < |nodes|
  {
    nodes[parent := nodes[parent].(children := nodes[parent].children + [|nodes|])]
      + [StoryNode(uuid, kind, [], Some(parent))]
  }

  lemma AddNodeWellFormed(nodes: seq<StoryNode>, depth: seq<nat>, parent: NodeId, uuid: Uuid, kind: StoryItemType)
    requires WellFormed(nodes, depth) && parent < |nodes|
    ensures WellFormed(AddNode(nodes, parent, uuid, kind), depth + [depth[parent] + 1])
  {
    var r, d := AddNode(nodes, parent, uuid, kind), depth + [depth[parent] + 1];
    AddNodePointBack(nodes, depth, parent, uuid, kind);
    AddNodeParents(nodes, depth, parent, uuid, kind);
    AddNodeDistinct(nodes, depth, parent, uuid, kind);
    AddNodeDepths(nodes, depth, parent, uuid, kind);
  }

  lemma AddNodePointBack(nodes: seq<StoryNode>, depth: seq<nat>, parent: NodeId, uuid: Uuid, kind: StoryItemType)
    requires WellFormed(nodes, depth) && parent < |nodes|
    ensures ChildrenPointBack(AddNode(nodes, parent, uuid, kind))
  {
    var r := AddNode(nodes, parent, uuid, kind);
    var n := |nodes|;
    assert r[parent].children == nodes[parent].children + [n];
    forall p, c | 0 <= p < |r| && c in r[p].children
      ensures c < |r| && r[c].parent == Some(p)
    {
      if p == parent && c == n {
      } else if p < n {
        assert r[p].children == nodes[p].children || p == parent;
        assert c in nodes[p].children;
        assert r[c] == nodes[c] || c == parent;
      }
    }
  }

  lemma AddNodeParents(nodes: seq<StoryNode>, depth: seq<nat>, parent: NodeId, uuid: Uuid, kind: StoryItemType)
    requires WellFormed(nodes, depth) && parent < |nodes|
    ensures ParentsListChild(AddNode(nodes, parent, uuid, kind), depth + [depth[parent] + 1])
  {
    var r, d := AddNode(nodes, parent, uuid, kind), depth + [depth[parent] + 1];
    var n := |nodes|;
    assert r[n] == StoryNode(uuid, kind, [], Some(parent));
    forall c | 0 <= c < |r|
      ensures r[c].parent.None? ==> d[c] == 0
      ensures r[c].parent.Some? ==>
        r[c].parent.value < |r| && c in r[r[c].parent.value].children &&
        d[c] == d[r[c].parent.value] + 1
    {
      if c == n {
        assert r[parent].children == nodes[parent].children + [n];
      } else {
        assert r[c].parent == nodes[c].parent;
        if nodes[c].parent.Some? {
          var q := nodes[c].parent.value;
          assert c in nodes[q].children;
          assert r[q].children == nodes[q].children || r[q].children == nodes[q].children + [n];
        }
      }
    }
  }

  lemma AddNodeDistinct(nodes: seq<StoryNode>, depth: seq<nat>, parent: NodeId, uuid: Uuid, kind: StoryItemType)
    requires WellFormed(nodes, depth) && parent < |nodes|
    ensures ChildrenDistinct(AddNode(nodes, parent, uuid, kind))
  {
    var r := AddNode(nodes, parent, uuid, kind);
    var n := |nodes|;
    assert r[n].children == [];
    forall p | 0 <= p < |r| ensures Distinct(r[p].children) {
      if p == parent {
        assert n !in nodes[parent].children;
        DistinctConcat(nodes[parent].children, [n]);
      } else if p < n {
        assert r[p].children == nodes[p].children;
      }
    }
  }

  lemma AddNodeDepths(nodes: seq<StoryNode>, depth: seq<nat>, parent: NodeId, uuid: Uuid, kind: StoryItemType)
    requires WellFormed(nodes, depth) && parent < |nodes|
    ensures ChildDepths(AddNode(nodes, parent, uuid, kind), depth + [depth[parent] + 1])
  {
    var r, d := AddNode(nodes, parent, uuid, kind), depth + [depth[parent] + 1];
    var n := |nodes|;
    assert r[n].children == [];
    forall p, k | 0 <= p < |r| && 0 <= k < |r[p].children|
      ensures r[p].children[k] < |r| && d[r[p].children[k]] == d[p] + 1
    {
      if p == parent && k == |nodes[parent].children| {
        assert r[p].children[k] == n;
      } else {
        assert p < n;
        assert r[p].children[k] == nodes[p].children[k];
      }
    }
  }

  /** The abstract `SelectedNode.Delete(view)`: the node leaves its parent's
      Children and becomes parentless; a root is left as it is. */
  function Detach(nodes: seq<StoryNode>, s: NodeId): seq<StoryNode>
    requires s < |nodes|
    requires nodes[s].parent.Some? ==> nodes[s].parent.value < |nodes|
  {
    match nodes[s].parent
    case None => nodes
    case Some(op) =>
      var n1 := nodes[op := nodes[op].(children := RemoveFirst(nodes[op].children, s))];
      n1[s := n1[s].(parent := None)]
  }

  /** The ghost depths after the subtree of `s` is re-hung at depth `base`. */
  ghost function ShiftDepth(nodes: seq<StoryNode>, depth: seq<nat>, s: NodeId, base: nat): (d: seq<nat>)
    requires WellFormed(nodes, depth) && s < |nodes|
    ensures |d| == |depth|
  {
    seq(|depth|, i requires 0 <= i < |depth| => ShiftedDepth(nodes, depth, s, base, i))
  }

  ghost function ShiftedDepth(nodes: seq<StoryNode>, depth: seq<nat>, s: NodeId, base: nat, i: NodeId): nat
    requires WellFormed(nodes, depth) && s < |nodes| && i < |nodes|
  {
    if Descends(nodes, depth, i, s) then
      DescendsDepth(nodes, depth, i, s);
      depth[i] - depth[s] + base
    else depth[i]
  }

  /** `r` differs from `nodes` only in that `s` has the new parent `np`,
      listed among that parent's Children and no one else's, and `np` is not
      inside the subtree of `s` (that would close a cycle). */
  ghost predicate Rehung(nodes: seq<StoryNode>, depth: seq<nat>, r: seq<StoryNode>, s: NodeId, np: Option<NodeId>) {
    && WellFormed(nodes, depth) && s < |nodes| && |r| == |nodes|
    && (np.Some? ==> np.value < |nodes| && !Descends(nodes, depth, np.value, s))
    && r[s].parent == np
    && (forall x :: 0 <= x < |nodes| && x != s ==> r[x].parent == nodes[x].parent)
    && (forall p :: 0 <= p < |nodes| ==> Distinct(r[p].children))
    && (forall p, c :: 0 <= p < |nodes| && c != s ==> (c in r[p].children <==> c in nodes[p].children))
    && (forall p :: 0 <= p < |nodes| ==> (s in r[p].children <==> np == Some(p)))
  }

  function NewBase(depth: seq<nat>, np: Option<NodeId>): nat
    requires np.Some? ==> np.value < |depth|
  {
    if np.Some? then depth[np.value] + 1 else 0
  }

  /** Re-hanging one node keeps the arena a forest, with the subtree of `s`
      moved to its new depth. */
  lemma RehangWellFormed(nodes: seq<StoryNode>, depth: seq<nat>, r: seq<StoryNode>, s: NodeId, np: Option<NodeId>)
    requires Rehung(nodes, depth, r, s, np)
    ensures WellFormed(r, ShiftDepth(nodes, depth, s, NewBase(depth, np)))
  {
    RehangPointBack(nodes, depth, r, s, np);
    RehangParents(nodes, depth, r, s, np);
    RehangDepths(nodes, depth, r, s, np);
  }

  lemma RehangPointBack(nodes: seq<StoryNode>, depth: seq<nat>, r: seq<StoryNode>, s: NodeId, np: Option<NodeId>)
    requires Rehung(nodes, depth, r, s, np)
    ensures ChildrenPointBack(r)
  {
    forall p, c | 0 <= p < |r| && c in r[p].children
      ensures c < |r| && r[c].parent == Some(p)
    {
      if c != s {
        assert c in nodes[p].children;
      }
    }
  }

  lemma RehangParents(nodes: seq<StoryNode>, depth: seq<nat>, r: seq<StoryNode>, s: NodeId, np: Option<NodeId>)
    requires Rehung(nodes, depth, r, s, np)
    ensures ParentsListChild(r, ShiftDepth(nodes, depth, s, NewBase(depth, np)))
  {
    var d := ShiftDepth(nodes, depth, s, NewBase(depth, np));
    assert d[s] == NewBase(depth, np);
    forall c | 0 <= c < |r|
      ensures r[c].parent.None? ==> d[c] == 0
      ensures r[c].parent.Some? ==>
        r[c].parent.value < |r| && c in r[r[c].parent.value].children &&
        d[c] == d[r[c].parent.value] + 1
    {
      if c == s {
        if np.Some? {
          assert d[np.value] == depth[np.value];
        }
      } else {
        match nodes[c].parent
        case None =>
          assert !Descends(nodes, depth, c, s);
        case Some(p) =>
          assert c in nodes[p].children;
          assert Descends(nodes, depth, c, s) == Descends(nodes, depth, p, s);
          if Descends(nodes, depth, c, s) {
            DescendsDepth(nodes, depth, p, s);
          }
      }
    }
  }

  lemma RehangDepths(nodes: seq<StoryNode>, depth: seq<nat>, r: seq<StoryNode>, s: NodeId, np: Option<NodeId>)
    requires Rehung(nodes, depth, r, s, np)
    ensures ChildDepths(r, ShiftDepth(nodes, depth, s, NewBase(depth, np)))
  {
    var d := ShiftDepth(nodes, depth, s, NewBase(depth, np));
    assert d[s] == NewBase(depth, np);
    forall p, k | 0 <= p < |r| && 0 <= k < |r[p].children|
      ensures r[p].children[k] < |r| && d[r[p].children[k]] == d[p] + 1
    {
      var c := r[p].children[k];
      assert c in r[p].children;
      if c == s {
        assert d[p] == depth[p];
      } else {
        assert c in nodes[p].children;
        assert Descends(nodes, depth, c, s) == Descends(nodes, depth, p, s);
        if Descends(nodes, depth, c, s) {
          DescendsDepth(nodes, depth, p, s);
        }
      }
    }
  }

  /** Detach keeps the forest shape and takes `s` out of every Children list,
      leaving the order of all other siblings as it was. */
  lemma DetachEffect(nodes: seq<StoryNode>, depth: seq<nat>, s: NodeId)
    requires WellFormed(nodes, depth) && s < |nodes|
    ensures WellFormed(Detach(nodes, s), ShiftDepth(nodes, depth, s, 0))
    ensures |Detach(nodes, s)| == |nodes| && IsRoot(Detach(nodes, s)[s])
    ensures forall p :: 0 <= p < |nodes| ==> s !in Detach(nodes, s)[p].children
    ensures forall p :: 0 <= p < |nodes| ==>
      RemoveFirst(Detach(nodes, s)[p].children, s) == RemoveFirst(nodes[p].children, s)
    ensures forall x :: 0 <= x < |nodes| ==>
      Detach(nodes, s)[x].uuid == nodes[x].uuid && Detach(nodes, s)[x].kind == nodes[x].kind &&
      (x != s ==> Detach(nodes, s)[x].parent == nodes[x].parent)
  {
    match nodes[s].parent
    case None => DetachRoot(nodes, depth, s);
    case Some(op) => DetachChild(nodes, depth, s, op);
  }

  /** The facts DetachEffect states about `r`, the arena after Detach. */
  ghost predicate Detached(nodes: seq<StoryNode>, depth: seq<nat>, s: NodeId, r: seq<StoryNode>)
    requires WellFormed(nodes, depth) && s < |nodes|
  {
    && WellFormed(r, ShiftDepth(nodes, depth, s, 0))
    && |r| == |nodes| && IsRoot(r[s])
    && (forall p :: 0 <= p < |nodes| ==> s !in r[p].children)
    && (forall p :: 0 <= p < |nodes| ==> RemoveFirst(r[p].children, s) == RemoveFirst(nodes[p].children, s))
    && (forall x :: 0 <= x < |nodes| ==>
      r[x].uuid == nodes[x].uuid && r[x].kind == nodes[x].kind && (x != s ==> r[x].parent == nodes[x].parent))
  }

  /** DetachEffect for a node that is already a root: nothing changes. */
  lemma DetachRoot(nodes: seq<StoryNode>, depth: seq<nat>, s: NodeId)
    requires WellFormed(nodes, depth) && s < |nodes| && nodes[s].parent.None?
    ensures Detached(nodes, depth, s, Detach(nodes, s))
  {
    assert ShiftDepth(nodes, depth, s, 0) == depth by {
      forall i | 0 <= i < |depth| ensures ShiftDepth(nodes, depth, s, 0)[i] == depth[i] {
        if Descends(nodes, depth, i, s) {
          DescendsDepth(nodes, depth, i, s);
        }
      }
    }
    forall p | 0 <= p < |nodes| ensures s !in nodes[p].children {
    }
  }

  /** DetachEffect for a node listed in the Children of `op`. */
  lemma DetachChild(nodes: seq<StoryNode>, depth: seq<nat>, s: NodeId, op: NodeId)
    requires WellFormed(nodes, depth) && s < |nodes| && nodes[s].parent == Some(op)
    ensures Detached(nodes, depth, s, Detach(nodes, s))
  {
    var r := Detach(nodes, s);
    DetachChildShape(nodes, depth, s, op);
    RehangWellFormed(nodes, depth, r, s, None);
    assert NewBase(depth, None) == 0;
  }

  /** Detach from `op`, node by node: the arena is re-hung with `s` as a new
      root, and only `op`'s Children lose `s`. */
  lemma DetachChildShape(nodes: seq<StoryNode>, depth: seq<nat>, s: NodeId, op: NodeId)
    requires WellFormed(nodes, depth) && s < |nodes| && nodes[s].parent == Some(op)
    ensures Rehung(nodes, depth, Detach(nodes, s), s, None)
    ensures var r := Detach(nodes, s);
      && |r| == |nodes| && IsRoot(r[s])
      && (forall p :: 0 <= p < |nodes| ==> s !in r[p].children)
      && (forall p :: 0 <= p < |nodes| ==> RemoveFirst(r[p].children, s) == RemoveFirst(nodes[p].children, s))
      && (forall x :: 0 <= x < |nodes| ==>
        r[x].uuid == nodes[x].uuid && r[x].kind == nodes[x].kind && (x != s ==> r[x].parent == nodes[x].parent))
  {
    var r := Detach(nodes, s);
    assert op != s by { DescendsDepth(nodes, depth, s, s); }
    DetachNodes(nodes, s, op);
    RemoveFirstDistinct(nodes[op].children, s);
    forall p | 0 <= p < |nodes| ensures Distinct(r[p].children) && s !in r[p].children {
      if p != op {
        assert r[p].children == nodes[p].children;
      }
    }
    forall p, c | 0 <= p < |nodes| && c != s ensures c in r[p].children <==> c in nodes[p].children {
      if p != op {
        assert r[p].children == nodes[p].children;
      }
    }
    forall p | 0 <= p < |nodes| ensures RemoveFirst(r[p].children, s) == RemoveFirst(nodes[p].children, s) {
      if p != op {
        assert r[p].children == nodes[p].children;
        RemoveFirstAbsent(nodes[p].children, s);
      } else {
        RemoveFirstAbsent(r[p].children, s);
      }
    }
  }

  /** Detach from `op`, for any arena: `op`'s Children lose `s`, `s` loses
      its Parent, and nothing else changes. */
  lemma DetachNodes(nodes: seq<StoryNode>, s: NodeId, op: NodeId)
    requires s < |nodes| && op < |nodes| && op != s && nodes[s].parent == Some(op)
    ensures var r := Detach(nodes, s);
      && |r| == |nodes| && r[s].parent == None
      && r[op].children == RemoveFirst(nodes[op].children, s)
      && (forall x :: 0 <= x < |nodes| && x != op ==> r[x].children == nodes[x].children)
      && (forall x :: 0 <= x < |nodes| ==>
        r[x].uuid == nodes[x].uuid && r[x].kind == nodes[x].kind && (x != s ==> r[x].parent == nodes[x].parent))
  {
  }

  /** The current story model: the arena, and which roots are the Explorer
      and the Narrator view (ExplorerView[0] and NarratorView[0]). */
  class StoryModel {
    var nodes: seq<StoryNode>
    ghost var depth: seq<nat>
    const explorerRoot: NodeId
    const narratorRoot: NodeId

    ghost predicate Valid()
      reads this
    {
      && WellFormed(nodes, depth)
      && explorerRoot < |nodes| && narratorRoot < |nodes| && explorerRoot != narratorRoot
      && IsRoot(nodes[explorerRoot]) && IsRoot(nodes[narratorRoot])
    }

    constructor (nodes: seq<StoryNode>, ghost depth: seq<nat>, explorerRoot: NodeId, narratorRoot: NodeId)
      requires WellFormed(nodes, depth)
      requires explorerRoot < |nodes| && narratorRoot < |nodes| && explorerRoot != narratorRoot
      requires IsRoot(nodes[explorerRoot]) && IsRoot(nodes[narratorRoot])
      ensures Valid()
      ensures this.nodes == nodes && this.depth == depth
      ensures this.explorerRoot == explorerRoot && this.narratorRoot == narratorRoot
    {
      this.nodes := nodes;
      this.depth := depth;
      this.explorerRoot := explorerRoot;
      this.narratorRoot := narratorRoot;
    }

    /** `new StoryNodeItem(element, parent)`: a fresh node for the element is
        appended to `parent`'s Children. */
    method AddChild(parent: NodeId, uuid: Uuid, kind: StoryItemType)
      requires Valid() && parent < |nodes|
      modifies this
      ensures Valid()
      ensures nodes == AddNode(old(nodes), parent, uuid, kind)
      ensures depth == old(depth) + [old(depth)[parent] + 1]
    {
      AddNodeWellFormed(nodes, depth, parent, uuid, kind);
      nodes := AddNode(nodes, parent, uuid, kind);
      depth := depth + [depth[parent] + 1];
    }

    /** `node.Delete(view)`: the node leaves its parent's Children. */
    method Remove(s: NodeId)
      requires Valid() && s < |nodes|
      modifies this
      ensures Valid()
      ensures nodes == Detach(old(nodes), s)
      ensures depth == ShiftDepth(old(nodes), old(depth), s, 0)
    {
      DetachEffect(nodes, depth, s);
      depth := ShiftDepth(nodes, depth, s, 0);
      nodes := Detach(nodes, s);
    }
  }
}
