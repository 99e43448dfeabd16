/** The Shell's drag-and-drop move of a node in the navigation tree: three
    event handlers sharing the fields dragSourceStoryNode,
    dragTargetStoryNode and dragOperationValid. The first two decide whether
    the drag is allowed; the third moves the source node in place so that it
    sits immediately before the target among the target's siblings. */
module ShellDrag {
  import opened Wrappers
  import opened StoryTree

  // ---- Walking up to the view root ----

  /** `while (!_parent.IsRoot) _parent = _parent.Parent;` */
  method RootAbove(nodes: seq<StoryNode>, ghost depth: seq<nat>, n: NodeId) returns (r: NodeId)
    requires WellFormed(nodes, depth) && n < |nodes|
    ensures r < |nodes| && IsRoot(nodes[r]) && Descends(nodes, depth, n, r)
    ensures r == RootOf(nodes, depth, n)
  {
    r := n;
    while !IsRoot(nodes[r])
      invariant r < |nodes| && Descends(nodes, depth, n, r)
      invariant RootOf(nodes, depth, r) == RootOf(nodes, depth, n)
      decreases depth[r]
    {
      ghost var child := r;
      r := nodes[r].parent.value;
      DescendsTrans(nodes, depth, n, child, r);
    }
  }

  /** `while (node.Depth != 0) node = node.Parent;` over the TreeViewNodes
      that show the story nodes. */
  method DepthZeroAbove(nodes: seq<StoryNode>, ghost depth: seq<nat>, n: NodeId) returns (r: NodeId)
    requires WellFormed(nodes, depth) && n < |nodes|
    ensures r < |nodes| && Depth(nodes, depth, r) == 0 && Descends(nodes, depth, n, r)
    ensures r == RootOf(nodes, depth, n)
  {
    r := n;
    while Depth(nodes, depth, r) != 0
      invariant r < |nodes| && Descends(nodes, depth, n, r)
      invariant RootOf(nodes, depth, r) == RootOf(nodes, depth, n)
      decreases depth[r]
    {
      ghost var child := r;
      r := nodes[r].parent.value;
      DescendsTrans(nodes, depth, n, child, r);
    }
  }

  /** What DragItemsStarting accepts as a drag source: a node below a root,
      in a view whose root is not the TrashCan. */
  ghost predicate SourceAllowed(nodes: seq<StoryNode>, depth: seq<nat>, s: NodeId)
    requires WellFormed(nodes, depth) && s < |nodes|
  {
    !IsRoot(nodes[s]) && nodes[RootOf(nodes, depth, s)].kind != TrashCan
  }

  /** What DragEnter accepts as a drag target: a node at depth 1 or more, in
      a view whose root is not the TrashCan. */
  ghost predicate TargetAllowed(nodes: seq<StoryNode>, depth: seq<nat>, t: NodeId)
    requires WellFormed(nodes, depth) && t < |nodes|
  {
    depth[t] >= 1 && nodes[RootOf(nodes, depth, t)].kind != TrashCan
  }

  // ---- The in-place move ----

  /** What the completed drag needs, beyond what the two checks ensure: the
      source and target differ, both have a parent, and the target does not
      lie inside the source's subtree. The handler does not test these; with
      source == target IndexOf would give -1, and a target below the source
      would close a cycle. */
  ghost predicate MoveAllowed(nodes: seq<StoryNode>, depth: seq<nat>, s: NodeId, t: NodeId)
    requires WellFormed(nodes, depth)
  {
    && s < |nodes| && t < |nodes| && s != t
    && !IsRoot(nodes[s]) && !IsRoot(nodes[t])
    && !Descends(nodes, depth, t, s)
  }

  /** `p.Children.Remove(x)`. */
  function RemoveChild(nodes: seq<StoryNode>, p: NodeId, x: NodeId): (r: seq<StoryNode>)
    requires p < |nodes|
    ensures |r| == |nodes|
  {
    nodes[p := nodes[p].(children := RemoveFirst(nodes[p].children, x))]
  }

  /** `p.Children.Insert(p.Children.IndexOf(t), x)`, for a `t` listed there. */
  function InsertChildBefore(nodes: seq<StoryNode>, p: NodeId, t: NodeId, x: NodeId): (r: seq<StoryNode>)
    requires p < |nodes| && t in nodes[p].children
    ensures |r| == |nodes|
  {
    var ch := nodes[p].children;
    nodes[p := nodes[p].(children := InsertAt(ch, IndexOf(ch, t), x))]
  }

  /** `x.Parent = p`. */
  function SetParent(nodes: seq<StoryNode>, x: NodeId, p: NodeId): (r: seq<StoryNode>)
    requires x < |nodes|
    ensures |r| == |nodes|
  {
    nodes[x := nodes[x].(parent := Some(p))]
  }

  /** The arena after the three statements of DragItemsCompleted:
      `source.Parent.Children.Remove(source)`, then
      `target.Parent.Children.Insert(IndexOf(target), source)`, then
      `source.Parent = target.Parent`. */
  function MoveBefore(nodes: seq<StoryNode>, s: NodeId, t: NodeId): (r: seq<StoryNode>)
    requires s < |nodes| && t < |nodes| && s != t
    requires nodes[s].parent.Some? && nodes[s].parent.value < |nodes|
    requires nodes[t].parent.Some? && nodes[t].parent.value < |nodes|
    requires t in nodes[nodes[t].parent.value].children
    ensures |r| == |nodes|
  {
    var op, tp := nodes[s].parent.value, nodes[t].parent.value;
    var n1 := RemoveChild(nodes, op, s);
    assert t in n1[tp].children;
    SetParent(InsertChildBefore(n1, tp, t, s), s, tp)
  }

  lemma {:induction false} NotBelowParent(nodes: seq<StoryNode>, depth: seq<nat>, t: NodeId, s: NodeId)
    requires WellFormed(nodes, depth) && t < |nodes| && nodes[t].parent.Some?
    requires !Descends(nodes, depth, t, s)
    ensures !Descends(nodes, depth, nodes[t].parent.value, s)
  {
  }

  /** The Children list of the target's parent once the source has been
      removed from its old parent, and before it is inserted. */
  function AfterRemove(nodes: seq<StoryNode>, s: NodeId, t: NodeId): seq<NodeId>
    requires s < |nodes| && t < |nodes|
    requires nodes[s].parent.Some? && nodes[t].parent.Some? && nodes[t].parent.value < |nodes|
  {
    var op, tp := nodes[s].parent.value, nodes[t].parent.value;
    if op == tp then RemoveFirst(nodes[tp].children, s) else nodes[tp].children
  }

  /** MoveBefore node by node: only the old parent, the target's parent and
      the source itself change. */
  lemma MoveBeforeShape(nodes: seq<StoryNode>, depth: seq<nat>, s: NodeId, t: NodeId)
    requires WellFormed(nodes, depth) && MoveAllowed(nodes, depth, s, t)
    ensures t in nodes[nodes[t].parent.value].children
    ensures var r, op, tp := MoveBefore(nodes, s, t), nodes[s].parent.value, nodes[t].parent.value;
      var ch := AfterRemove(nodes, s, t);
      && op < |nodes| && tp < |nodes| && s != op && s != tp
      && s !in ch && t in ch && Distinct(ch)
      && r[tp].children == InsertAt(ch, IndexOf(ch, t), s)
      && (op != tp ==> r[op].children == RemoveFirst(nodes[op].children, s))
      && (forall x :: 0 <= x < |nodes| && x != op && x != tp ==> r[x].children == nodes[x].children)
      && (forall x :: 0 <= x < |nodes| ==> r[x].uuid == nodes[x].uuid && r[x].kind == nodes[x].kind)
      && r[s].parent == Some(tp)
      && (forall x :: 0 <= x < |nodes| && x != s ==> r[x].parent == nodes[x].parent)
  {
    var op, tp := nodes[s].parent.value, nodes[t].parent.value;
    assert s in nodes[op].children && t in nodes[tp].children;
    assert s != op by { DescendsDepth(nodes, depth, s, s); }
    assert s != tp by { assert Descends(nodes, depth, t, tp); }
    RemoveFirstDistinct(nodes[op].children, s);
    if op != tp {
      assert s !in nodes[tp].children;
    }
    MoveBeforeNodes(nodes, s, t, op, tp);
  }

  /** The node-by-node effect of MoveBefore, for any arena. */
  lemma MoveBeforeNodes(nodes: seq<StoryNode>, s: NodeId, t: NodeId, op: NodeId, tp: NodeId)
    requires s < |nodes| && t < |nodes| && op < |nodes| && tp < |nodes| && s != t && s != tp
    requires nodes[s].parent == Some(op) && nodes[t].parent == Some(tp)
    requires t in AfterRemove(nodes, s, t)
    ensures t in nodes[tp].children
    ensures var r, ch := MoveBefore(nodes, s, t), AfterRemove(nodes, s, t);
      && r[tp].children == InsertAt(ch, IndexOf(ch, t), s)
      && (op != tp ==> r[op].children == RemoveFirst(nodes[op].children, s))
      && (forall x :: 0 <= x < |nodes| && x != op && x != tp ==> r[x].children == nodes[x].children)
      && (forall x :: 0 <= x < |nodes| ==> r[x].uuid == nodes[x].uuid && r[x].kind == nodes[x].kind)
      && r[s].parent == Some(tp)
      && (forall x :: 0 <= x < |nodes| && x != s ==> r[x].parent == nodes[x].parent)
  {
  }

  /** A valid move keeps the arena a forest, with the source's subtree
      re-hung one level below the target's parent. */
  lemma MoveBeforeWellFormed(nodes: seq<StoryNode>, depth: seq<nat>, s: NodeId, t: NodeId)
    requires WellFormed(nodes, depth) && MoveAllowed(nodes, depth, s, t)
    ensures t in nodes[nodes[t].parent.value].children
    ensures WellFormed(MoveBefore(nodes, s, t), ShiftDepth(nodes, depth, s, depth[t]))
    ensures forall p :: 0 <= p < |nodes| ==> (s in MoveBefore(nodes, s, t)[p].children <==> p == nodes[t].parent.value)
  {
    MoveBeforeShape(nodes, depth, s, t);
    ShapeWellFormed(nodes, depth, MoveBefore(nodes, s, t), s, t, AfterRemove(nodes, s, t));
  }

  /** MoveBeforeWellFormed, for any arena of the shape MoveBeforeShape gives. */
  lemma ShapeWellFormed(nodes: seq<StoryNode>, depth: seq<nat>, r: seq<StoryNode>, s: NodeId, t: NodeId, ch: seq<NodeId>)
    requires WellFormed(nodes, depth) && MoveAllowed(nodes, depth, s, t) && |r| == |nodes|
    requires var op, tp := nodes[s].parent.value, nodes[t].parent.value;
      && op < |nodes| && tp < |nodes| && s != op && s != tp
      && s !in ch && t in ch && Distinct(ch)
      && (op == tp ==> ch == RemoveFirst(nodes[tp].children, s))
      && (op != tp ==> ch == nodes[tp].children)
      && r[tp].children == InsertAt(ch, IndexOf(ch, t), s)
      && (op != tp ==> r[op].children == RemoveFirst(nodes[op].children, s))
      && (forall x :: 0 <= x < |nodes| && x != op && x != tp ==> r[x].children == nodes[x].children)
      && r[s].parent == Some(tp)
      && (forall x :: 0 <= x < |nodes| && x != s ==> r[x].parent == nodes[x].parent)
    ensures WellFormed(r, ShiftDepth(nodes, depth, s, depth[t]))
    ensures forall p :: 0 <= p < |nodes| ==> (s in r[p].children <==> p == nodes[t].parent.value)
  {
    var op, tp := nodes[s].parent.value, nodes[t].parent.value;
    assert s in nodes[op].children;
    NotBelowParent(nodes, depth, t, s);
    forall p | 0 <= p < |nodes| && p != op ensures s !in nodes[p].children {
    }
    ShapeChildren(nodes, r, s, op, tp, t, ch);
    assert Rehung(nodes, depth, r, s, Some(tp));
    RehangWellFormed(nodes, depth, r, s, Some(tp));
    assert NewBase(depth, Some(tp)) == depth[t] by { assert t in nodes[tp].children; }
  }

  /** The Children lists of an arena of that shape: still without
      repetitions, listing the same nodes but the source, and listing the
      source under the target's parent only. */
  lemma ShapeChildren(nodes: seq<StoryNode>, r: seq<StoryNode>, s: NodeId, op: NodeId, tp: NodeId, t: NodeId, ch: seq<NodeId>)
    requires |r| == |nodes| && op < |nodes| && tp < |nodes|
    requires forall p :: 0 <= p < |nodes| ==> Distinct(nodes[p].children)
    requires forall p :: 0 <= p < |nodes| && p != op ==> s !in nodes[p].children
    requires s !in ch && t in ch
    requires op == tp ==> ch == RemoveFirst(nodes[tp].children, s)
    requires op != tp ==> ch == nodes[tp].children
    requires r[tp].children == InsertAt(ch, IndexOf(ch, t), s)
    requires op != tp ==> r[op].children == RemoveFirst(nodes[op].children, s)
    requires forall x :: 0 <= x < |nodes| && x != op && x != tp ==> r[x].children == nodes[x].children
    ensures forall p :: 0 <= p < |nodes| ==> Distinct(r[p].children)
    ensures forall p, c :: 0 <= p < |nodes| && c != s ==> (c in r[p].children <==> c in nodes[p].children)
    ensures forall p :: 0 <= p < |nodes| ==> (s in r[p].children <==> p == tp)
  {
    RemoveFirstDistinct(nodes[op].children, s);
    assert Distinct(ch);
    InsertAtFacts(ch, IndexOf(ch, t), s);
  }

  /** A valid move places the source immediately before the target, and
      leaves every Children list, with the source taken out, as it was. */
  lemma MoveBeforeOrder(nodes: seq<StoryNode>, depth: seq<nat>, s: NodeId, t: NodeId)
    requires WellFormed(nodes, depth) && MoveAllowed(nodes, depth, s, t)
    ensures t in nodes[nodes[t].parent.value].children
    ensures var r, tp := MoveBefore(nodes, s, t), nodes[t].parent.value;
      && Distinct(r[tp].children)
      && var k := IndexOf(r[tp].children, s);
      && 0 <= k && k + 1 < |r[tp].children| && r[tp].children[k + 1] == t
      && (forall p :: 0 <= p < |nodes| ==> RemoveFirst(r[p].children, s) == RemoveFirst(nodes[p].children, s))
  {
    MoveBeforeShape(nodes, depth, s, t);
    var r, op, tp := MoveBefore(nodes, s, t), nodes[s].parent.value, nodes[t].parent.value;
    assert Distinct(nodes[op].children);
    ShapeOrder(nodes, r, s, t, op, tp, AfterRemove(nodes, s, t));
  }

  /** MoveBeforeOrder, for any arena of the shape MoveBeforeShape gives: only
      `op` and `tp` change, `op` just loses `s`, and `tp` lists `s` inserted
      before `t` in `ch`. */
  lemma ShapeOrder(nodes: seq<StoryNode>, r: seq<StoryNode>, s: NodeId, t: NodeId, op: NodeId, tp: NodeId, ch: seq<NodeId>)
    requires |r| == |nodes| && op < |nodes| && tp < |nodes| && Distinct(nodes[op].children)
    requires s !in ch && t in ch && Distinct(ch)
    requires op == tp ==> ch == RemoveFirst(nodes[tp].children, s)
    requires op != tp ==> ch == nodes[tp].children && r[op].children == RemoveFirst(nodes[op].children, s)
    requires r[tp].children == InsertAt(ch, IndexOf(ch, t), s)
    requires forall x :: 0 <= x < |nodes| && x != op && x != tp ==> r[x].children == nodes[x].children
    ensures Distinct(r[tp].children)
    ensures var k := IndexOf(r[tp].children, s);
      0 <= k && k + 1 < |r[tp].children| && r[tp].children[k + 1] == t
    ensures forall p :: 0 <= p < |nodes| ==> RemoveFirst(r[p].children, s) == RemoveFirst(nodes[p].children, s)
  {
    InsertBefore(ch, t, s);
    forall p | 0 <= p < |nodes| ensures RemoveFirst(r[p].children, s) == RemoveFirst(nodes[p].children, s) {
      if p == tp {
        if op != tp {
          RemoveFirstAbsent(nodes[tp].children, s);
        }
      } else if p == op {
        RemoveFirstDistinct(nodes[op].children, s);
        RemoveFirstAbsent(r[p].children, s);
      }
    }
  }

  /** Inserting `s` at the index of `t` in a list without repetitions puts it
      immediately before `t`, once. */
  lemma InsertBefore(ch: seq<NodeId>, t: NodeId, s: NodeId)
    requires Distinct(ch) && s !in ch && t in ch
    ensures var rk := InsertAt(ch, IndexOf(ch, t), s);
      && Distinct(rk) && RemoveFirst(rk, s) == ch
      && var k := IndexOf(rk, s);
      && 0 <= k && k + 1 < |rk| && rk[k + 1] == t
  {
    var k := IndexOf(ch, t);
    InsertAtFacts(ch, k, s);
    var rk := InsertAt(ch, k, s);
    assert rk == ch[..k] + [s] + ch[k..];
    assert rk[k] == s && rk[k + 1] == t;
    DistinctIndex(rk, k);
  }

  /** A valid move keeps the arena a forest; keeps every node, its Uuid and
      its type; gives the source the target's parent; lists the source in that
      parent's Children only, once, immediately before the target; and leaves
      every Children list, with the source taken out, as it was. */
  lemma MoveBeforeEffect(nodes: seq<StoryNode>, depth: seq<nat>, s: NodeId, t: NodeId)
    requires WellFormed(nodes, depth) && MoveAllowed(nodes, depth, s, t)
    ensures t in nodes[nodes[t].parent.value].children
    ensures var r, tp := MoveBefore(nodes, s, t), nodes[t].parent.value;
      && WellFormed(r, ShiftDepth(nodes, depth, s, depth[t]))
      && (forall x :: 0 <= x < |nodes| ==> r[x].uuid == nodes[x].uuid && r[x].kind == nodes[x].kind)
      && r[s].parent == Some(tp)
      && (forall x :: 0 <= x < |nodes| && x != s ==> r[x].parent == nodes[x].parent)
      && (forall p :: 0 <= p < |nodes| ==> (s in r[p].children <==> p == tp))
      && Distinct(r[tp].children)
      && var k := IndexOf(r[tp].children, s);
      && 0 <= k && k + 1 < |r[tp].children| && r[tp].children[k + 1] == t
      && (forall p :: 0 <= p < |nodes| ==> RemoveFirst(r[p].children, s) == RemoveFirst(nodes[p].children, s))
  {
    MoveBeforeShape(nodes, depth, s, t);
    MoveBeforeWellFormed(nodes, depth, s, t);
    MoveBeforeOrder(nodes, depth, s, t);
  }

  /** The three statements of MoveBefore one by one, for the method that
      performs them in place: each is defined, the result is a forest, and
      the two view roots stay roots. */
  lemma MoveSteps(nodes: seq<StoryNode>, depth: seq<nat>, s: NodeId, t: NodeId, e: NodeId, n: NodeId)
    requires WellFormed(nodes, depth) && MoveAllowed(nodes, depth, s, t)
    requires e < |nodes| && n < |nodes| && IsRoot(nodes[e]) && IsRoot(nodes[n])
    ensures var op, tp := nodes[s].parent.value, nodes[t].parent.value;
      && op < |nodes| && tp < |nodes| && RemoveChild(nodes, op, s)[t].parent == Some(tp)
      && t in RemoveChild(nodes, op, s)[tp].children
      && t in nodes[tp].children
      && var r := MoveBefore(nodes, s, t);
      && r == SetParent(InsertChildBefore(RemoveChild(nodes, op, s), tp, t, s), s, tp)
      && WellFormed(r, ShiftDepth(nodes, depth, s, depth[t]))
      && IsRoot(r[e]) && IsRoot(r[n])
  {
    MoveBeforeShape(nodes, depth, s, t);
    MoveBeforeWellFormed(nodes, depth, s, t);
  }

  /** In a list without repetitions, the element at `k` is first found at `k`. */
  lemma {:induction false} DistinctIndex(s: seq<NodeId>, k: nat)
    requires Distinct(s) && k < |s|
    ensures IndexOf(s, s[k]) == k
    decreases k
  {
    if k > 0 {
      assert Distinct(s[1..]) by {
        forall i, j | 0 <= i < j < |s[1..]| ensures s[1..][i] != s[1..][j] {
          assert s[1..][i] == s[i + 1] && s[1..][j] == s[j + 1];
        }
      }
      DistinctIndex(s[1..], k - 1);
      assert s[1..][k - 1] == s[k];
    }
  }

  /** Nodes outside the moved subtree keep their Parent chains, hence their
      view root. */
  lemma {:induction false} RootOfOutside(nodes: seq<StoryNode>, depth: seq<nat>, r: seq<StoryNode>, d: seq<nat>, s: NodeId, x: NodeId)
    requires WellFormed(nodes, depth) && WellFormed(r, d) && |r| == |nodes|
    requires s < |nodes| && x < |nodes| && !Descends(nodes, depth, x, s)
    requires forall y :: 0 <= y < |nodes| && y != s ==> r[y].parent == nodes[y].parent
    ensures RootOf(r, d, x) == RootOf(nodes, depth, x)
    decreases depth[x]
  {
    match nodes[x].parent
    case None =>
    case Some(p) =>
      RootOfOutside(nodes, depth, r, d, s, p);
  }

  /** A valid move lands the source in the target's view: afterwards the
      source's view root is the target's, so a node never reaches the
      TrashCan view by a move that DragEnter let through. */
  lemma MoveKeepsTargetView(nodes: seq<StoryNode>, depth: seq<nat>, s: NodeId, t: NodeId)
    requires WellFormed(nodes, depth) && MoveAllowed(nodes, depth, s, t)
    requires TargetAllowed(nodes, depth, t)
    ensures t in nodes[nodes[t].parent.value].children
    ensures var r, d := MoveBefore(nodes, s, t), ShiftDepth(nodes, depth, s, depth[t]);
      && WellFormed(r, d)
      && RootOf(r, d, s) == RootOf(nodes, depth, t)
      && r[RootOf(r, d, s)].kind != TrashCan
  {
    MoveBeforeEffect(nodes, depth, s, t);
    var r, d := MoveBefore(nodes, s, t), ShiftDepth(nodes, depth, s, depth[t]);
    var tp := nodes[t].parent.value;
    NotBelowParent(nodes, depth, t, s);
    RootOfOutside(nodes, depth, r, d, s, tp);
    assert RootOf(r, d, s) == RootOf(r, d, tp);
    assert RootOf(nodes, depth, t) == RootOf(nodes, depth, tp);
  }

  /** The Shell page's drag state over the story model it shows. */
  class Shell {
    const model: StoryModel
    var dragTargetStoryNode: Option<NodeId>
    var dragSourceStoryNode: Option<NodeId>
    var dragOperationValid: bool

    ghost predicate Valid()
      reads this, model
    {
      && model.Valid()
      && (dragSourceStoryNode.Some? ==> dragSourceStoryNode.value < |model.nodes|)
      && (dragTargetStoryNode.Some? ==> dragTargetStoryNode.value < |model.nodes|)
    }

    constructor (model: StoryModel)
      requires model.Valid()
      ensures Valid() && this.model == model
      ensures dragTargetStoryNode.None? && dragSourceStoryNode.None? && !dragOperationValid
    {
      this.model := model;
      dragTargetStoryNode := None;
      dragSourceStoryNode := None;
      dragOperationValid := false;
    }

    /** TreeView_DragItemsStarting: the dragged node becomes the source; the
        drag is valid unless the node is a root or its view root is the
        TrashCan. */
    method DragItemsStarting(item: NodeId)
      requires Valid() && item < |model.nodes|
      modifies this
      ensures Valid()
      ensures dragSourceStoryNode == Some(item) && dragTargetStoryNode == old(dragTargetStoryNode)
      ensures dragOperationValid == SourceAllowed(model.nodes, model.depth, item)
    {
      dragOperationValid := true;
      dragSourceStoryNode := Some(item);
      var parent := model.nodes[item].parent;
      if parent.None? {
        dragOperationValid := false;
        return;
      }
      var root := RootAbove(model.nodes, model.depth, parent.value);
      assert RootOf(model.nodes, model.depth, item) == root;
      if model.nodes[root].kind == TrashCan {
        dragOperationValid := false;
        return;
      }
    }

    /** TreeViewItem_OnDragEnter: a target at depth 0 invalidates the drag and
        is not recorded; otherwise it becomes the target, and a target in the
        TrashCan view invalidates the drag. Nothing here sets the drag valid
        again. */
    method DragEnter(target: NodeId)
      requires Valid() && target < |model.nodes|
      modifies this
      ensures Valid()
      ensures dragSourceStoryNode == old(dragSourceStoryNode)
      ensures dragTargetStoryNode == if model.depth[target] < 1 then old(dragTargetStoryNode) else Some(target)
      ensures dragOperationValid == (old(dragOperationValid) && TargetAllowed(model.nodes, model.depth, target))
    {
      var node := target;
      if Depth(model.nodes, model.depth, node) < 1 {
        dragOperationValid := false;
        return;
      }
      dragTargetStoryNode := Some(target);
      node := DepthZeroAbove(model.nodes, model.depth, node);
      if model.nodes[node].kind == TrashCan {
        dragOperationValid := false;
        return;
      }
    }

    /** TreeViewItem_DragItemsCompleted: a valid drag moves the source to just
        before the target; either way the drag is marked valid again. */
    method DragItemsCompleted()
      requires Valid()
      requires dragOperationValid ==>
        && dragSourceStoryNode.Some? && dragTargetStoryNode.Some?
        && MoveAllowed(model.nodes, model.depth, dragSourceStoryNode.value, dragTargetStoryNode.value)
      modifies model
      modifies this`dragOperationValid
      ensures Valid() && dragOperationValid
      ensures !old(dragOperationValid) ==> model.nodes == old(model.nodes) && model.depth == old(model.depth)
      ensures old(dragOperationValid) ==>
        && model.nodes == MoveBefore(old(model.nodes), dragSourceStoryNode.value, dragTargetStoryNode.value)
        && model.depth == ShiftDepth(old(model.nodes), old(model.depth), dragSourceStoryNode.value,
             old(model.depth)[dragTargetStoryNode.value])
    {
      if dragOperationValid {
        MoveSourceBeforeTarget(dragSourceStoryNode.value, dragTargetStoryNode.value);
      }
      dragOperationValid := true;
    }

    /** The three statements of a valid completion, applied to the shown
        arena in place. */
    method MoveSourceBeforeTarget(s: NodeId, t: NodeId)
      requires model.Valid() && MoveAllowed(model.nodes, model.depth, s, t)
      modifies model
      ensures model.Valid()
      ensures model.nodes == MoveBefore(old(model.nodes), s, t)
      ensures model.depth == ShiftDepth(old(model.nodes), old(model.depth), s, old(model.depth)[t])
    {
      ghost var nodes0, depth0 := model.nodes, model.depth;
      MoveSteps(nodes0, depth0, s, t, model.explorerRoot, model.narratorRoot);
      var op := model.nodes[s].parent.value;
      model.nodes := RemoveChild(model.nodes, op, s);
      var tp := model.nodes[t].parent.value;
      model.nodes := InsertChildBefore(model.nodes, tp, t, s);
      model.nodes := SetParent(model.nodes, s, tp);
      model.depth := ShiftDepth(nodes0, depth0, s, depth0[t]);
    }
  }
}
