/** What NarrativeToolVM's copy operations append to the Narrator view: the
    Uuids a view shows, the Scenes of a walk that are still missing from it,
    and the arena after one fresh node per missing Scene is appended under the
    view root. */
module NarrativeCopy {
  import opened Wrappers
  import opened StoryTree
  import opened NarrativeFlatten

  /** The Uuids of the nodes `ids`, in order. */
  function UuidsOf(nodes: seq<StoryNode>, ids: seq<NodeId>): (us: seq<Uuid>)
    requires forall k :: 0 <= k < |ids| ==> ids[k] < |nodes|
    ensures |us| == |ids|
  {
    seq(|ids|, k requires 0 <= k < |ids| => nodes[ids[k]].uuid)
  }

  /** The Uuids shown anywhere below `root`: the test
      `RecursiveCheck(root.Children).All(n => n.Uuid != u)` asks whether u is
      absent from this list. */
  function ViewUuids(nodes: seq<StoryNode>, ghost depth: seq<nat>, root: NodeId): (us: seq<Uuid>)
    requires WellFormed(nodes, depth) && root < |nodes|
  {
    ChildrenAreSiblings(nodes, depth, root);
    UuidsOf(nodes, RecursiveCheck(nodes, depth, nodes[root].children))
  }

  /** The Uuids a walk over `items` appends under the Narrator root, given the
      Uuids `present` there before the walk: an item is copied when it is a
      Scene and its Uuid is neither present nor copied earlier in the walk. */
  function Unused(nodes: seq<StoryNode>, items: seq<NodeId>, present: seq<Uuid>): seq<Uuid>
    requires forall k :: 0 <= k < |items| ==> items[k] < |nodes|
    decreases |items|
  {
    if items == [] then []
    else
      var u := Unused(nodes, items[..|items| - 1], present);
      var x := nodes[items[|items| - 1]];
      if x.kind == Scene && x.uuid !in present + u then u + [x.uuid] else u
  }

  ghost predicate InArena(nodes: seq<StoryNode>, items: seq<NodeId>) {
    forall k :: 0 <= k < |items| ==> items[k] < |nodes|
  }

  /** After the walk, every Scene item's Uuid is present. */
  lemma {:induction false} UnusedCovers(nodes: seq<StoryNode>, items: seq<NodeId>, present: seq<Uuid>)
    requires InArena(nodes, items)
    ensures forall k :: 0 <= k < |items| && nodes[items[k]].kind == Scene ==>
      nodes[items[k]].uuid in present + Unused(nodes, items, present)
    decreases |items|
  {
    if items != [] {
      var init := items[..|items| - 1];
      UnusedCovers(nodes, init, present);
      forall k | 0 <= k < |items| - 1 ensures items[k] == init[k] {}
    }
  }

  /** No Uuid is appended twice, and none that was already present. */
  lemma {:induction false} UnusedFresh(nodes: seq<StoryNode>, items: seq<NodeId>, present: seq<Uuid>)
    requires InArena(nodes, items)
    ensures Distinct(Unused(nodes, items, present))
    ensures forall u :: u in Unused(nodes, items, present) ==> u !in present
    decreases |items|
  {
    if items != [] {
      UnusedFresh(nodes, items[..|items| - 1], present);
    }
  }

  /** Only Scenes of the walk are copied. */
  lemma {:induction false} UnusedOnlyScenes(nodes: seq<StoryNode>, items: seq<NodeId>, present: seq<Uuid>)
    requires InArena(nodes, items)
    ensures forall u :: u in Unused(nodes, items, present) ==>
      exists k :: 0 <= k < |items| && nodes[items[k]].kind == Scene && nodes[items[k]].uuid == u
    decreases |items|
  {
    if items != [] {
      var init := items[..|items| - 1];
      UnusedOnlyScenes(nodes, init, present);
      forall u | u in Unused(nodes, items, present)
        ensures exists k :: 0 <= k < |items| && nodes[items[k]].kind == Scene && nodes[items[k]].uuid == u
      {
        if u in Unused(nodes, init, present) {
          var k :| 0 <= k < |init| && nodes[init[k]].kind == Scene && nodes[init[k]].uuid == u;
          assert items[k] == init[k];
        } else {
          assert nodes[items[|items| - 1]].uuid == u;
        }
      }
    }
  }

  /** Nothing is copied exactly when every Scene of the walk is already present. */
  lemma {:induction false} UnusedEmpty(nodes: seq<StoryNode>, items: seq<NodeId>, present: seq<Uuid>)
    requires InArena(nodes, items)
    ensures Unused(nodes, items, present) == [] <==>
      forall k :: 0 <= k < |items| && nodes[items[k]].kind == Scene ==> nodes[items[k]].uuid in present
    decreases |items|
  {
    UnusedCovers(nodes, items, present);
    if items != [] {
      var init := items[..|items| - 1];
      UnusedEmpty(nodes, init, present);
      forall k | 0 <= k < |items| - 1 ensures items[k] == init[k] {}
      if Unused(nodes, items, present) == [] {
        assert Unused(nodes, init, present) == [];
      } else {
        UnusedOnlyScenes(nodes, items, present);
        UnusedFresh(nodes, items, present);
        var u := Unused(nodes, items, present)[0];
        assert u in Unused(nodes, items, present);
      }
    }
  }

  /** A walk over `a + b` copies what the walk over `a` copies, then what the
      walk over `b` copies given the enlarged view. */
  /** UnusedConcat, with both walks and the whole list already named. */
  lemma UnusedConcatAt(nodes: seq<StoryNode>, a: seq<NodeId>, b: seq<NodeId>, ab: seq<NodeId>, present: seq<Uuid>, ua: seq<Uuid>, ub: seq<Uuid>)
    requires InArena(nodes, a) && InArena(nodes, b) && ab == a + b
    requires ua == Unused(nodes, a, present) && ub == Unused(nodes, b, present + ua)
    ensures InArena(nodes, ab) && Unused(nodes, ab, present) == ua + ub
  {
    UnusedConcat(nodes, a, b, present);
  }

  lemma {:induction false} UnusedConcat(nodes: seq<StoryNode>, a: seq<NodeId>, b: seq<NodeId>, present: seq<Uuid>)
    requires InArena(nodes, a) && InArena(nodes, b)
    ensures InArena(nodes, a + b)
    ensures Unused(nodes, a + b, present) ==
      Unused(nodes, a, present) + Unused(nodes, b, present + Unused(nodes, a, present))
    decreases |b|
  {
    if b == [] {
      assert a + b == a;
    } else {
      var binit := b[..|b| - 1];
      UnusedConcat(nodes, a, binit, present);
      assert (a + b)[..|a + b| - 1] == a + binit;
      var ua := Unused(nodes, a, present);
      assert (present + ua) + Unused(nodes, binit, present + ua)
        == present + (ua + Unused(nodes, binit, present + ua));
    }
  }

  /** The walk reads only the Uuid and type of the items. */
  lemma {:induction false} UnusedFrame(nodes: seq<StoryNode>, nodes': seq<StoryNode>, items: seq<NodeId>, present: seq<Uuid>)
    requires InArena(nodes, items) && InArena(nodes', items)
    requires forall k :: 0 <= k < |items| ==>
      nodes'[items[k]].uuid == nodes[items[k]].uuid && nodes'[items[k]].kind == nodes[items[k]].kind
    ensures Unused(nodes', items, present) == Unused(nodes, items, present)
    decreases |items|
  {
    if items != [] {
      UnusedFrame(nodes, nodes', items[..|items| - 1], present);
    }
  }

  // ---- Appending the copies ----

  /** Ids `from`, `from + 1`, ..., `from + n - 1`. */
  function NewIds(from: nat, n: nat): (ids: seq<NodeId>)
    ensures |ids| == n
  {
    seq(n, i => from + i)
  }

  /** The arena after `new StoryNodeItem(scene, parent)` for each Uuid of `us`
      in turn. */
  function AppendCopies(nodes: seq<StoryNode>, parent: NodeId, us: seq<Uuid>): (r: seq<StoryNode>)
    requires parent < |nodes|
    ensures |r| == |nodes| + |us|
    decreases |us|
  {
    if us == [] then nodes
    else AddNode(AppendCopies(nodes, parent, us[..|us| - 1]), parent, us[|us| - 1], Scene)
  }

  /** The ghost depths after `n` nodes are appended below `parent`. */
  ghost function CopiesDepth(depth: seq<nat>, parent: NodeId, n: nat): (d: seq<nat>)
    requires parent < |depth|
    ensures |d| == |depth| + n
  {
    depth + seq(n, _ => depth[parent] + 1)
  }

  lemma CopiesDepthSnoc(depth: seq<nat>, parent: NodeId, n: nat)
    requires parent < |depth|
    ensures CopiesDepth(depth, parent, n + 1) == CopiesDepth(depth, parent, n) + [CopiesDepth(depth, parent, n)[parent] + 1]
  {
  }

  /** Appending no copies changes nothing. */
  lemma NoCopies(nodes: seq<StoryNode>, depth: seq<nat>, parent: NodeId)
    requires parent < |nodes| && parent < |depth|
    ensures AppendCopies(nodes, parent, []) == nodes && CopiesDepth(depth, parent, 0) == depth
  {
  }

  /** Appending one more copy is one more `new StoryNodeItem(scene, parent)`. */
  lemma OneMoreCopy(nodes: seq<StoryNode>, depth: seq<nat>, parent: NodeId, us: seq<Uuid>, u: Uuid)
    requires parent < |nodes| && parent < |depth|
    ensures AppendCopies(nodes, parent, us + [u]) == AddNode(AppendCopies(nodes, parent, us), parent, u, Scene)
    ensures CopiesDepth(depth, parent, |us + [u]|) == CopiesDepth(depth, parent, |us|) + [CopiesDepth(depth, parent, |us|)[parent] + 1]
  {
    assert (us + [u])[..|us|] == us;
    CopiesDepthSnoc(depth, parent, |us|);
  }

  /** The appended nodes, in closed form: `parent` gains the ids
      |nodes| .. |nodes| + |us| - 1 at the end of its Children, those ids are
      fresh childless Scene nodes carrying the Uuids `us`, and every other node
      is unchanged. */
  lemma {:induction false} AppendCopiesShape(nodes: seq<StoryNode>, parent: NodeId, us: seq<Uuid>)
    requires parent < |nodes|
    ensures var r := AppendCopies(nodes, parent, us);
      && (forall x :: 0 <= x < |nodes| && x != parent ==> r[x] == nodes[x])
      && r[parent] == nodes[parent].(children := nodes[parent].children + NewIds(|nodes|, |us|))
      && (forall k :: 0 <= k < |us| ==> r[|nodes| + k] == StoryNode(us[k], Scene, [], Some(parent)))
    decreases |us|
  {
    if us != [] {
      var init := us[..|us| - 1];
      AppendCopiesShape(nodes, parent, init);
      var r0 := AppendCopies(nodes, parent, init);
      var r := AppendCopies(nodes, parent, us);
      assert r == AddNode(r0, parent, us[|us| - 1], Scene);
      assert r[parent].children == r0[parent].children + [|r0|];
      assert NewIds(|nodes|, |init|) + [|r0|] == NewIds(|nodes|, |us|);
      forall k | 0 <= k < |us| ensures r[|nodes| + k] == StoryNode(us[k], Scene, [], Some(parent)) {
        if k < |init| {
          assert us[k] == init[k];
        }
      }
    }
  }

  /** Appending copies keeps the arena a forest. */
  lemma {:induction false} AppendCopiesWellFormed(nodes: seq<StoryNode>, depth: seq<nat>, parent: NodeId, us: seq<Uuid>)
    requires WellFormed(nodes, depth) && parent < |nodes|
    ensures WellFormed(AppendCopies(nodes, parent, us), CopiesDepth(depth, parent, |us|))
    decreases |us|
  {
    if us == [] {
      assert CopiesDepth(depth, parent, 0) == depth;
    } else {
      var init := us[..|us| - 1];
      AppendCopiesWellFormed(nodes, depth, parent, init);
      var r0, d0 := AppendCopies(nodes, parent, init), CopiesDepth(depth, parent, |init|);
      CopiesDepthSnoc(depth, parent, |init|);
      assert CopiesDepth(depth, parent, |us|) == d0 + [d0[parent] + 1];
      assert AppendCopies(nodes, parent, us) == AddNode(r0, parent, us[|us| - 1], Scene);
      AddNodeWellFormed(r0, d0, parent, us[|us| - 1], Scene);
    }
  }

  /** One appended node: the flattening of a list that avoids `parent` is
      unchanged. */
  lemma AddNodeFrame(nodes: seq<StoryNode>, depth: seq<nat>, parent: NodeId, u: Uuid, kind: StoryItemType, list: seq<NodeId>)
    requires WellFormed(nodes, depth) && parent < |nodes| && Siblings(nodes, depth, list)
    requires parent !in RecursiveCheck(nodes, depth, list)
    ensures var r, d := AddNode(nodes, parent, u, kind), depth + [depth[parent] + 1];
      WellFormed(r, d) && Siblings(r, d, list) && RecursiveCheck(r, d, list) == RecursiveCheck(nodes, depth, list)
  {
    var r, d := AddNode(nodes, parent, u, kind), depth + [depth[parent] + 1];
    AddNodeWellFormed(nodes, depth, parent, u, kind);
    var flat := RecursiveCheck(nodes, depth, list);
    forall k | 0 <= k < |flat| && flat[k] < |nodes|
      ensures flat[k] < |r| && r[flat[k]].children == nodes[flat[k]].children
    {
      assert flat[k] in flat;
    }
    FlattenFrame(nodes, depth, r, d, list);
  }

  /** One appended node: the view below `parent` gains exactly its Uuid, at the end. */
  lemma AddNodeView(nodes: seq<StoryNode>, depth: seq<nat>, parent: NodeId, u: Uuid, kind: StoryItemType)
    requires WellFormed(nodes, depth) && parent < |nodes|
    ensures var r, d := AddNode(nodes, parent, u, kind), depth + [depth[parent] + 1];
      WellFormed(r, d) && ViewUuids(r, d, parent) == ViewUuids(nodes, depth, parent) + [u]
  {
    var n := |nodes|;
    var r, d := AddNode(nodes, parent, u, kind), depth + [depth[parent] + 1];
    AddNodeWellFormed(nodes, depth, parent, u, kind);
    var ch := nodes[parent].children;
    ChildrenAreSiblings(nodes, depth, parent);
    ChildrenAreSiblings(r, d, parent);
    assert r[parent].children == ch + [n];
    FlattenHoldsDescendants(nodes, depth, parent, parent);
    AddNodeFrame(nodes, depth, parent, u, kind, ch);
    FlattenConcat(r, d, ch, [n]);
    assert RecursiveCheck(r, d, [n]) == [n] by {
      assert r[n].children == [];
      assert [n][1..] == [];
    }
    var flat := RecursiveCheck(nodes, depth, ch);
    assert RecursiveCheck(r, d, r[parent].children) == flat + [n];
    UuidsOfAddNode(nodes, parent, u, kind, flat);
  }

  /** Appending a node keeps the Uuids of the old ones and shows its own. */
  lemma UuidsOfAddNode(nodes: seq<StoryNode>, parent: NodeId, u: Uuid, kind: StoryItemType, flat: seq<NodeId>)
    requires parent < |nodes| && forall k :: 0 <= k < |flat| ==> flat[k] < |nodes|
    ensures var r := AddNode(nodes, parent, u, kind);
      UuidsOf(r, flat + [|nodes|]) == UuidsOf(nodes, flat) + [u]
  {
    var r, n := AddNode(nodes, parent, u, kind), |nodes|;
    var lhs, rhs := UuidsOf(r, flat + [n]), UuidsOf(nodes, flat) + [u];
    forall k | 0 <= k < |flat| + 1 ensures lhs[k] == rhs[k] {
      if k < |flat| {
        assert (flat + [n])[k] == flat[k];
      }
    }
  }

  /** Appending copies below a view root shows their Uuids at the end of that
      view. */
  lemma {:induction false} AppendCopiesView(nodes: seq<StoryNode>, depth: seq<nat>, parent: NodeId, us: seq<Uuid>)
    requires WellFormed(nodes, depth) && parent < |nodes|
    ensures WellFormed(AppendCopies(nodes, parent, us), CopiesDepth(depth, parent, |us|))
    ensures ViewUuids(AppendCopies(nodes, parent, us), CopiesDepth(depth, parent, |us|), parent)
      == ViewUuids(nodes, depth, parent) + us
    decreases |us|
  {
    if us == [] {
      NoCopies(nodes, depth, parent);
    } else {
      var init, u := us[..|us| - 1], us[|us| - 1];
      assert us == init + [u];
      var r0, d0 := AppendCopies(nodes, parent, init), CopiesDepth(depth, parent, |init|);
      AppendCopiesView(nodes, depth, parent, init);
      OneMoreCopy(nodes, depth, parent, init, u);
      AddNodeViewAt(AppendCopies(nodes, parent, us), CopiesDepth(depth, parent, |us|), r0, d0, parent, u,
        ViewUuids(nodes, depth, parent) + init);
      SnocSplit(ViewUuids(nodes, depth, parent), us);
    }
  }

  lemma SnocSplit<T>(v: seq<T>, us: seq<T>)
    requires us != []
    ensures v + us[..|us| - 1] + [us[|us| - 1]] == v + us
  {
  }

  /** AddNodeView, for an arena and depths already known to be the grown ones. */
  lemma AddNodeViewAt(r: seq<StoryNode>, d: seq<nat>, nodes: seq<StoryNode>, depth: seq<nat>, parent: NodeId, u: Uuid, before: seq<Uuid>)
    requires WellFormed(nodes, depth) && parent < |nodes|
    requires r == AddNode(nodes, parent, u, Scene) && d == depth + [depth[parent] + 1]
    requires ViewUuids(nodes, depth, parent) == before
    ensures WellFormed(r, d) && ViewUuids(r, d, parent) == before + [u]
  {
    AddNodeView(nodes, depth, parent, u, Scene);
  }

  /** Appending copies below `parent` leaves the flattening of any list that
      avoids `parent` unchanged (the Explorer view, in particular). */
  lemma {:induction false} AppendCopiesFrame(nodes: seq<StoryNode>, depth: seq<nat>, parent: NodeId, us: seq<Uuid>, list: seq<NodeId>)
    requires WellFormed(nodes, depth) && parent < |nodes| && Siblings(nodes, depth, list)
    requires parent !in RecursiveCheck(nodes, depth, list)
    ensures WellFormed(AppendCopies(nodes, parent, us), CopiesDepth(depth, parent, |us|))
    ensures Siblings(AppendCopies(nodes, parent, us), CopiesDepth(depth, parent, |us|), list)
    ensures RecursiveCheck(AppendCopies(nodes, parent, us), CopiesDepth(depth, parent, |us|), list)
      == RecursiveCheck(nodes, depth, list)
    decreases |us|
  {
    AppendCopiesWellFormed(nodes, depth, parent, us);
    if us == [] {
      NoCopies(nodes, depth, parent);
    } else {
      var init, u := us[..|us| - 1], us[|us| - 1];
      assert us == init + [u];
      AppendCopiesFrame(nodes, depth, parent, init, list);
      OneMoreCopy(nodes, depth, parent, init, u);
      var r0, d0 := AppendCopies(nodes, parent, init), CopiesDepth(depth, parent, |init|);
      var r, d := AppendCopies(nodes, parent, us), CopiesDepth(depth, parent, |us|);
      AddNodeFrameAt(r0, d0, r, d, parent, u, list, RecursiveCheck(nodes, depth, list));
    }
  }

  /** AddNodeFrame, for an arena and depths already known to be the grown ones. */
  lemma AddNodeFrameAt(nodes: seq<StoryNode>, depth: seq<nat>, r: seq<StoryNode>, d: seq<nat>, parent: NodeId, u: Uuid, list: seq<NodeId>, flat: seq<NodeId>)
    requires WellFormed(nodes, depth) && parent < |nodes| && Siblings(nodes, depth, list)
    requires RecursiveCheck(nodes, depth, list) == flat && parent !in flat
    requires r == AddNode(nodes, parent, u, Scene) && d == depth + [depth[parent] + 1]
    ensures WellFormed(r, d) && Siblings(r, d, list) && RecursiveCheck(r, d, list) == flat
  {
    AddNodeFrame(nodes, depth, parent, u, Scene, list);
  }

  /** Appending in two rounds is appending the concatenation. */
  lemma {:induction false} AppendCopiesConcat(nodes: seq<StoryNode>, parent: NodeId, u1: seq<Uuid>, u2: seq<Uuid>)
    requires parent < |nodes|
    ensures AppendCopies(AppendCopies(nodes, parent, u1), parent, u2) == AppendCopies(nodes, parent, u1 + u2)
    decreases |u2|
  {
    if u2 == [] {
      assert u1 + u2 == u1;
    } else {
      AppendCopiesConcat(nodes, parent, u1, u2[..|u2| - 1]);
      assert (u1 + u2)[..|u1 + u2| - 1] == u1 + u2[..|u2| - 1];
    }
  }

  lemma CopiesDepthConcat(depth: seq<nat>, parent: NodeId, n1: nat, n2: nat)
    requires parent < |depth|
    ensures CopiesDepth(CopiesDepth(depth, parent, n1), parent, n2) == CopiesDepth(depth, parent, n1 + n2)
  {
  }
}
