/** NarrativeToolVM: copying Scenes from the Explorer view into the Narrator
    view, removing nodes from the Narrator view and adding Sections to it.
    The `Message` property is kept as the outcome it reports. */
module NarrativeTool {
  import opened Wrappers
  import opened StoryTree
  import opened NarrativeFlatten
  import opened NarrativeCopy

  /** The outcome shown in the tool's Message property. */
  datatype Message =
    | NoMessage        // never set yet
    | Copied           // "Copied <name>"
    | AlreadyAppears   // "This scene already appears in the narrative view."
    | CopiedChildren   // "Copied <children> and child scenes."
    | CantCopy         // "You can't copy that."
    | CantDeleteNode   // "You can't delete this node!"
    | Deleted          // "Deleted <node>"
    | CantDeleteHere   // "You can't delete from here!"

  // ---- Specification of CopyAllUnused ----

  /** The Uuids CopyAllUnused appends: the walk over the whole Explorer view
      in pre-order, skipping Scenes the Narrator view already shows. */
  ghost function AllUnused(nodes: seq<StoryNode>, depth: seq<nat>, explorer: NodeId, narrator: NodeId): seq<Uuid>
    requires WellFormed(nodes, depth) && explorer < |nodes| && narrator < |nodes|
  {
    ChildrenAreSiblings(nodes, depth, explorer);
    Unused(nodes, RecursiveCheck(nodes, depth, nodes[explorer].children), ViewUuids(nodes, depth, narrator))
  }

  /** A root is not below a non-root node. */
  lemma RootNotBelow(nodes: seq<StoryNode>, depth: seq<nat>, root: NodeId, list: seq<NodeId>)
    requires WellFormed(nodes, depth) && root < |nodes| && IsRoot(nodes[root])
    requires Siblings(nodes, depth, list) && list != [] && depth[list[0]] >= 1
    ensures root !in RecursiveCheck(nodes, depth, list)
  {
    if root in RecursiveCheck(nodes, depth, list) {
      FlattenUnder(nodes, depth, list, root);
      var k :| 0 <= k < |list| && Descends(nodes, depth, root, list[k]);
      DescendsDepth(nodes, depth, root, list[k]);
    }
  }

  /** Two distinct roots: neither view lies inside the other. */
  lemma ViewsDisjoint(nodes: seq<StoryNode>, depth: seq<nat>, explorer: NodeId, narrator: NodeId)
    requires WellFormed(nodes, depth) && explorer < |nodes| && narrator < |nodes| && explorer != narrator
    requires IsRoot(nodes[explorer]) && IsRoot(nodes[narrator])
    ensures Siblings(nodes, depth, nodes[explorer].children)
    ensures narrator !in RecursiveCheck(nodes, depth, nodes[explorer].children)
  {
    ChildrenAreSiblings(nodes, depth, explorer);
    FlattenHoldsDescendants(nodes, depth, explorer, narrator);
    if Descends(nodes, depth, narrator, explorer) {
      DescendsDepth(nodes, depth, narrator, explorer);
    }
  }

  /** Extending a walk: after the copies for `walked`, walking `more` in the
      grown arena appends what walking `walked + more` in the original arena
      appends after them. */
  lemma WalkExtend(nodes: seq<StoryNode>, depth: seq<nat>, narrator: NodeId, walked: seq<NodeId>, more: seq<NodeId>)
    requires WellFormed(nodes, depth) && narrator < |nodes|
    requires InArena(nodes, walked) && InArena(nodes, more)
    ensures var present := ViewUuids(nodes, depth, narrator);
      var u := Unused(nodes, walked, present);
      var s, d := AppendCopies(nodes, narrator, u), CopiesDepth(depth, narrator, |u|);
      && WellFormed(s, d) && InArena(s, more) && InArena(nodes, walked + more)
      && var v := Unused(s, more, ViewUuids(s, d, narrator));
      && AppendCopies(s, narrator, v) == AppendCopies(nodes, narrator, Unused(nodes, walked + more, present))
      && CopiesDepth(d, narrator, |v|) == CopiesDepth(depth, narrator, |Unused(nodes, walked + more, present)|)
  {
    var present := ViewUuids(nodes, depth, narrator);
    var u := Unused(nodes, walked, present);
    AppendCopiesView(nodes, depth, narrator, u);
    WalkLists(nodes, narrator, walked, more, present);
    var v := Unused(AppendCopies(nodes, narrator, u), more, present + u);
    CopiesDepthConcat(depth, narrator, |u|, |v|);
  }

  /** WalkExtend on the arena alone: the walk over `walked + more` is the
      walk over `walked`, then the walk over `more` in the grown arena, with
      the copies made so far counted as present. */
  lemma WalkLists(nodes: seq<StoryNode>, narrator: NodeId, walked: seq<NodeId>, more: seq<NodeId>, present: seq<Uuid>)
    requires narrator < |nodes| && InArena(nodes, walked) && InArena(nodes, more)
    ensures var u := Unused(nodes, walked, present);
      var s := AppendCopies(nodes, narrator, u);
      && InArena(s, more) && InArena(nodes, walked + more)
      && var v := Unused(s, more, present + u);
      && Unused(nodes, walked + more, present) == u + v
      && AppendCopies(s, narrator, v) == AppendCopies(nodes, narrator, u + v)
  {
    var u := Unused(nodes, walked, present);
    var v := Unused(nodes, more, present + u);
    AppendCopiesKeepItems(nodes, narrator, u, more, present + u);
    UnusedConcatAt(nodes, walked, more, walked + more, present, u, v);
    AppendCopiesConcat(nodes, narrator, u, v);
  }

  /** The walk over `more` reads the same Uuids and types after copies are
      appended. */
  lemma AppendCopiesKeepItems(nodes: seq<StoryNode>, narrator: NodeId, u: seq<Uuid>, more: seq<NodeId>, present: seq<Uuid>)
    requires narrator < |nodes| && InArena(nodes, more)
    ensures InArena(AppendCopies(nodes, narrator, u), more)
    ensures Unused(AppendCopies(nodes, narrator, u), more, present) == Unused(nodes, more, present)
  {
    var s := AppendCopies(nodes, narrator, u);
    AppendCopiesShape(nodes, narrator, u);
    UnusedFrame(nodes, s, more, present);
  }

  /** One step of a walk over whole subtrees: the subtree of the non-root `c`
      flattens alike before and after copies are appended below a root. */
  lemma WalkStep(nodes: seq<StoryNode>, depth: seq<nat>, narrator: NodeId, walked: seq<NodeId>, c: NodeId)
    requires WellFormed(nodes, depth) && narrator < |nodes| && IsRoot(nodes[narrator])
    requires InArena(nodes, walked) && c < |nodes| && depth[c] >= 1
    ensures Siblings(nodes, depth, [c])
    ensures var u := Unused(nodes, walked, ViewUuids(nodes, depth, narrator));
      var s, d := AppendCopies(nodes, narrator, u), CopiesDepth(depth, narrator, |u|);
      && WellFormed(s, d) && Siblings(s, d, [c])
      && RecursiveCheck(s, d, [c]) == RecursiveCheck(nodes, depth, [c])
  {
    var u := Unused(nodes, walked, ViewUuids(nodes, depth, narrator));
    assert Siblings(nodes, depth, [c]);
    RootNotBelow(nodes, depth, narrator, [c]);
    AppendCopiesFrame(nodes, depth, narrator, u, [c]);
  }

  /** Everything a call RecurseCopyUnused(c) needs, in the arena grown by
      the copies for `walked`, and what its result amounts to. */
  lemma SubtreeStep(nodes: seq<StoryNode>, depth: seq<nat>, narrator: NodeId, walked: seq<NodeId>, c: NodeId)
    requires WellFormed(nodes, depth) && narrator < |nodes| && IsRoot(nodes[narrator])
    requires InArena(nodes, walked) && c < |nodes| && depth[c] >= 1
    ensures Siblings(nodes, depth, [c]) && InArena(nodes, walked + RecursiveCheck(nodes, depth, [c]))
    ensures var present := ViewUuids(nodes, depth, narrator);
      var u := Unused(nodes, walked, present);
      var s, d := AppendCopies(nodes, narrator, u), CopiesDepth(depth, narrator, |u|);
      && WellFormed(s, d) && c < |s| && d[c] == depth[c] && Max(d) == Max(depth)
      && Siblings(s, d, [c])
      && var v := Unused(s, RecursiveCheck(s, d, [c]), ViewUuids(s, d, narrator));
      && var w := Unused(nodes, walked + RecursiveCheck(nodes, depth, [c]), present);
      && AppendCopies(s, narrator, v) == AppendCopies(nodes, narrator, w)
      && CopiesDepth(d, narrator, |v|) == CopiesDepth(depth, narrator, |w|)
      && (forall x :: 0 <= x < |nodes| && x != narrator ==> AppendCopies(nodes, narrator, w)[x] == nodes[x])
  {
    var present := ViewUuids(nodes, depth, narrator);
    var u := Unused(nodes, walked, present);
    WalkStep(nodes, depth, narrator, walked, c);
    var m := RecursiveCheck(nodes, depth, [c]);
    assert InArena(nodes, m);
    WalkExtend(nodes, depth, narrator, walked, m);
    assert Max(depth) >= 1 by { assert depth[c] <= Max(depth); }
    MaxCopiesDepth(depth, narrator, |u|);
    AppendCopiesShape(nodes, narrator, Unused(nodes, walked + m, present));
  }

  lemma {:induction false} MaxConcat(s: seq<nat>, t: seq<nat>)
    ensures Max(s + t) == if Max(s) < Max(t) then Max(t) else Max(s)
    decreases |s|
  {
    if s != [] {
      MaxConcat(s[1..], t);
      assert (s + t)[1..] == s[1..] + t;
    } else {
      assert s + t == t;
    }
  }

  lemma {:induction false} MaxBound(s: seq<nat>, v: nat)
    requires forall i :: 0 <= i < |s| ==> s[i] <= v
    ensures Max(s) <= v
    decreases |s|
  {
    if s != [] {
      MaxBound(s[1..], v);
    }
  }

  /** Appending copies below a root does not deepen the forest, once it has
      any node below a root. */
  lemma MaxCopiesDepth(depth: seq<nat>, narrator: NodeId, n: nat)
    requires narrator < |depth| && depth[narrator] == 0 && Max(depth) >= 1
    ensures Max(CopiesDepth(depth, narrator, n)) == Max(depth)
  {
    var t: seq<nat> := seq(n, _ => depth[narrator] + 1);
    assert CopiesDepth(depth, narrator, n) == depth + t;
    MaxConcat(depth, t);
    MaxBound(t, 1);
  }

  /** A call RecurseCopyUnused(item): copying `item` itself, then walking its
      Children in the grown arena, appends what the walk over the flattening
      of `[item]` appends. */
  lemma ItemThenChildren(nodes: seq<StoryNode>, depth: seq<nat>, narrator: NodeId, item: NodeId)
    requires WellFormed(nodes, depth) && narrator < |nodes| && IsRoot(nodes[narrator])
    requires item < |nodes| && depth[item] >= 1
    ensures Siblings(nodes, depth, [item]) && item != narrator
    ensures var present := ViewUuids(nodes, depth, narrator);
      var u := Unused(nodes, [item], present);
      var s, d := AppendCopies(nodes, narrator, u), CopiesDepth(depth, narrator, |u|);
      && WellFormed(s, d) && item < |s| && s[item].children == nodes[item].children
      && d[item] == depth[item] && Max(d) == Max(depth)
      && Siblings(s, d, s[item].children)
      && var v := Unused(s, RecursiveCheck(s, d, s[item].children), ViewUuids(s, d, narrator));
      && var w := Unused(nodes, RecursiveCheck(nodes, depth, [item]), present);
      && AppendCopies(s, narrator, v) == AppendCopies(nodes, narrator, w)
      && CopiesDepth(d, narrator, |v|) == CopiesDepth(depth, narrator, |w|)
  {
    var present := ViewUuids(nodes, depth, narrator);
    var u := Unused(nodes, [item], present);
    var ch := nodes[item].children;
    assert item != narrator;
    AppendCopiesShape(nodes, narrator, u);
    ChildrenAreSiblings(nodes, depth, item);
    FlattenOne(nodes, depth, item);
    if ch != [] {
      assert ch[0] in ch;
      RootNotBelow(nodes, depth, narrator, ch);
    }
    AppendCopiesFrame(nodes, depth, narrator, u, ch);
    var m := RecursiveCheck(nodes, depth, ch);
    assert InArena(nodes, m);
    WalkExtend(nodes, depth, narrator, [item], m);
    assert Max(depth) >= 1 by { assert depth[item] <= Max(depth); }
    MaxCopiesDepth(depth, narrator, |u|);
  }

  /** A walk over the single item `x`: it appends the Scene's Uuid when the
      view lacks it, as one `new StoryNodeItem`, and nothing otherwise. */
  lemma CopyOne(nodes: seq<StoryNode>, depth: seq<nat>, narrator: NodeId, x: NodeId)
    requires WellFormed(nodes, depth) && narrator < |nodes| && x < |nodes|
    ensures var present := ViewUuids(nodes, depth, narrator);
      var us := Unused(nodes, [x], present);
      if nodes[x].kind == Scene && nodes[x].uuid !in present then
        && AppendCopies(nodes, narrator, us) == AddNode(nodes, narrator, nodes[x].uuid, Scene)
        && CopiesDepth(depth, narrator, |us|) == depth + [depth[narrator] + 1]
      else
        AppendCopies(nodes, narrator, us) == nodes && CopiesDepth(depth, narrator, |us|) == depth
  {
    var present := ViewUuids(nodes, depth, narrator);
    assert [x][..0] == [] && present + [] == present && Unused(nodes, [], present) == [];
    NoCopies(nodes, depth, narrator);
    OneMoreCopy(nodes, depth, narrator, [], nodes[x].uuid);
  }

  /** The Uuids the copy walk has appended after its first `i` items. */
  ghost function Walked(nodes: seq<StoryNode>, items: seq<NodeId>, i: nat, present: seq<Uuid>): seq<Uuid>
    requires InArena(nodes, items) && i <= |items|
  {
    assert InArena(nodes, items[..i]);
    Unused(nodes, items[..i], present)
  }

  class NarrativeToolVM {
    /** The shell's StoryModel. */
    const model: StoryModel
    var selectedNode: Option<NodeId>
    var isNarratorSelected: bool
    var message: Message

    ghost predicate Valid()
      reads this, model
    {
      model.Valid() && (selectedNode.Some? ==> selectedNode.value < |model.nodes|)
    }

    constructor (model: StoryModel)
      requires model.Valid()
      ensures Valid() && this.model == model
      ensures selectedNode == None && !isNarratorSelected && message == NoMessage
    {
      this.model := model;
      selectedNode := None;
      isNarratorSelected := false;
      message := NoMessage;
    }

    /** Delete: the source warns about a TrashCan or root selection but goes
        on regardless; it removes the selection only from the Narrator view.
        Detaching a node without a Parent changes nothing, so for a root the
        warning is overwritten by Deleted and the tree stays as it was. */
    method Delete()
      requires Valid()
      modifies this, model
      ensures Valid() && selectedNode == old(selectedNode) && isNarratorSelected == old(isNarratorSelected)
      ensures selectedNode.None? ==> model.nodes == old(model.nodes) && message == old(message)
      ensures selectedNode.Some? && isNarratorSelected ==>
        model.nodes == Detach(old(model.nodes), selectedNode.value) && message == Deleted
      ensures selectedNode.Some? && isNarratorSelected && IsRoot(old(model.nodes)[selectedNode.value]) ==>
        model.nodes == old(model.nodes) && message == Deleted
      ensures selectedNode.Some? && !isNarratorSelected ==>
        model.nodes == old(model.nodes) && message == CantDeleteHere
    {
      if selectedNode.Some? {
        var s := selectedNode.value;
        if model.nodes[s].kind == TrashCan || IsRoot(model.nodes[s]) {
          message := CantDeleteNode;
        }
        if isNarratorSelected {
          model.Remove(s);
          message := Deleted;
        } else {
          message := CantDeleteHere;
        }
      }
    }

    /** The check shared by Copy and RecurseCopyUnused: a Scene whose Uuid
        the flattened Narrator view does not show gets a new node under the
        Narrator root. */
    method CopyIfUnused(x: NodeId) returns (copied: bool)
      requires model.Valid() && x < |model.nodes|
      modifies model
      ensures model.Valid()
      ensures copied <==> old(model.nodes[x].kind == Scene && model.nodes[x].uuid !in ViewUuids(model.nodes, model.depth, model.narratorRoot))
      ensures copied ==> model.nodes == AddNode(old(model.nodes), model.narratorRoot, old(model.nodes[x].uuid), Scene)
      ensures !copied ==> model.nodes == old(model.nodes)
      ensures var us := Unused(old(model.nodes), [x], old(ViewUuids(model.nodes, model.depth, model.narratorRoot)));
        model.nodes == AppendCopies(old(model.nodes), model.narratorRoot, us)
        && model.depth == CopiesDepth(old(model.depth), model.narratorRoot, |us|)
    {
      ghost var nodes0, depth0 := model.nodes, model.depth;
      var narrator := model.narratorRoot;
      var node := model.nodes[x];
      CopyOne(nodes0, depth0, narrator, x);
      copied := false;
      if node.kind == Scene && node.uuid !in ViewUuids(model.nodes, model.depth, narrator) {
        model.AddChild(narrator, node.uuid, Scene);
        copied := true;
      }
    }

    /** Copy: a Scene is copied unless the Narrator view already shows it; a
        Folder or Section has each Scene of its flattened Children copied,
        re-checking presence item by item; nothing else is copied. */
    method Copy()
      requires Valid()
      modifies this, model
      ensures Valid() && selectedNode == old(selectedNode) && isNarratorSelected == old(isNarratorSelected)
      ensures selectedNode.None? ==> model.nodes == old(model.nodes) && message == old(message)
      ensures selectedNode.Some? ==>
        var s, narrator := selectedNode.value, model.narratorRoot;
        var node := old(model.nodes[s]);
        var present := old(ViewUuids(model.nodes, model.depth, narrator));
        if node.kind == Scene then
          if node.uuid in present then model.nodes == old(model.nodes) && message == AlreadyAppears
          else model.nodes == AddNode(old(model.nodes), narrator, node.uuid, Scene) && message == Copied
        else if node.kind == Folder || node.kind == Section then
          && Siblings(old(model.nodes), old(model.depth), node.children)
          && var items := RecursiveCheck(old(model.nodes), old(model.depth), node.children);
          && var us := Unused(old(model.nodes), items, present);
          && model.nodes == AppendCopies(old(model.nodes), narrator, us)
          && model.depth == CopiesDepth(old(model.depth), narrator, |us|)
          && message == CopiedChildren
        else model.nodes == old(model.nodes) && message == CantCopy
    {
      if selectedNode.None? {
        return;
      }
      var s := selectedNode.value;
      var node := model.nodes[s];
      if node.kind == Scene {
        CopyScene(s);
      } else if node.kind == Folder || node.kind == Section {
        CopyScenesOf(s);
        message := CopiedChildren;
      } else {
        message := CantCopy;
      }
    }

    /** Copy's Scene branch: copy the Scene unless the Narrator view shows
        it, and report which. */
    method CopyScene(s: NodeId)
      requires Valid() && s < |model.nodes| && model.nodes[s].kind == Scene
      modifies this, model
      ensures Valid() && selectedNode == old(selectedNode) && isNarratorSelected == old(isNarratorSelected)
      ensures var node, narrator := old(model.nodes[s]), model.narratorRoot;
        if node.uuid in old(ViewUuids(model.nodes, model.depth, narrator)) then
          model.nodes == old(model.nodes) && message == AlreadyAppears
        else model.nodes == AddNode(old(model.nodes), narrator, node.uuid, Scene) && message == Copied
    {
      var copied := CopyIfUnused(s);
      message := if copied then Copied else AlreadyAppears;
    }

    /** Copy's loop over the flattened Children of a Folder or Section: the
        list is taken once, before any copy is made. */
    method CopyScenesOf(s: NodeId)
      requires model.Valid() && s < |model.nodes|
      modifies model
      ensures model.Valid()
      ensures Siblings(old(model.nodes), old(model.depth), old(model.nodes[s].children))
      ensures var items := RecursiveCheck(old(model.nodes), old(model.depth), old(model.nodes[s].children));
        var us := Unused(old(model.nodes), items, old(ViewUuids(model.nodes, model.depth, model.narratorRoot)));
        model.nodes == AppendCopies(old(model.nodes), model.narratorRoot, us)
        && model.depth == CopiesDepth(old(model.depth), model.narratorRoot, |us|)
    {
      ghost var nodes0, depth0 := model.nodes, model.depth;
      var narrator := model.narratorRoot;
      ghost var present := ViewUuids(nodes0, depth0, narrator);
      ChildrenAreSiblings(nodes0, depth0, s);
      var items := RecursiveCheck(model.nodes, model.depth, model.nodes[s].children);
      assert InArena(nodes0, items);
      NoCopies(nodes0, depth0, narrator);
      assert items[..0] == [];
      var i := 0;
      while i < |items|
        invariant 0 <= i <= |items| && model.Valid()
        invariant model.nodes == AppendCopies(nodes0, narrator, Walked(nodes0, items, i, present))
        invariant model.depth == CopiesDepth(depth0, narrator, |Walked(nodes0, items, i, present)|)
      {
        CopyItem(nodes0, depth0, present, items, i);
        i := i + 1;
      }
      assert items[..|items|] == items;
    }

    /** One pass of Copy's loop: the copy walk advances by one item. */
    method CopyItem(ghost nodes0: seq<StoryNode>, ghost depth0: seq<nat>, ghost present: seq<Uuid>, items: seq<NodeId>, i: nat)
      requires model.Valid() && WellFormed(nodes0, depth0) && model.narratorRoot < |nodes0|
      requires InArena(nodes0, items) && i < |items|
      requires present == ViewUuids(nodes0, depth0, model.narratorRoot)
      requires model.nodes == AppendCopies(nodes0, model.narratorRoot, Walked(nodes0, items, i, present))
      requires model.depth == CopiesDepth(depth0, model.narratorRoot, |Walked(nodes0, items, i, present)|)
      modifies model
      ensures model.Valid()
      ensures model.nodes == AppendCopies(nodes0, model.narratorRoot, Walked(nodes0, items, i + 1, present))
      ensures model.depth == CopiesDepth(depth0, model.narratorRoot, |Walked(nodes0, items, i + 1, present)|)
    {
      assert items[..i + 1] == items[..i] + [items[i]];
      WalkExtend(nodes0, depth0, model.narratorRoot, items[..i], [items[i]]);
      var _ := CopyIfUnused(items[i]);
    }

    /** CopyAllUnused: RecurseCopyUnused on each child of the Explorer root. */
    method CopyAllUnused()
      requires Valid()
      modifies model
      ensures Valid()
      ensures model.nodes == AppendCopies(old(model.nodes), model.narratorRoot,
        AllUnused(old(model.nodes), old(model.depth), model.explorerRoot, model.narratorRoot))
      ensures model.depth == CopiesDepth(old(model.depth), model.narratorRoot,
        |AllUnused(old(model.nodes), old(model.depth), model.explorerRoot, model.narratorRoot)|)
    {
      CopyUnusedInChildren(model.explorerRoot);
    }

    /** The loop `foreach (child in item.Children) RecurseCopyUnused(child)`
        shared by CopyAllUnused and RecurseCopyUnused: the Children list is
        walked as it was on entry, each child's subtree in turn. */
    method CopyUnusedInChildren(p: NodeId)
      requires model.Valid() && p < |model.nodes| && p != model.narratorRoot
      modifies model
      ensures model.Valid()
      ensures Siblings(old(model.nodes), old(model.depth), old(model.nodes[p].children))
      ensures var items := RecursiveCheck(old(model.nodes), old(model.depth), old(model.nodes[p].children));
        var us := Unused(old(model.nodes), items, old(ViewUuids(model.nodes, model.depth, model.narratorRoot)));
        model.nodes == AppendCopies(old(model.nodes), model.narratorRoot, us)
        && model.depth == CopiesDepth(old(model.depth), model.narratorRoot, |us|)
      decreases Max(model.depth) - model.depth[p], 0
    {
      ghost var nodes0, depth0 := model.nodes, model.depth;
      var narrator := model.narratorRoot;
      ghost var present := ViewUuids(nodes0, depth0, narrator);
      ChildrenAreSiblings(nodes0, depth0, p);
      var children := model.nodes[p].children;
      NoCopies(nodes0, depth0, narrator);
      assert children[..0] == [];
      ghost var walked: seq<NodeId> := [];
      var j := 0;
      while j < |children|
        invariant 0 <= j <= |children| && model.Valid()
        invariant Siblings(nodes0, depth0, children[..j])
        invariant walked == RecursiveCheck(nodes0, depth0, children[..j])
        invariant InArena(nodes0, walked)
        invariant model.nodes == AppendCopies(nodes0, narrator, Unused(nodes0, walked, present))
        invariant model.depth == CopiesDepth(depth0, narrator, |Unused(nodes0, walked, present)|)
        invariant model.nodes[p].children == children
      {
        var c := children[j];
        assert c in nodes0[p].children;
        SubtreeStep(nodes0, depth0, narrator, walked, c);
        RecurseCopyUnused(c);
        FlattenSnoc(nodes0, depth0, children, j);
        walked := walked + RecursiveCheck(nodes0, depth0, [c]);
        j := j + 1;
      }
      assert children[..|children|] == children;
    }

    /** RecurseCopyUnused(item): copies `item` if it is a Scene the Narrator
        view lacks, then recurses into its Children in order. */
    method RecurseCopyUnused(item: NodeId)
      requires model.Valid() && item < |model.nodes| && model.depth[item] >= 1
      modifies model
      ensures model.Valid()
      ensures Siblings(old(model.nodes), old(model.depth), [item])
      ensures model.nodes == AppendCopies(old(model.nodes), model.narratorRoot,
        Unused(old(model.nodes), RecursiveCheck(old(model.nodes), old(model.depth), [item]),
          old(ViewUuids(model.nodes, model.depth, model.narratorRoot))))
      ensures model.depth == CopiesDepth(old(model.depth), model.narratorRoot,
        |Unused(old(model.nodes), RecursiveCheck(old(model.nodes), old(model.depth), [item]),
          old(ViewUuids(model.nodes, model.depth, model.narratorRoot)))|)
      decreases Max(model.depth) - model.depth[item], 1
    {
      ItemThenChildren(model.nodes, model.depth, model.narratorRoot, item);
      var _ := CopyIfUnused(item);
      CopyUnusedInChildren(item);
    }

    /** MakeSection: without a data source nothing happens; otherwise a new
        Section (whose fresh Uuid is passed in) is appended to the Narrator
        root. The source's emptiness test `Count < 0` can never hold. */
    method MakeSection(dataSourceCount: Option<nat>, freshUuid: Uuid)
      requires Valid()
      requires forall n :: 0 <= n < |model.nodes| ==> model.nodes[n].uuid != freshUuid
      modifies model
      ensures Valid()
      ensures dataSourceCount.None? ==> model.nodes == old(model.nodes)
      ensures dataSourceCount.Some? ==>
        model.nodes == AddNode(old(model.nodes), model.narratorRoot, freshUuid, Section)
      ensures dataSourceCount.Some? ==>
        var before := ViewUuids(old(model.nodes), old(model.depth), model.narratorRoot);
        freshUuid !in before && ViewUuids(model.nodes, model.depth, model.narratorRoot) == before + [freshUuid]
    {
      if dataSourceCount.None? || dataSourceCount.value < 0 {
        return;
      }
      ghost var before := ViewUuids(model.nodes, model.depth, model.narratorRoot);
      assert freshUuid !in before by {
        ChildrenAreSiblings(model.nodes, model.depth, model.narratorRoot);
        var flat := RecursiveCheck(model.nodes, model.depth, model.nodes[model.narratorRoot].children);
        forall k | 0 <= k < |before| ensures before[k] != freshUuid {
          assert before[k] == model.nodes[flat[k]].uuid;
        }
      }
      AddNodeView(model.nodes, model.depth, model.narratorRoot, freshUuid, Section);
      model.AddChild(model.narratorRoot, freshUuid, Section);
    }
  }
}
