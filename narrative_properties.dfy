/** What NarrativeToolVM's copy operations achieve, stated over the arena
    before and after: the Narrator view gains exactly the missing Scenes, the
    Explorer view is untouched, and CopyAllUnused has nothing left to do the
    second time. */
module NarrativeProperties {
  import opened Wrappers
  import opened StoryTree
  import opened NarrativeFlatten
  import opened NarrativeCopy
  import opened NarrativeTool

  /** The Explorer and Narrator roots of a well-formed story model. */
  ghost predicate TwoViews(nodes: seq<StoryNode>, depth: seq<nat>, explorer: NodeId, narrator: NodeId) {
    && WellFormed(nodes, depth)
    && explorer < |nodes| && narrator < |nodes| && explorer != narrator
    && IsRoot(nodes[explorer]) && IsRoot(nodes[narrator])
  }

  /** The flattened Explorer view: RecursiveCheck(ExplorerView[0].Children). */
  ghost function ExplorerFlat(nodes: seq<StoryNode>, depth: seq<nat>, explorer: NodeId): seq<NodeId>
    requires WellFormed(nodes, depth) && explorer < |nodes|
  {
    ChildrenAreSiblings(nodes, depth, explorer);
    RecursiveCheck(nodes, depth, nodes[explorer].children)
  }

  /** Appending copies below the Narrator root keeps both views' roots and
      the Explorer view as they were, and shows the copies at the end of the
      Narrator view. */
  lemma CopiesEffect(nodes: seq<StoryNode>, depth: seq<nat>, explorer: NodeId, narrator: NodeId, us: seq<Uuid>)
    requires TwoViews(nodes, depth, explorer, narrator)
    ensures var s, d := AppendCopies(nodes, narrator, us), CopiesDepth(depth, narrator, |us|);
      && TwoViews(s, d, explorer, narrator)
      && s[explorer] == nodes[explorer]
      && ExplorerFlat(s, d, explorer) == ExplorerFlat(nodes, depth, explorer)
      && ViewUuids(s, d, narrator) == ViewUuids(nodes, depth, narrator) + us
  {
    var s, d := AppendCopies(nodes, narrator, us), CopiesDepth(depth, narrator, |us|);
    AppendCopiesShape(nodes, narrator, us);
    AppendCopiesView(nodes, depth, narrator, us);
    ViewsDisjoint(nodes, depth, explorer, narrator);
    AppendCopiesFrame(nodes, depth, narrator, us, nodes[explorer].children);
  }

  /** Copy of a Scene the Narrator view lacks: exactly one node is appended
      to the Narrator root's Children, it carries the Scene's Uuid, the
      Narrator view grows by that one Uuid and the Explorer view is
      unchanged. */
  lemma CopySceneAbsent(nodes: seq<StoryNode>, depth: seq<nat>, explorer: NodeId, narrator: NodeId, x: NodeId)
    requires TwoViews(nodes, depth, explorer, narrator) && x < |nodes|
    requires nodes[x].kind == Scene && nodes[x].uuid !in ViewUuids(nodes, depth, narrator)
    ensures var s, d := AddNode(nodes, narrator, nodes[x].uuid, Scene), depth + [depth[narrator] + 1];
      && TwoViews(s, d, explorer, narrator)
      && |s| == |nodes| + 1
      && s[narrator].children == nodes[narrator].children + [|nodes|]
      && s[|nodes|].uuid == nodes[x].uuid
      && ViewUuids(s, d, narrator) == ViewUuids(nodes, depth, narrator) + [nodes[x].uuid]
      && ExplorerFlat(s, d, explorer) == ExplorerFlat(nodes, depth, explorer)
  {
    var u := nodes[x].uuid;
    CopiesEffect(nodes, depth, explorer, narrator, [u]);
    OneMoreCopy(nodes, depth, narrator, [], u);
    NoCopies(nodes, depth, narrator);
    assert [] + [u] == [u];
  }

  /** Copy of a Folder or Section: afterwards every Scene among its flattened
      Children is shown in the Narrator view; the appended Uuids are all
      distinct and none was shown before (presence is re-checked per item);
      only Scenes of the folder are copied; the Explorer view is unchanged. */
  lemma CopyFolderEffect(nodes: seq<StoryNode>, depth: seq<nat>, explorer: NodeId, narrator: NodeId, f: NodeId)
    requires TwoViews(nodes, depth, explorer, narrator) && f < |nodes|
    ensures Siblings(nodes, depth, nodes[f].children)
    ensures var items := RecursiveCheck(nodes, depth, nodes[f].children);
      var present := ViewUuids(nodes, depth, narrator);
      var us := Unused(nodes, items, present);
      var s, d := AppendCopies(nodes, narrator, us), CopiesDepth(depth, narrator, |us|);
      && TwoViews(s, d, explorer, narrator)
      && (forall k :: 0 <= k < |items| && nodes[items[k]].kind == Scene ==>
            nodes[items[k]].uuid in ViewUuids(s, d, narrator))
      && ViewUuids(s, d, narrator) == present + us
      && Distinct(us) && (forall u :: u in us ==> u !in present)
      && (forall u :: u in us ==> exists k :: 0 <= k < |items| && nodes[items[k]].kind == Scene && nodes[items[k]].uuid == u)
      && ExplorerFlat(s, d, explorer) == ExplorerFlat(nodes, depth, explorer)
  {
    ChildrenAreSiblings(nodes, depth, f);
    var items := RecursiveCheck(nodes, depth, nodes[f].children);
    var present := ViewUuids(nodes, depth, narrator);
    var us := Unused(nodes, items, present);
    assert InArena(nodes, items);
    CopiesEffect(nodes, depth, explorer, narrator, us);
    UnusedCovers(nodes, items, present);
    UnusedFresh(nodes, items, present);
    UnusedOnlyScenes(nodes, items, present);
  }

  /** A Narrator view without repeated Uuids keeps that property through any
      of the copy operations, since they append only fresh, distinct Uuids. */
  lemma CopiesKeepViewDistinct(nodes: seq<StoryNode>, depth: seq<nat>, explorer: NodeId, narrator: NodeId, items: seq<NodeId>)
    requires TwoViews(nodes, depth, explorer, narrator) && InArena(nodes, items)
    requires Distinct(ViewUuids(nodes, depth, narrator))
    ensures var us := Unused(nodes, items, ViewUuids(nodes, depth, narrator));
      var s, d := AppendCopies(nodes, narrator, us), CopiesDepth(depth, narrator, |us|);
      TwoViews(s, d, explorer, narrator) && Distinct(ViewUuids(s, d, narrator))
  {
    var present := ViewUuids(nodes, depth, narrator);
    var us := Unused(nodes, items, present);
    CopiesEffect(nodes, depth, explorer, narrator, us);
    UnusedFresh(nodes, items, present);
    DistinctConcat(present, us);
  }

  /** CopyAllUnused: afterwards every Scene of the Explorer view is shown by
      Uuid in the Narrator view, and the Explorer view is unchanged. */
  lemma CopyAllUnusedCovers(nodes: seq<StoryNode>, depth: seq<nat>, explorer: NodeId, narrator: NodeId)
    requires TwoViews(nodes, depth, explorer, narrator)
    ensures var us := AllUnused(nodes, depth, explorer, narrator);
      var s, d := AppendCopies(nodes, narrator, us), CopiesDepth(depth, narrator, |us|);
      && TwoViews(s, d, explorer, narrator)
      && ExplorerFlat(s, d, explorer) == ExplorerFlat(nodes, depth, explorer)
      && var flat := ExplorerFlat(s, d, explorer);
      && (forall k :: 0 <= k < |flat| && s[flat[k]].kind == Scene ==> s[flat[k]].uuid in ViewUuids(s, d, narrator))
  {
    var items := ExplorerFlat(nodes, depth, explorer);
    var present := ViewUuids(nodes, depth, narrator);
    var us := AllUnused(nodes, depth, explorer, narrator);
    assert us == Unused(nodes, items, present);
    var s, d := AppendCopies(nodes, narrator, us), CopiesDepth(depth, narrator, |us|);
    assert InArena(nodes, items);
    CopiesEffect(nodes, depth, explorer, narrator, us);
    UnusedCovers(nodes, items, present);
    AppendCopiesShape(nodes, narrator, us);
    ViewsDisjoint(nodes, depth, explorer, narrator);
    forall k | 0 <= k < |items| ensures s[items[k]] == nodes[items[k]] {
      assert items[k] in items;
    }
  }

  /** CopyAllUnused is idempotent: run on the arena it produced, it appends
      nothing. */
  lemma CopyAllUnusedIdempotent(nodes: seq<StoryNode>, depth: seq<nat>, explorer: NodeId, narrator: NodeId)
    requires TwoViews(nodes, depth, explorer, narrator)
    ensures var us := AllUnused(nodes, depth, explorer, narrator);
      var s, d := AppendCopies(nodes, narrator, us), CopiesDepth(depth, narrator, |us|);
      && TwoViews(s, d, explorer, narrator)
      && AllUnused(s, d, explorer, narrator) == []
      && AppendCopies(s, narrator, AllUnused(s, d, explorer, narrator)) == s
  {
    var us := AllUnused(nodes, depth, explorer, narrator);
    var s, d := AppendCopies(nodes, narrator, us), CopiesDepth(depth, narrator, |us|);
    CopyAllUnusedCovers(nodes, depth, explorer, narrator);
    var flat := ExplorerFlat(s, d, explorer);
    assert InArena(s, flat);
    UnusedEmpty(s, flat, ViewUuids(s, d, narrator));
    assert AllUnused(s, d, explorer, narrator) == Unused(s, flat, ViewUuids(s, d, narrator));
  }

  /** Copy of a Folder or Section, repeated: the second run appends nothing. */
  lemma CopyFolderTwice(nodes: seq<StoryNode>, depth: seq<nat>, explorer: NodeId, narrator: NodeId, f: NodeId)
    requires TwoViews(nodes, depth, explorer, narrator) && f < |nodes|
    ensures Siblings(nodes, depth, nodes[f].children)
    ensures var us := Unused(nodes, RecursiveCheck(nodes, depth, nodes[f].children), ViewUuids(nodes, depth, narrator));
      var s, d := AppendCopies(nodes, narrator, us), CopiesDepth(depth, narrator, |us|);
      && TwoViews(s, d, explorer, narrator) && s[f] == nodes[f]
      && Siblings(s, d, s[f].children)
      && Unused(s, RecursiveCheck(s, d, s[f].children), ViewUuids(s, d, narrator)) == []
  {
    if f == narrator {
      CopyNarratorRoot(nodes, depth, narrator);
      assert CopiesDepth(depth, narrator, 0) == depth;
    } else {
      CopyFolderEffect(nodes, depth, explorer, narrator, f);
      var ch := nodes[f].children;
      var items := RecursiveCheck(nodes, depth, ch);
      var present := ViewUuids(nodes, depth, narrator);
      var us := Unused(nodes, items, present);
      var s, d := AppendCopies(nodes, narrator, us), CopiesDepth(depth, narrator, |us|);
      AppendCopiesShape(nodes, narrator, us);
      NarratorNotBelow(nodes, depth, narrator, f);
      AppendCopiesFrame(nodes, depth, narrator, us, ch);
      CopiesKeepFlattened(nodes, depth, narrator, us, ch);
      NothingLeft(nodes, s, items, ViewUuids(s, d, narrator));
    }
  }

  /** Copying the Narrator root itself appends nothing: every Scene below it
      is already shown in the Narrator view. */
  lemma CopyNarratorRoot(nodes: seq<StoryNode>, depth: seq<nat>, narrator: NodeId)
    requires WellFormed(nodes, depth) && narrator < |nodes|
    ensures Siblings(nodes, depth, nodes[narrator].children)
    ensures Unused(nodes, RecursiveCheck(nodes, depth, nodes[narrator].children), ViewUuids(nodes, depth, narrator)) == []
  {
    ChildrenAreSiblings(nodes, depth, narrator);
    var items := RecursiveCheck(nodes, depth, nodes[narrator].children);
    var present := ViewUuids(nodes, depth, narrator);
    forall k | 0 <= k < |items| && nodes[items[k]].kind == Scene ensures nodes[items[k]].uuid in present {
      assert present[k] == nodes[items[k]].uuid;
    }
    UnusedEmpty(nodes, items, present);
  }

  /** A view root is not in the flattening of any node's Children. */
  lemma NarratorNotBelow(nodes: seq<StoryNode>, depth: seq<nat>, narrator: NodeId, f: NodeId)
    requires WellFormed(nodes, depth) && narrator < |nodes| && IsRoot(nodes[narrator]) && f < |nodes|
    ensures Siblings(nodes, depth, nodes[f].children)
    ensures narrator !in RecursiveCheck(nodes, depth, nodes[f].children)
  {
    var ch := nodes[f].children;
    ChildrenAreSiblings(nodes, depth, f);
    if ch != [] {
      assert ch[0] in ch;
      RootNotBelow(nodes, depth, narrator, ch);
    }
  }

  /** Items that are unchanged in `s` and whose Scenes all show in `present`
      leave nothing to copy. */
  lemma NothingLeft(nodes: seq<StoryNode>, s: seq<StoryNode>, items: seq<NodeId>, present: seq<Uuid>)
    requires InArena(nodes, items)
    requires forall k :: 0 <= k < |items| ==> items[k] < |s| && s[items[k]] == nodes[items[k]]
    requires forall k :: 0 <= k < |items| && nodes[items[k]].kind == Scene ==> nodes[items[k]].uuid in present
    ensures InArena(s, items) && Unused(s, items, present) == []
  {
    UnusedEmpty(s, items, present);
  }

  /** Appending copies below `parent` leaves every node of a flattening that
      avoids `parent` as it was. */
  lemma CopiesKeepFlattened(nodes: seq<StoryNode>, depth: seq<nat>, parent: NodeId, us: seq<Uuid>, list: seq<NodeId>)
    requires WellFormed(nodes, depth) && parent < |nodes| && Siblings(nodes, depth, list)
    requires parent !in RecursiveCheck(nodes, depth, list)
    ensures var items, r := RecursiveCheck(nodes, depth, list), AppendCopies(nodes, parent, us);
      forall k :: 0 <= k < |items| ==> items[k] < |r| && r[items[k]] == nodes[items[k]]
  {
    AppendCopiesShape(nodes, parent, us);
    var items := RecursiveCheck(nodes, depth, list);
    forall k | 0 <= k < |items| ensures items[k] != parent {
      assert items[k] in items;
    }
  }
}
