# StoryCAD story outline: Narrator view synchronisation, drag-and-drop move, relationship partners

This project models, in Dafny, the part of StoryCAD (StoryBuilder) that
manipulates the in-memory story outline, and proves what those operations
promise.

- **The outline** (`story_tree.dfy`, module `StoryTree`). Every StoryNodeItem
  of every view lives in one arena, a sequence indexed by node id. Each node
  holds the Uuid of the story element it shows, the element's type, its
  ordered `Children` and its `Parent` back-reference. A parentless node is a
  view root (Explorer, Narrator, TrashCan). `WellFormed` says that Parent and
  Children agree, that no node is listed twice among its parent's Children,
  and that Parent chains are finite (a ghost depth per node). `StoryModel` is
  the arena as a class, with the Explorer and Narrator roots.
  `new StoryNodeItem(element, parent)` appends a fresh node to `parent`'s
  Children (`AddNode`). `node.Delete(view)` takes the node out of its parent's
  Children (`Detach`).
- **RecursiveCheck** (`narrative_flatten.dfy`). The pre-order flattening of a
  list of sibling nodes, proved to be a pre-order listing of exactly the
  subtree's nodes, each once.
- **NarrativeToolVM** (`narrative_copy.dfy`, `narrative_tool.dfy`,
  `narrative_properties.dfy`). Copy, CopyAllUnused / RecurseCopyUnused,
  Delete and MakeSection as methods of a class that changes the shared
  `StoryModel` in place and reports a `Message`. Each copy method is proved
  against `Unused`, the list of Uuids a walk appends, and `AppendCopies`, the
  arena after those appends. The lemmas then prove what the copy operations
  achieve: every Scene of the walk is shown in the Narrator view, nothing is
  appended twice or appended when already shown, only Scenes are copied, the
  Explorer view is unchanged, and CopyAllUnused is idempotent.
- **Shell drag-and-drop** (`shell_drag.dfy`). The three event handlers over
  the fields `dragSourceStoryNode`, `dragTargetStoryNode` and
  `dragOperationValid`, the two walks up the Parent chain, and the in-place
  move `MoveBefore` (remove from the old parent, insert before the target,
  re-point Parent), with its effect proved.
- **NewRelationshipViewModel** (`new_relationship.dfy`). The candidate
  partner list, the two relation-type lists and the `_changeable`/`_changed`
  flags.

Where the code and the design description disagree, the model follows the
code:
- Delete sets "You can't delete this node!" for a TrashCan or root selection
  but does not return. When the Narrator view is selected it goes on to
  `Delete(NarratorView)` and the message becomes "Deleted ...". For a root
  (the TrashCan node is the root of its own view) that call has no Parent to
  detach from, so nothing changes but the message.
- The completed drag does not check `source == target` or a target inside
  the source's subtree. These are preconditions of `DragItemsCompleted`
  (`MoveAllowed`). With source == target, the Remove at Shell.xaml.cs:248
  runs first, so `IndexOf(target)` is -1 and the Insert at line 252 throws
  (Collection.Insert rejects a negative index). The handler has no catch,
  so the Remove stands, the Parent assignment never runs, and the source is
  left unlisted by the parent its Parent still names. With a target inside
  the source's subtree, the move closes a cycle in the Parent links.
- CopyAllUnused returns nothing and sets no message; it does not report a
  count.
- MakeSection's emptiness test is `Count < 0`, which never holds. Only a
  missing data source stops it.

## Model

| member | source | states |
|---|---|---|
| StoryTree.RootOf | StoryBuilder/Views/Shell.xaml.cs:171-174 | the end of a node's Parent chain is a root that the node descends from |
| StoryTree.RootOfUnique | StoryBuilder/Views/Shell.xaml.cs:221-225 | any root a node descends from is its RootOf, so the IsRoot walk and the depth-0 walk reach the same node |
| StoryTree.Depth | StoryBuilder/Views/Shell.xaml.cs:203-207 | TreeViewNode.Depth counts the Parent links to the view root, and is 0 exactly for a root |
| StoryTree.RemoveFirst | StoryBuilder/Views/Shell.xaml.cs:248 | Collection.Remove drops one element when present, none otherwise, and keeps every other element |
| StoryTree.RemoveFirstAbsent | StoryBuilder/Views/Shell.xaml.cs:248 | removing an absent element leaves the list unchanged |
| StoryTree.RemoveFirstDistinct | StoryBuilder/Views/Shell.xaml.cs:248 | removing from a list without repetitions leaves one without repetitions and without the element |
| StoryTree.IndexOf | StoryBuilder/Views/Shell.xaml.cs:252 | IndexOf is -1 exactly when the element is absent, and otherwise the first position holding it |
| StoryTree.InsertAtFacts | StoryBuilder/Views/Shell.xaml.cs:252 | `InsertAt`, the model of Children.Insert(k, x): inserting a new element keeps the list free of repetitions, adds exactly that element, and Remove undoes it |
| StoryTree.AddNodeWellFormed | StoryBuilderLib/ViewModels/Tools/NarrativeToolVM.cs:90 | `AddNode`, the arena after `new StoryNodeItem(element, parent)`: attaching a fresh node under a parent keeps Parent and Children in agreement |
| StoryTree.RehangWellFormed | StoryBuilder/Views/Shell.xaml.cs:248-255 | giving one node a new parent outside its own subtree, listed there only, keeps the arena a forest |
| StoryTree.DetachEffect | StoryBuilderLib/ViewModels/Tools/NarrativeToolVM.cs:58 | `Detach`, the arena after `Delete(NarratorView)`: removing a node from its view keeps the forest shape, takes it out of every Children list and keeps the order of the other siblings |
| StoryTree.StoryModel.AddChild | StoryBuilderLib/ViewModels/Tools/NarrativeToolVM.cs:90 | `new StoryNodeItem(element, parent)` appends one fresh node to the parent's Children and keeps the model valid |
| StoryTree.StoryModel.Remove | StoryBuilderLib/ViewModels/Tools/NarrativeToolVM.cs:58 | `node.Delete(view)` detaches the node and keeps the model valid |
| NarrativeFlatten.RecursiveCheck | StoryBuilderLib/ViewModels/Tools/NarrativeToolVM.cs:126-141 | the flattening lists only nodes of the arena |
| NarrativeFlatten.FlattenOne | StoryBuilderLib/ViewModels/Tools/NarrativeToolVM.cs:132-136 | a single node flattens to itself followed by its flattened Children |
| NarrativeFlatten.ListInFlatten | StoryBuilderLib/ViewModels/Tools/NarrativeToolVM.cs:134 | every node of the list is in its flattening |
| NarrativeFlatten.FlattenClosed | StoryBuilderLib/ViewModels/Tools/NarrativeToolVM.cs:135 | with a node, the flattening holds the flattening of that node's Children |
| NarrativeFlatten.FlattenUnder | StoryBuilderLib/ViewModels/Tools/NarrativeToolVM.cs:126-141 | every node of the flattening descends from a node of the list |
| NarrativeFlatten.UnderInFlatten | StoryBuilderLib/ViewModels/Tools/NarrativeToolVM.cs:126-141 | every node descending from a node of the list is in the flattening |
| NarrativeFlatten.FlattenHoldsDescendants | StoryBuilderLib/ViewModels/Tools/NarrativeToolVM.cs:88 | RecursiveCheck(root.Children) holds exactly the proper descendants of root, the set searched by the presence test |
| NarrativeFlatten.FlattenDistinct | StoryBuilderLib/ViewModels/Tools/NarrativeToolVM.cs:126-141 | distinct siblings flatten to a list without repetitions |
| NarrativeFlatten.FlattenCount | StoryBuilderLib/ViewModels/Tools/NarrativeToolVM.cs:126-141 | the flattening's length is the subtree's node count less the root |
| NarrativeFlatten.FlattenBlock | StoryBuilderLib/ViewModels/Tools/NarrativeToolVM.cs:132-136 | each node of the flattening is immediately followed by the flattening of its Children |
| NarrativeFlatten.FlattenIsPreOrder | StoryBuilderLib/ViewModels/Tools/NarrativeToolVM.cs:126-141 | pre-order: the block right after each node is exactly its proper descendants |
| NarrativeFlatten.FlattenConcat | StoryBuilderLib/ViewModels/Tools/NarrativeToolVM.cs:132-136 | flattening distributes over concatenated sibling lists |
| NarrativeFlatten.FlattenFrame | StoryBuilderLib/ViewModels/Tools/NarrativeToolVM.cs:126-141 | the flattening depends only on the Children of the nodes it lists |
| NarrativeFlatten.FlattenSnoc | StoryBuilderLib/ViewModels/Tools/NarrativeToolVM.cs:186 | flattening a list one more child at a time appends that child's subtree |
| NarrativeCopy.UnusedCovers | StoryBuilderLib/ViewModels/Tools/NarrativeToolVM.cs:103-110 | `Unused`, the Uuids the walk appends: after a copy walk every Scene of the walk is shown by Uuid in the Narrator view |
| NarrativeCopy.UnusedFresh | StoryBuilderLib/ViewModels/Tools/NarrativeToolVM.cs:105 | a walk appends no Uuid twice and none already shown, because presence is re-checked per item |
| NarrativeCopy.UnusedOnlyScenes | StoryBuilderLib/ViewModels/Tools/NarrativeToolVM.cs:105 | only Uuids of Scene items of the walk are appended |
| NarrativeCopy.UnusedEmpty | StoryBuilderLib/ViewModels/Tools/NarrativeToolVM.cs:105 | a walk appends nothing exactly when every Scene of it is already shown |
| NarrativeCopy.UnusedConcat | StoryBuilderLib/ViewModels/Tools/NarrativeToolVM.cs:186 | walking a + b appends a's copies, then b's copies against the grown view |
| NarrativeCopy.UnusedFrame | StoryBuilderLib/ViewModels/Tools/NarrativeToolVM.cs:105 | a walk reads only the Uuid and type of its items |
| NarrativeCopy.AppendCopiesShape | StoryBuilderLib/ViewModels/Tools/NarrativeToolVM.cs:107 | `AppendCopies`, the arena after the walk's `new StoryNodeItem` calls: the copies are fresh childless Scene nodes with the walk's Uuids, at the end of the Narrator root's Children; no other node changes |
| NarrativeCopy.AppendCopiesWellFormed | StoryBuilderLib/ViewModels/Tools/NarrativeToolVM.cs:107 | appending copies keeps the arena a forest |
| NarrativeCopy.AddNodeFrame | StoryBuilderLib/ViewModels/Tools/NarrativeToolVM.cs:90 | one appended node leaves the flattening of any list avoiding its parent unchanged |
| NarrativeCopy.AddNodeView | StoryBuilderLib/ViewModels/Tools/NarrativeToolVM.cs:88-90 | one appended node adds exactly its Uuid at the end of the view below its parent |
| NarrativeCopy.AppendCopiesView | StoryBuilderLib/ViewModels/Tools/NarrativeToolVM.cs:88-107 | `ViewUuids`, the Uuids of RecursiveCheck(NarratorView[0].Children) that the presence test at lines 88 and 105 searches: appending copies below the Narrator root shows exactly their Uuids at the end of that view |
| NarrativeCopy.AppendCopiesFrame | StoryBuilderLib/ViewModels/Tools/NarrativeToolVM.cs:107 | appending copies leaves the flattening of any list avoiding the Narrator root unchanged |
| NarrativeCopy.AppendCopiesConcat | StoryBuilderLib/ViewModels/Tools/NarrativeToolVM.cs:186 | appending in two rounds equals appending the concatenation |
| NarrativeTool.RootNotBelow | StoryBuilderLib/ViewModels/Tools/NarrativeToolVM.cs:186 | proof step, not source behaviour: a view root never lies below a non-root node, so a walk below the Explorer root never meets the Narrator root |
| NarrativeTool.ViewsDisjoint | StoryBuilderLib/ViewModels/Tools/NarrativeToolVM.cs:149 | the Narrator root is not in the flattened Explorer view |
| NarrativeTool.WalkExtend | StoryBuilderLib/ViewModels/Tools/NarrativeToolVM.cs:103-110 | proof step, not source behaviour: continuing a copy walk in the grown arena appends what the longer walk appends in the original arena |
| NarrativeTool.SubtreeStep | StoryBuilderLib/ViewModels/Tools/NarrativeToolVM.cs:186 | proof step, not source behaviour: one child's RecurseCopyUnused, run after earlier copies, appends what the walk over that child's subtree appends |
| NarrativeTool.ItemThenChildren | StoryBuilderLib/ViewModels/Tools/NarrativeToolVM.cs:175-186 | proof step, not source behaviour: copying an item, then walking its Children, appends what the walk over the item's subtree appends |
| NarrativeTool.NarrativeToolVM.constructor | StoryBuilderLib/ViewModels/Tools/NarrativeToolVM.cs:16-43 | a new tool has no selection, the Explorer view selected and no message |
| NarrativeTool.NarrativeToolVM.Delete | StoryBuilderLib/ViewModels/Tools/NarrativeToolVM.cs:48-66 | no selection changes nothing; with the Narrator view selected the node is detached from its parent and the message is Deleted, and for a root the tree is unchanged and only the message becomes Deleted; otherwise nothing changes and the message is CantDeleteHere |
| NarrativeTool.NarrativeToolVM.CopyIfUnused | StoryBuilderLib/ViewModels/Tools/NarrativeToolVM.cs:175-183 | a Scene is copied to the Narrator root exactly when its Uuid is not shown there; otherwise nothing changes |
| NarrativeTool.NarrativeToolVM.Copy | StoryBuilderLib/ViewModels/Tools/NarrativeToolVM.cs:72-123 | no selection changes nothing; a shown Scene changes nothing (AlreadyAppears); a missing Scene gains one node (Copied); a Folder or Section appends the missing Scenes of its flattened Children (CopiedChildren); any other type changes nothing (CantCopy) |
| NarrativeTool.NarrativeToolVM.CopyScene | StoryBuilderLib/ViewModels/Tools/NarrativeToolVM.cs:86-98 | Copy's Scene branch: a Scene whose Uuid the Narrator view does not show gains one copy under the Narrator root and the message is Copied; a shown one changes nothing and the message is AlreadyAppears |
| NarrativeTool.NarrativeToolVM.CopyScenesOf | StoryBuilderLib/ViewModels/Tools/NarrativeToolVM.cs:103-110 | the loop over the flattened Children appends exactly the Uuids of the walk's missing Scenes |
| NarrativeTool.NarrativeToolVM.CopyItem | StoryBuilderLib/ViewModels/Tools/NarrativeToolVM.cs:105-109 | one pass of Copy's loop: the arena after it is AppendCopies of the Unused Uuids of the items walked so far, one item further on |
| NarrativeTool.NarrativeToolVM.CopyAllUnused | StoryBuilderLib/ViewModels/Tools/NarrativeToolVM.cs:146-151 | the Narrator root gains exactly the missing Scenes of the flattened Explorer view, in pre-order |
| NarrativeTool.NarrativeToolVM.CopyUnusedInChildren | StoryBuilderLib/ViewModels/Tools/NarrativeToolVM.cs:149 | RecurseCopyUnused on each child in turn appends the missing Scenes of the flattened Children |
| NarrativeTool.NarrativeToolVM.RecurseCopyUnused | StoryBuilderLib/ViewModels/Tools/NarrativeToolVM.cs:170-193 | RecurseCopyUnused(item) appends the missing Scenes of the item's subtree, in pre-order |
| NarrativeTool.NarrativeToolVM.MakeSection | StoryBuilderLib/ViewModels/Tools/NarrativeToolVM.cs:156-164 | without a data source nothing changes; otherwise one Section node with a new Uuid is appended to the Narrator root, and the Narrator view gains exactly that Uuid at its end, absent before |
| NarrativeProperties.CopiesEffect | StoryBuilderLib/ViewModels/Tools/NarrativeToolVM.cs:105-107 | appending copies keeps both roots, leaves the Explorer view unchanged and shows the copies at the end of the Narrator view |
| NarrativeProperties.CopySceneAbsent | StoryBuilderLib/ViewModels/Tools/NarrativeToolVM.cs:88-92 | copying a missing Scene appends exactly one child to the Narrator root, carrying its Uuid; the Explorer view is unchanged |
| NarrativeProperties.CopyFolderEffect | StoryBuilderLib/ViewModels/Tools/NarrativeToolVM.cs:100-112 | copying a Folder or Section shows every Scene below it in the Narrator view, appends distinct, previously absent Uuids of Scenes only, and leaves the Explorer view unchanged |
| NarrativeProperties.CopiesKeepViewDistinct | StoryBuilderLib/ViewModels/Tools/NarrativeToolVM.cs:103-110 | a Narrator view without repeated Uuids keeps that property through a copy walk |
| NarrativeProperties.CopyAllUnusedCovers | StoryBuilderLib/ViewModels/Tools/NarrativeToolVM.cs:146-151 | after CopyAllUnused every Scene of the Explorer view is shown by Uuid in the Narrator view, and the Explorer view is unchanged |
| NarrativeProperties.CopyAllUnusedIdempotent | StoryBuilderLib/ViewModels/Tools/NarrativeToolVM.cs:170-186 | a second CopyAllUnused appends nothing and leaves the arena as it is |
| NarrativeProperties.CopyFolderTwice | StoryBuilderLib/ViewModels/Tools/NarrativeToolVM.cs:100-112 | copying the same Folder or Section a second time appends nothing, for any node including the Narrator root |
| NarrativeProperties.CopyNarratorRoot | StoryBuilderLib/ViewModels/Tools/NarrativeToolVM.cs:100-112 | copying the Narrator root itself (a Section) appends nothing, since every Scene below it is already shown |
| ShellDrag.RootAbove | StoryBuilder/Views/Shell.xaml.cs:171-174 | the IsRoot walk (`IsRoot`: the node has no Parent) ends at the node's view root |
| ShellDrag.DepthZeroAbove | StoryBuilder/Views/Shell.xaml.cs:221-224 | the Depth walk ends at the node's view root |
| ShellDrag.MoveBeforeShape | StoryBuilder/Views/Shell.xaml.cs:247-255 | `MoveBefore` composes `RemoveChild` (Remove, line 248), `InsertChildBefore` (Insert at IndexOf of the target, line 252) and `SetParent` (line 255); the move changes only the old parent's and the target parent's Children and the source's Parent |
| ShellDrag.MoveBeforeWellFormed | StoryBuilder/Views/Shell.xaml.cs:247-255 | a move the preconditions allow keeps Parent and Children in agreement and lists the source only under the target's parent |
| ShellDrag.MoveBeforeOrder | StoryBuilder/Views/Shell.xaml.cs:252 | the source lands immediately before the target, and every Children list with the source removed is as before |
| ShellDrag.MoveBeforeEffect | StoryBuilder/Views/Shell.xaml.cs:245-256 | a valid move keeps every node, Uuid and type and the forest shape, sets source.Parent to target.Parent, lists the source exactly once, just before the target, and keeps the order of all other siblings |
| ShellDrag.DistinctIndex | StoryBuilder/Views/Shell.xaml.cs:252 | proof step, not source behaviour: in a list without repetitions IndexOf finds each element at its position |
| ShellDrag.RootOfOutside | StoryBuilder/Views/Shell.xaml.cs:255 | proof step, not source behaviour: nodes outside the moved subtree keep their view root |
| ShellDrag.MoveKeepsTargetView | StoryBuilder/Views/Shell.xaml.cs:220-233 | after a move the source is in the target's view, which is not the TrashCan view |
| ShellDrag.Shell.constructor | StoryBuilder/Views/Shell.xaml.cs:29-32 | the drag fields start unset and the drag not valid |
| ShellDrag.Shell.DragItemsStarting | StoryBuilder/Views/Shell.xaml.cs:144-185 | the dragged node becomes the source; the drag is valid exactly when `SourceAllowed` holds: the node has a Parent (lines 163-170) and its view root is not the TrashCan (lines 171-182) |
| ShellDrag.Shell.DragEnter | StoryBuilder/Views/Shell.xaml.cs:187-237 | a depth-0 target is not recorded; otherwise it becomes the target; the drag stays valid only if it was valid and `TargetAllowed` holds: the target is at depth 1 or more (line 207) outside the TrashCan view (lines 220-233) |
| ShellDrag.Shell.DragItemsCompleted | StoryBuilder/Views/Shell.xaml.cs:239-265 | a valid drag performs MoveBefore, an invalid one changes nothing; either way the drag is valid afterwards |
| ShellDrag.Shell.MoveSourceBeforeTarget | StoryBuilder/Views/Shell.xaml.cs:247-255 | Remove, Insert and the Parent assignment, applied in place, give MoveBefore and keep the model valid |
| NewRelationship.Candidates | StoryCADLib/ViewModels/NewRelationshipViewModel.cs:108-122 | a character is a candidate exactly when it is listed, is not the Member and is no relationship's Partner |
| NewRelationship.CandidatesConcat | StoryCADLib/ViewModels/NewRelationshipViewModel.cs:111-122 | the candidates keep the order of the character list |
| NewRelationship.CandidatesDistinct | StoryCADLib/ViewModels/NewRelationshipViewModel.cs:111-122 | characters listed once are offered at most once |
| NewRelationship.NewRelationshipViewModel.constructor | StoryCADLib/ViewModels/NewRelationshipViewModel.cs:63-73 | no Member, three empty collections, change tracking off |
| NewRelationship.NewRelationshipViewModel.OnPropertyChanged | StoryCADLib/ViewModels/NewRelationshipViewModel.cs:144-153 | `_changed` becomes true when a change arrives while `_changeable` holds, and is never cleared |
| NewRelationship.NewRelationshipViewModel.SetSelectedPartner | StoryCADLib/ViewModels/NewRelationshipViewModel.cs:27-32 | the property takes the value; a real change while changeable marks the dialog changed |
| NewRelationship.NewRelationshipViewModel.SetRelationType | StoryCADLib/ViewModels/NewRelationshipViewModel.cs:36-41 | the property takes the value; a real change while changeable marks the dialog changed |
| NewRelationship.NewRelationshipViewModel.SetInverseRelationType | StoryCADLib/ViewModels/NewRelationshipViewModel.cs:45-50 | the property takes the value; a real change while changeable marks the dialog changed |
| NewRelationship.NewRelationshipViewModel.SetInverseRelationship | StoryCADLib/ViewModels/NewRelationshipViewModel.cs:52-57 | the property takes the value; a real change while changeable marks the dialog changed |
| NewRelationship.NewRelationshipViewModel.InitializeNewRelationshipVM | StoryCADLib/ViewModels/NewRelationshipViewModel.cs:79-95 | Member is the edited character, the three lists are rebuilt, RelationType and InverseRelationType are "", InverseRelationship is false, SelectedPartner is null, change tracking is on, and `_changed` is as before |
| NewRelationship.NewRelationshipViewModel.RefreshProspectivePartners | StoryCADLib/ViewModels/NewRelationshipViewModel.cs:105-123 | ProspectivePartners is cleared and then holds exactly the candidates, in character order |
| NewRelationship.NewRelationshipViewModel.RefreshRelationTypes | StoryCADLib/ViewModels/NewRelationshipViewModel.cs:125-128 | RelationTypes equals the global relation-type list |
| NewRelationship.NewRelationshipViewModel.RefreshInverseRelationTypes | StoryCADLib/ViewModels/NewRelationshipViewModel.cs:130-133 | InverseRelationTypes equals the global relation-type list |
| NewRelationship.NewRelationshipViewModel.PopulateRelationTypesCollection | StoryCADLib/ViewModels/NewRelationshipViewModel.cs:135-142 | the collection is cleared and then equals the global relation-type list element for element |

## Left out

- Logging, `ShowMessage`, `ShowChange` and every `try`/`catch`: the model has no exceptions, so the catch paths are not modelled. This includes RecurseCopyUnused setting "Error copying nodes." (NarrativeToolVM.cs:191).
- Message text: `Message` is an enumeration of outcomes. The interpolated names at NarrativeToolVM.cs:59, 92 and 112 are not modelled.
- The element registry `StoryElementGuids` and the `(SceneModel)` cast: a node carries its element's Uuid and type, and the registry is assumed to hold every Uuid, so the lookup never fails.
- The internals of StoryNodeItem, StoryElement, SceneModel and SectionModel are not part of this model. MakeSection's new SectionModel is given as a fresh Uuid, and its FlyoutText name is not modelled.
- NarrativeToolVM.MakeSection: the data source is reduced to present or absent with a count. Its contents are not read.
- StoryTree.IsRoot: `StoryNodeItem.IsRoot` is not part of this model; it is taken to mean that the node has no Parent, which is how the walks at Shell.xaml.cs:171-174 and the Delete test at NarrativeToolVM.cs:54 use it.
- The runtime type-name checks on the drag source and target (Shell.xaml.cs:151-159, 191-200): node types form a closed datatype, so these checks cannot fail.
- The `dragTargetNode` TreeViewNode field, `args.Data.RequestedOperation`, `args.Handled`, and `NavigationTree.CanDrag`/`AllowDrop`: UI plumbing. TreeViewNode.Depth is computed from the story node's Parent chain.
- The rest of Shell.xaml.cs (navigation, colouring, search, start-up): UI only.
- ShellDrag.Shell.DragItemsCompleted: requires, on a valid drag, that source and target are set, differ, both have a Parent, and the target is not inside the source's subtree. The completion handler checks none of these; the Parent tests are made earlier, by DragItemsStarting (Shell.xaml.cs:163) and DragEnter (Shell.xaml.cs:207).
- NarrativeTool.NarrativeToolVM.Delete / StoryTree.StoryModel.Remove: `StoryNodeItem.Delete(view)` is not part of this model. It is assumed to detach a node that has a Parent, and to do nothing, without throwing, for a node that has none. If it threw for a root, the catch at NarrativeToolVM.cs:65 would leave "You can't delete this node!" as the message instead of "Deleted ...".
- NewRelationship.NewRelationshipViewModel.constructor: the `ArgumentNullException` thrown for a null character view model (NewRelationshipViewModel.cs:66) is replaced by Dafny's non-null class type for the `charVM` parameter, so that error path is not modelled. The logger parameter, and its null check at line 65, are left out with the rest of the logging.
- UI event order: DragItemsStarting and DragEnter are modelled as separate calls; nothing forces a drag to start before DragEnter.
- The story model's Characters list and GlobalData.RelationTypes are parameters. Elements are compared by identity, as `==` and `Equals` do for StoryElement.
- SetProperty's equality test uses the value's own equality (strings by content, elements by identity), which is what the Set methods compare.
- App start-up, LogService, Doppler, GlobalData, ScenePage and SamplePage: I/O and wiring, not part of this model.
