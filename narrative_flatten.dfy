/** NarrativeToolVM.RecursiveCheck: the pre-order flattening of a list of
    sibling nodes, and what it is known to return. */
module NarrativeFlatten {
  import opened Wrappers
  import opened StoryTree

  ghost function Max(s: seq<nat>): (m: nat)
    ensures forall i :: 0 <= i < |s| ==> s[i] <= m
  {
    if s == [] then 0
    else
      var m := Max(s[1..]);
      assert forall i :: 1 <= i < |s| ==> s[i] == s[1..][i - 1];
      if s[0] > m then s[0] else m
  }

  /** A list of nodes of the arena that all sit at one depth, such as a node's
      Children or a suffix of them. */
  ghost predicate Siblings(nodes: seq<StoryNode>, depth: seq<nat>, list: seq<NodeId>) {
    && |depth| == |nodes|
    && (forall k :: 0 <= k < |list| ==> list[k] < |nodes|)
    && (forall k :: 0 <= k < |list| ==> depth[list[k]] == depth[list[0]])
  }

  lemma ChildrenAreSiblings(nodes: seq<StoryNode>, depth: seq<nat>, p: NodeId)
    requires WellFormed(nodes, depth) && p < |nodes|
    ensures Siblings(nodes, depth, nodes[p].children)
    ensures forall c :: c in nodes[p].children ==> depth[c] == depth[p] + 1
  {
    var ch := nodes[p].children;
    forall k | 0 <= k < |ch| ensures ch[k] < |nodes| && depth[ch[k]] == depth[p] + 1 {
      assert ch[k] in ch;
    }
  }

  /** RecursiveCheck(list): each node of `list`, followed by the flattening of
      its Children. */
  function RecursiveCheck(nodes: seq<StoryNode>, ghost depth: seq<nat>, list: seq<NodeId>): (flat: seq<NodeId>)
    requires WellFormed(nodes, depth) && Siblings(nodes, depth, list)
    ensures forall k :: 0 <= k < |flat| ==> flat[k] < |nodes|
    ensures forall x :: x in flat ==> x < |nodes|
    decreases if list == [] then 0 else Max(depth) + 1 - depth[list[0]], |list|
  {
    if list == [] then []
    else
      ChildrenAreSiblings(nodes, depth, list[0]);
      [list[0]] + RecursiveCheck(nodes, depth, nodes[list[0]].children)
        + RecursiveCheck(nodes, depth, list[1..])
  }

  /** One step of RecursiveCheck on a non-empty list. */
  lemma FlattenCons(nodes: seq<StoryNode>, depth: seq<nat>, list: seq<NodeId>)
    requires WellFormed(nodes, depth) && Siblings(nodes, depth, list) && list != []
    ensures Siblings(nodes, depth, nodes[list[0]].children) && Siblings(nodes, depth, list[1..])
    ensures RecursiveCheck(nodes, depth, list)
      == [list[0]] + RecursiveCheck(nodes, depth, nodes[list[0]].children) + RecursiveCheck(nodes, depth, list[1..])
  {
    ChildrenAreSiblings(nodes, depth, list[0]);
  }

  /** A node with Children has them one level deeper. */
  lemma FirstChildDeeper(nodes: seq<StoryNode>, depth: seq<nat>, p: NodeId)
    requires WellFormed(nodes, depth) && p < |nodes| && nodes[p].children != []
    ensures depth[nodes[p].children[0]] == depth[p] + 1
  {
    ChildrenAreSiblings(nodes, depth, p);
    assert nodes[p].children[0] in nodes[p].children;
  }

  /** The flattening of one node: the node, then its flattened Children. */
  lemma FlattenOne(nodes: seq<StoryNode>, depth: seq<nat>, x: NodeId)
    requires WellFormed(nodes, depth) && x < |nodes|
    ensures Siblings(nodes, depth, [x]) && Siblings(nodes, depth, nodes[x].children)
    ensures RecursiveCheck(nodes, depth, [x]) == [x] + RecursiveCheck(nodes, depth, nodes[x].children)
  {
    ChildrenAreSiblings(nodes, depth, x);
    assert [x][1..] == [];
  }

  lemma SiblingsSplit(nodes: seq<StoryNode>, depth: seq<nat>, a: seq<NodeId>, b: seq<NodeId>)
    requires Siblings(nodes, depth, a + b)
    ensures Siblings(nodes, depth, a) && Siblings(nodes, depth, b)
  {
    forall k | 0 <= k < |b| ensures b[k] == (a + b)[|a| + k] {}
    if b != [] { assert b[0] == (a + b)[|a|]; }
    forall k | 0 <= k < |a| ensures a[k] == (a + b)[k] {}
  }

  /** Every node of the list itself occurs in its flattening. */
  lemma {:induction false} ListInFlatten(nodes: seq<StoryNode>, depth: seq<nat>, list: seq<NodeId>, k: nat)
    requires WellFormed(nodes, depth) && Siblings(nodes, depth, list) && k < |list|
    ensures list[k] in RecursiveCheck(nodes, depth, list)
    decreases k
  {
    if k > 0 {
      ListInFlatten(nodes, depth, list[1..], k - 1);
    }
  }

  /** The flattening is closed under taking children: with a node it holds the
      flattening of that node's Children. */
  lemma {:induction false} FlattenClosed(nodes: seq<StoryNode>, depth: seq<nat>, list: seq<NodeId>, p: NodeId)
    requires WellFormed(nodes, depth) && Siblings(nodes, depth, list)
    requires p in RecursiveCheck(nodes, depth, list)
    ensures forall z :: z in RecursiveCheck(nodes, depth, nodes[p].children) ==> z in RecursiveCheck(nodes, depth, list)
    decreases if list == [] then 0 else Max(depth) + 1 - depth[list[0]], |list|
  {
    FlattenCons(nodes, depth, list);
    ChildrenAreSiblings(nodes, depth, list[0]);
    if p == list[0] {
    } else if p in RecursiveCheck(nodes, depth, nodes[list[0]].children) {
      FlattenClosed(nodes, depth, nodes[list[0]].children, p);
    } else {
      FlattenClosed(nodes, depth, list[1..], p);
    }
  }

  ghost predicate UnderForest(nodes: seq<StoryNode>, depth: seq<nat>, list: seq<NodeId>, x: NodeId)
    requires WellFormed(nodes, depth) && x < |nodes|
  {
    exists k :: 0 <= k < |list| && Descends(nodes, depth, x, list[k])
  }

  /** Whatever the flattening holds lies below some node of the list. */
  lemma {:induction false} FlattenUnder(nodes: seq<StoryNode>, depth: seq<nat>, list: seq<NodeId>, x: NodeId)
    requires WellFormed(nodes, depth) && Siblings(nodes, depth, list)
    requires x in RecursiveCheck(nodes, depth, list)
    ensures x < |nodes| && UnderForest(nodes, depth, list, x)
    decreases if list == [] then 0 else Max(depth) + 1 - depth[list[0]], |list|
  {
    var l0, ch := list[0], nodes[list[0]].children;
    FlattenCons(nodes, depth, list);
    ChildrenAreSiblings(nodes, depth, l0);
    if x == l0 {
      assert Descends(nodes, depth, x, list[0]);
    } else if x in RecursiveCheck(nodes, depth, ch) {
      FlattenUnder(nodes, depth, ch, x);
      var k :| 0 <= k < |ch| && Descends(nodes, depth, x, ch[k]);
      assert ch[k] in ch;
      assert Descends(nodes, depth, ch[k], l0);
      DescendsTrans(nodes, depth, x, ch[k], l0);
      assert Descends(nodes, depth, x, list[0]);
    } else {
      FlattenUnder(nodes, depth, list[1..], x);
      var k :| 0 <= k < |list[1..]| && Descends(nodes, depth, x, list[1..][k]);
      assert Descends(nodes, depth, x, list[k + 1]);
    }
  }

  /** Whatever lies below a node of the list is in the flattening. */
  lemma {:induction false} UnderInFlatten(nodes: seq<StoryNode>, depth: seq<nat>, list: seq<NodeId>, k: nat, x: NodeId)
    requires WellFormed(nodes, depth) && Siblings(nodes, depth, list)
    requires k < |list| && x < |nodes| && Descends(nodes, depth, x, list[k])
    ensures x in RecursiveCheck(nodes, depth, list)
    decreases depth[x]
  {
    if x == list[k] {
      ListInFlatten(nodes, depth, list, k);
    } else {
      var p := nodes[x].parent.value;
      UnderInFlatten(nodes, depth, list, k, p);
      FlattenClosed(nodes, depth, list, p);
      ChildrenAreSiblings(nodes, depth, p);
      var ch := nodes[p].children;
      var i :| 0 <= i < |ch| && ch[i] == x;
      ListInFlatten(nodes, depth, ch, i);
    }
  }

  /** RecursiveCheck(node.Children) holds exactly the proper descendants of
      the node. */
  lemma FlattenHoldsDescendants(nodes: seq<StoryNode>, depth: seq<nat>, r: NodeId, x: NodeId)
    requires WellFormed(nodes, depth) && r < |nodes|
    ensures x in RecursiveCheck(nodes, depth, nodes[r].children) <==>
      x < |nodes| && x != r && Descends(nodes, depth, x, r)
  {
    ChildrenAreSiblings(nodes, depth, r);
    var ch := nodes[r].children;
    if x in RecursiveCheck(nodes, depth, ch) {
      FlattenUnder(nodes, depth, ch, x);
      var k :| 0 <= k < |ch| && Descends(nodes, depth, x, ch[k]);
      assert ch[k] in ch;
      assert Descends(nodes, depth, ch[k], r);
      DescendsTrans(nodes, depth, x, ch[k], r);
      DescendsDepth(nodes, depth, x, ch[k]);
    }
    if x < |nodes| && x != r && Descends(nodes, depth, x, r) {
      BelowSomeChild(nodes, depth, r, x);
      var k :| 0 <= k < |ch| && Descends(nodes, depth, x, ch[k]);
      UnderInFlatten(nodes, depth, ch, k, x);
    }
  }

  lemma {:induction false} BelowSomeChild(nodes: seq<StoryNode>, depth: seq<nat>, r: NodeId, x: NodeId)
    requires WellFormed(nodes, depth) && r < |nodes| && x < |nodes|
    requires x != r && Descends(nodes, depth, x, r)
    ensures exists k :: 0 <= k < |nodes[r].children| && Descends(nodes, depth, x, nodes[r].children[k])
    decreases depth[x]
  {
    var p := nodes[x].parent.value;
    var ch := nodes[r].children;
    if p == r {
      var k :| 0 <= k < |ch| && ch[k] == x;
      assert Descends(nodes, depth, x, ch[k]);
    } else {
      BelowSomeChild(nodes, depth, r, p);
      var k :| 0 <= k < |ch| && Descends(nodes, depth, p, ch[k]);
      assert Descends(nodes, depth, x, ch[k]);
    }
  }

  /** A list of distinct siblings flattens to a list without repetitions. */
  lemma {:induction false} FlattenDistinct(nodes: seq<StoryNode>, depth: seq<nat>, list: seq<NodeId>)
    requires WellFormed(nodes, depth) && Siblings(nodes, depth, list) && Distinct(list)
    ensures Distinct(RecursiveCheck(nodes, depth, list))
    decreases if list == [] then 0 else Max(depth) + 1 - depth[list[0]], |list|
  {
    if list != [] {
      var l0, ch, rest := list[0], nodes[list[0]].children, list[1..];
      FlattenCons(nodes, depth, list);
      ChildrenAreSiblings(nodes, depth, l0);
      FlattenDistinct(nodes, depth, ch);
      FlattenDistinct(nodes, depth, rest);
      var a, b := RecursiveCheck(nodes, depth, ch), RecursiveCheck(nodes, depth, rest);
      BlockBelow(nodes, depth, l0);
      assert l0 !in a;
      RestApart(nodes, depth, list);
      DistinctConcat([l0], a);
      DistinctConcat([l0] + a, b);
    }
  }

  /** Everything in the flattening of a node's Children lies strictly below it. */
  lemma BlockBelow(nodes: seq<StoryNode>, depth: seq<nat>, p: NodeId)
    requires WellFormed(nodes, depth) && p < |nodes|
    ensures forall z :: z in ChildBlock(nodes, depth, p) ==> Descends(nodes, depth, z, p) && depth[p] < depth[z]
  {
    forall z | z in ChildBlock(nodes, depth, p) ensures Descends(nodes, depth, z, p) && depth[p] < depth[z] {
      FlattenHoldsDescendants(nodes, depth, p, z);
      DescendsDepth(nodes, depth, z, p);
    }
  }

  /** The flattening of the later siblings meets neither the first sibling nor
      its subtree. */
  lemma RestApart(nodes: seq<StoryNode>, depth: seq<nat>, list: seq<NodeId>)
    requires WellFormed(nodes, depth) && Siblings(nodes, depth, list) && Distinct(list) && list != []
    ensures Siblings(nodes, depth, list[1..])
    ensures forall z :: z in RecursiveCheck(nodes, depth, list[1..]) ==>
      z != list[0] && z !in ChildBlock(nodes, depth, list[0])
  {
    var l0, rest := list[0], list[1..];
    FlattenCons(nodes, depth, list);
    BlockBelow(nodes, depth, l0);
    forall z | z in RecursiveCheck(nodes, depth, rest) ensures z != l0 && z !in ChildBlock(nodes, depth, l0) {
      FlattenUnder(nodes, depth, rest, z);
      var k :| 0 <= k < |rest| && Descends(nodes, depth, z, rest[k]);
      assert rest[k] == list[k + 1] && list[k + 1] != list[0];
      if z == l0 {
        DescendsDepth(nodes, depth, z, rest[k]);
      }
      if z in ChildBlock(nodes, depth, l0) {
        SameDepthAncestors(nodes, depth, z, l0, rest[k]);
      }
    }
  }

  /** The nodes of the subtree rooted at `r`, `r` included. */
  ghost function Subtree(nodes: seq<StoryNode>, depth: seq<nat>, r: NodeId): set<NodeId>
    requires WellFormed(nodes, depth)
  {
    set x | 0 <= x < |nodes| && Descends(nodes, depth, x, r)
  }

  lemma {:induction false} DistinctCard<T>(s: seq<T>)
    requires Distinct(s)
    ensures |set x | x in s| == |s|
  {
    if s != [] {
      DistinctParts([s[0]], s[1..]);
      DistinctCard(s[1..]);
      assert (set x | x in s) == {s[0]} + (set x | x in s[1..]);
    }
  }

  /** The flattening of a node's Children lists every node of its subtree
      but the node itself: its length is the subtree's node count less one. */
  lemma FlattenCount(nodes: seq<StoryNode>, depth: seq<nat>, r: NodeId)
    requires WellFormed(nodes, depth) && r < |nodes|
    ensures |RecursiveCheck(nodes, depth, nodes[r].children)| + 1 == |Subtree(nodes, depth, r)|
  {
    var flat := RecursiveCheck(nodes, depth, nodes[r].children);
    FlattenDistinct(nodes, depth, nodes[r].children);
    DistinctCard(flat);
    forall x ensures x in flat <==> x in Subtree(nodes, depth, r) && x != r {
      FlattenHoldsDescendants(nodes, depth, r, x);
    }
    var elems := set x | x in flat;
    assert elems <= Subtree(nodes, depth, r) - {r};
    assert Subtree(nodes, depth, r) - {r} <= elems;
    assert elems == Subtree(nodes, depth, r) - {r};
    assert r in Subtree(nodes, depth, r);
  }

  /** The flattening of the Children of node `x`. */
  ghost function ChildBlock(nodes: seq<StoryNode>, depth: seq<nat>, x: NodeId): seq<NodeId>
    requires WellFormed(nodes, depth) && x < |nodes|
  {
    ChildrenAreSiblings(nodes, depth, x);
    RecursiveCheck(nodes, depth, nodes[x].children)
  }

  /** Pre-order: each node of the flattening is immediately followed by the
      flattening of its own Children. */
  lemma {:induction false} FlattenBlock(nodes: seq<StoryNode>, depth: seq<nat>, list: seq<NodeId>, i: nat)
    requires WellFormed(nodes, depth) && Siblings(nodes, depth, list)
    requires i < |RecursiveCheck(nodes, depth, list)|
    ensures var flat := RecursiveCheck(nodes, depth, list);
      BlockAt(flat, i, ChildBlock(nodes, depth, flat[i]))
    decreases if list == [] then 0 else Max(depth) + 1 - depth[list[0]], |list|, 1
  {
    var l0, ch, rest := list[0], nodes[list[0]].children, list[1..];
    FlattenCons(nodes, depth, list);
    var a, b := RecursiveCheck(nodes, depth, ch), RecursiveCheck(nodes, depth, rest);
    var flat := RecursiveCheck(nodes, depth, list);
    if i == 0 {
      BlockAtHead(flat, l0, a, b);
    } else if i <= |a| {
      BlockInChildren(nodes, depth, list, i);
    } else {
      BlockInRest(nodes, depth, list, i);
    }
  }

  /** FlattenBlock at the head of the list: its first node, then its block. */
  lemma BlockAtHead(flat: seq<NodeId>, l0: NodeId, a: seq<NodeId>, b: seq<NodeId>)
    requires flat == [l0] + a + b
    ensures 0 < |flat| && flat[0] == l0 && BlockAt(flat, 0, a)
  {
    BlockInPart(flat, [], [l0] + a, b, 0, 0, a);
  }

  /** FlattenBlock for a position inside the flattening of the first node's Children. */
  lemma {:induction false} BlockInChildren(nodes: seq<StoryNode>, depth: seq<nat>, list: seq<NodeId>, i: nat)
    requires WellFormed(nodes, depth) && Siblings(nodes, depth, list) && list != []
    requires Siblings(nodes, depth, nodes[list[0]].children)
    requires 1 <= i <= |RecursiveCheck(nodes, depth, nodes[list[0]].children)|
    ensures i < |RecursiveCheck(nodes, depth, list)|
    ensures var flat := RecursiveCheck(nodes, depth, list);
      BlockAt(flat, i, ChildBlock(nodes, depth, flat[i]))
    decreases Max(depth) + 1 - depth[list[0]], |list|, 0
  {
    var l0 := list[0];
    var ch := nodes[l0].children;
    FlatChildrenDeeper(nodes, depth, l0);
    FlattenBlock(nodes, depth, ch, i - 1);
    LiftChildBlock(nodes, depth, list, i);
  }

  /** A block found at position `i - 1` of the first node's flattened Children is
      found at position `i` of the flattening of the whole list. */
  lemma LiftChildBlock(nodes: seq<StoryNode>, depth: seq<nat>, list: seq<NodeId>, i: nat)
    requires WellFormed(nodes, depth) && Siblings(nodes, depth, list) && list != []
    requires Siblings(nodes, depth, nodes[list[0]].children)
    requires 1 <= i <= |RecursiveCheck(nodes, depth, nodes[list[0]].children)|
    requires var a := RecursiveCheck(nodes, depth, nodes[list[0]].children);
      BlockAt(a, i - 1, ChildBlock(nodes, depth, a[i - 1]))
    ensures i < |RecursiveCheck(nodes, depth, list)|
    ensures var flat := RecursiveCheck(nodes, depth, list);
      BlockAt(flat, i, ChildBlock(nodes, depth, flat[i]))
  {
    FlattenCons(nodes, depth, list);
    var a := RecursiveCheck(nodes, depth, nodes[list[0]].children);
    BlockInPart(RecursiveCheck(nodes, depth, list), [list[0]], a, RecursiveCheck(nodes, depth, list[1..]),
      i, i - 1, ChildBlock(nodes, depth, a[i - 1]));
  }

  /** A node whose Children flatten to something has Children, one level deeper. */
  lemma FlatChildrenDeeper(nodes: seq<StoryNode>, depth: seq<nat>, p: NodeId)
    requires WellFormed(nodes, depth) && p < |nodes|
    requires RecursiveCheck(nodes, depth, nodes[p].children) != []
    ensures nodes[p].children != [] && depth[nodes[p].children[0]] == depth[p] + 1
  {
    FirstChildDeeper(nodes, depth, p);
  }

  /** FlattenBlock for a position inside the flattening of the later siblings. */
  lemma {:induction false} BlockInRest(nodes: seq<StoryNode>, depth: seq<nat>, list: seq<NodeId>, i: nat)
    requires WellFormed(nodes, depth) && Siblings(nodes, depth, list) && list != []
    requires Siblings(nodes, depth, nodes[list[0]].children)
    requires |RecursiveCheck(nodes, depth, nodes[list[0]].children)| < i < |RecursiveCheck(nodes, depth, list)|
    ensures var flat := RecursiveCheck(nodes, depth, list);
      BlockAt(flat, i, ChildBlock(nodes, depth, flat[i]))
    decreases Max(depth) + 1 - depth[list[0]], |list|, 0
  {
    var l0, rest := list[0], list[1..];
    FlattenCons(nodes, depth, list);
    var a, b := RecursiveCheck(nodes, depth, nodes[l0].children), RecursiveCheck(nodes, depth, rest);
    var flat := RecursiveCheck(nodes, depth, list);
    assert flat == ([l0] + a) + b + [];
    var j := i - 1 - |a|;
    FlattenBlock(nodes, depth, rest, j);
    BlockInPart(flat, [l0] + a, b, [], i, j, ChildBlock(nodes, depth, b[j]));
  }

  /** `sub` occurs in `f` right after position `i`. */
  ghost predicate BlockAt(f: seq<NodeId>, i: nat, sub: seq<NodeId>) {
    i + 1 + |sub| <= |f| && f[i + 1 .. i + 1 + |sub|] == sub
  }

  /** A block found inside the middle part of a concatenation is found at the
      shifted position of the whole. */
  lemma BlockInPart(f: seq<NodeId>, pre: seq<NodeId>, mid: seq<NodeId>, post: seq<NodeId>, i: nat, j: nat, sub: seq<NodeId>)
    requires f == pre + mid + post && i == |pre| + j
    requires BlockAt(mid, j, sub)
    ensures i < |f| && f[i] == mid[j] && BlockAt(f, i, sub)
  {
    assert f[i + 1 .. i + 1 + |sub|] == mid[j + 1 .. j + 1 + |sub|];
  }

  /** RecursiveCheck is a pre-order flattening: the nodes right after each
      node are exactly its proper descendants. */
  lemma FlattenIsPreOrder(nodes: seq<StoryNode>, depth: seq<nat>, r: NodeId, i: nat)
    requires WellFormed(nodes, depth) && r < |nodes|
    requires i < |RecursiveCheck(nodes, depth, nodes[r].children)|
    ensures var flat := RecursiveCheck(nodes, depth, nodes[r].children);
      var sub := RecursiveCheck(nodes, depth, nodes[flat[i]].children);
      && i + 1 + |sub| <= |flat| && flat[i + 1 .. i + 1 + |sub|] == sub
      && forall x: NodeId :: x in sub <==> x < |nodes| && x != flat[i] && Descends(nodes, depth, x, flat[i])
  {
    var flat := RecursiveCheck(nodes, depth, nodes[r].children);
    FlattenBlock(nodes, depth, nodes[r].children, i);
    forall x: NodeId ensures x in RecursiveCheck(nodes, depth, nodes[flat[i]].children) <==>
      x < |nodes| && x != flat[i] && Descends(nodes, depth, x, flat[i])
    {
      FlattenHoldsDescendants(nodes, depth, flat[i], x);
    }
  }

  /** Flattening distributes over concatenation of sibling lists. */
  lemma {:induction false} FlattenConcat(nodes: seq<StoryNode>, depth: seq<nat>, a: seq<NodeId>, b: seq<NodeId>)
    requires WellFormed(nodes, depth) && Siblings(nodes, depth, a + b)
    ensures Siblings(nodes, depth, a) && Siblings(nodes, depth, b)
    ensures RecursiveCheck(nodes, depth, a + b) == RecursiveCheck(nodes, depth, a) + RecursiveCheck(nodes, depth, b)
    decreases |a|
  {
    SiblingsSplit(nodes, depth, a, b);
    if a == [] {
      assert a + b == b;
    } else {
      SiblingsTail(nodes, depth, a, b);
      FlattenConcat(nodes, depth, a[1..], b);
      ConcatStep(nodes, depth, a, b);
    }
  }

  /** FlattenConcat for a non-empty `a`, given FlattenConcat for its tail. */
  lemma ConcatStep(nodes: seq<StoryNode>, depth: seq<nat>, a: seq<NodeId>, b: seq<NodeId>)
    requires WellFormed(nodes, depth) && Siblings(nodes, depth, a + b) && a != []
    requires Siblings(nodes, depth, a) && Siblings(nodes, depth, a[1..]) && Siblings(nodes, depth, b)
    requires Siblings(nodes, depth, a[1..] + b)
    requires RecursiveCheck(nodes, depth, a[1..] + b) == RecursiveCheck(nodes, depth, a[1..]) + RecursiveCheck(nodes, depth, b)
    ensures RecursiveCheck(nodes, depth, a + b) == RecursiveCheck(nodes, depth, a) + RecursiveCheck(nodes, depth, b)
  {
    var ab, t := a + b, a[1..];
    HeadTailConcat(a, b);
    FlattenCons(nodes, depth, ab);
    FlattenCons(nodes, depth, a);
    Regroup(RecursiveCheck(nodes, depth, ab), [a[0]] + RecursiveCheck(nodes, depth, nodes[a[0]].children),
      RecursiveCheck(nodes, depth, t), RecursiveCheck(nodes, depth, b),
      RecursiveCheck(nodes, depth, t + b), RecursiveCheck(nodes, depth, a));
  }

  lemma SiblingsTail(nodes: seq<StoryNode>, depth: seq<nat>, a: seq<NodeId>, b: seq<NodeId>)
    requires Siblings(nodes, depth, a + b) && a != []
    ensures Siblings(nodes, depth, a[1..] + b)
  {
    HeadTailConcat(a, b);
    var t := (a + b)[1..];
    forall k | 0 <= k < |t| ensures t[k] == (a + b)[k + 1] {}
  }

  lemma HeadTailConcat(a: seq<NodeId>, b: seq<NodeId>)
    requires a != []
    ensures (a + b)[0] == a[0] && (a + b)[1..] == a[1..] + b
  {
  }

  lemma Regroup(whole: seq<NodeId>, h: seq<NodeId>, x: seq<NodeId>, y: seq<NodeId>, tail: seq<NodeId>, left: seq<NodeId>)
    requires whole == h + tail && tail == x + y && left == h + x
    ensures whole == left + y
  {
  }

  /** The nodes listed in `xs` exist in `nodes'` with the same children as in `nodes`. */
  ghost predicate SameChildren(nodes: seq<StoryNode>, nodes': seq<StoryNode>, xs: seq<NodeId>) {
    forall k :: 0 <= k < |xs| && xs[k] < |nodes| ==> xs[k] < |nodes'| && nodes'[xs[k]].children == nodes[xs[k]].children
  }

  lemma SameChildrenParts(nodes: seq<StoryNode>, nodes': seq<StoryNode>, x: NodeId, a: seq<NodeId>, b: seq<NodeId>)
    requires SameChildren(nodes, nodes', [x] + a + b)
    ensures SameChildren(nodes, nodes', a) && SameChildren(nodes, nodes', b)
  {
    var s := [x] + a + b;
    forall k | 0 <= k < |a| ensures a[k] == s[k + 1] {}
    forall k | 0 <= k < |b| ensures b[k] == s[k + 1 + |a|] {}
  }

  /** The flattening reads only the Children of the nodes it lists: an arena
      that agrees on those gives the same result. */
  lemma {:induction false} FlattenFrame(nodes: seq<StoryNode>, depth: seq<nat>, nodes': seq<StoryNode>, depth': seq<nat>, list: seq<NodeId>)
    requires WellFormed(nodes, depth) && Siblings(nodes, depth, list)
    requires WellFormed(nodes', depth') && Siblings(nodes', depth', list)
    requires SameChildren(nodes, nodes', RecursiveCheck(nodes, depth, list))
    ensures RecursiveCheck(nodes', depth', list) == RecursiveCheck(nodes, depth, list)
    decreases if list == [] then 0 else Max(depth) + 1 - depth[list[0]], |list|
  {
    if list != [] {
      var l0, ch, rest := list[0], nodes[list[0]].children, list[1..];
      FlattenCons(nodes, depth, list);
      FlattenCons(nodes', depth', list);
      var a, b := RecursiveCheck(nodes, depth, ch), RecursiveCheck(nodes, depth, rest);
      SameChildrenParts(nodes, nodes', l0, a, b);
      assert nodes'[l0].children == ch by {
        assert ([l0] + a + b)[0] == l0;
      }
      if ch != [] {
        FirstChildDeeper(nodes, depth, l0);
      }
      FlattenFrame(nodes, depth, nodes', depth', ch);
      FlattenFrame(nodes, depth, nodes', depth', rest);
    }
  }

  /** Flattening a list one more sibling at a time. */
  lemma FlattenSnoc(nodes: seq<StoryNode>, depth: seq<nat>, list: seq<NodeId>, j: nat)
    requires WellFormed(nodes, depth) && Siblings(nodes, depth, list) && j < |list|
    ensures Siblings(nodes, depth, list[..j]) && Siblings(nodes, depth, list[..j + 1])
    ensures Siblings(nodes, depth, [list[j]])
    ensures RecursiveCheck(nodes, depth, list[..j + 1])
      == RecursiveCheck(nodes, depth, list[..j]) + RecursiveCheck(nodes, depth, [list[j]])
  {
    assert list[..j + 1] + list[j + 1..] == list;
    SiblingsSplit(nodes, depth, list[..j + 1], list[j + 1..]);
    assert list[..j + 1] == list[..j] + [list[j]];
    FlattenConcat(nodes, depth, list[..j], [list[j]]);
  }
}
