/** The tree a pointer scan grows. Level 0 holds the target; a node at level d is an address
    whose value points at or just below its parent at level d - 1. */
module PtrscanTree {
  import opened Target

  class TreeNode {
    const areaNode: nat
    const ownAddr: Address
    const ptrAddr: Address
    const parent: TreeNode?
    var children: seq<TreeNode>

    constructor (areaNode: nat, ownAddr: Address, ptrAddr: Address, parent: TreeNode?)
      ensures this.areaNode == areaNode && this.ownAddr == ownAddr && this.ptrAddr == ptrAddr
      ensures this.parent == parent && children == []
    {
      this.areaNode, this.ownAddr, this.ptrAddr, this.parent := areaNode, ownAddr, ptrAddr, parent;
      children := [];
    }

    method ConnectChild(child: TreeNode)
      modifies this
      ensures children == old(children) + [child]
    {
      children := children + [child];
    }

    function HasChildren(): bool
      reads this
    {
      children != []
    }
  }

  type Levels = seq<seq<TreeNode>>

  /** Following parents from `n` takes exactly `d` steps to the root. */
  ghost predicate Rooted(n: TreeNode, d: nat)
    decreases d
  {
    if d == 0 then n.parent == null else n.parent != null && Rooted(n.parent, d - 1)
  }

  lemma {:induction false} RootedUnique(n: TreeNode, d: nat, e: nat)
    requires Rooted(n, d) && Rooted(n, e)
    ensures d == e
    decreases d
  {
    if d != 0 && e != 0 {
      RootedUnique(n.parent, d - 1, e - 1);
    }
  }

  /** The nodes of a level whose parent is `p`, in level order. */
  ghost function ChildrenIn(level: seq<TreeNode>, p: TreeNode): seq<TreeNode> {
    if level == [] then []
    else
      var n := |level| - 1;
      ChildrenIn(level[..n], p) + if level[n].parent == p then [level[n]] else []
  }

  ghost function LevelAfter(levels: Levels, d: nat): seq<TreeNode> {
    if d + 1 < |levels| then levels[d + 1] else []
  }

  /** Every node sits at its depth, below a parent of the level before, and no node is listed
      twice. */
  ghost predicate Layered(levels: Levels) {
    && (forall d, i {:trigger Rooted(levels[d][i], d)} ::
          0 <= d < |levels| && 0 <= i < |levels[d]| ==> Rooted(levels[d][i], d))
    && (forall d, i {:trigger levels[d][i].parent} ::
          0 < d < |levels| && 0 <= i < |levels[d]| ==> levels[d][i].parent in levels[d - 1])
    && (forall d, i, j :: 0 <= d < |levels| && 0 <= i < j < |levels[d]| ==> levels[d][i] != levels[d][j])
  }

  lemma {:induction false} NoChildrenIn(level: seq<TreeNode>, p: TreeNode)
    requires forall i :: 0 <= i < |level| ==> level[i].parent != p
    ensures ChildrenIn(level, p) == []
  {
    if level != [] {
      NoChildrenIn(level[..|level| - 1], p);
    }
  }

  /** The children list of a node holds exactly the nodes of the next level that name it as
      parent, each once. */
  lemma {:induction false} ChildrenInExactly(level: seq<TreeNode>, p: TreeNode, n: TreeNode)
    requires forall i, j :: 0 <= i < j < |level| ==> level[i] != level[j]
    ensures multiset(ChildrenIn(level, p))[n] == if n in level && n.parent == p then 1 else 0
  {
    if level != [] {
      var k := |level| - 1;
      ChildrenInExactly(level[..k], p, n);
      assert level == level[..k] + [level[k]];
    }
  }

  /** The state of a tree, apart from its fields: what the children lists have to be. */
  ghost predicate Linked(levels: Levels)
    reads set d, i | 0 <= d < |levels| && 0 <= i < |levels[d]| :: levels[d][i]
  {
    forall d, i {:trigger levels[d][i].children} :: 0 <= d < |levels| && 0 <= i < |levels[d]| ==>
      levels[d][i].children == ChildrenIn(LevelAfter(levels, d), levels[d][i])
  }

  ghost function Grown(levels: Levels, k: nat, node: TreeNode): Levels
    requires k < |levels|
  {
    levels[k := levels[k] + [node]]
  }

  /** A node that may be added at level `k`: not in the tree yet, below a node of level `k - 1`. */
  ghost predicate Addable(levels: Levels, k: nat, node: TreeNode) {
    && k < |levels| && Layered(levels)
    && (forall d, i :: 0 <= d < |levels| && 0 <= i < |levels[d]| ==> levels[d][i] != node)
    && if k == 0 then node.parent == null else node.parent != null && node.parent in levels[k - 1]
  }

  lemma {:induction false} AddableRooted(levels: Levels, k: nat, node: TreeNode)
    requires Addable(levels, k, node)
    ensures Rooted(node, k)
  {
    if k > 0 {
      var i :| 0 <= i < |levels[k - 1]| && levels[k - 1][i] == node.parent;
    }
  }

  lemma GrownLayered(levels: Levels, k: nat, node: TreeNode)
    requires Addable(levels, k, node)
    ensures Layered(Grown(levels, k, node))
  {
    AddableRooted(levels, k, node);
    var next: Levels := Grown(levels, k, node);
    forall d: nat, i: nat | 0 < d < |next| && i < |next[d]|
      ensures next[d][i].parent in next[d - 1]
    {
      if d == k && i == |levels[k]| {
        assert next[d - 1] == levels[d - 1];
      } else {
        assert next[d][i] == levels[d][i];
      }
    }
  }

  lemma ParentDepth(levels: Levels, k: nat, node: TreeNode, d: nat, i: nat)
    requires Addable(levels, k, node) && d < |levels| && i < |levels[d]|
    ensures levels[d][i] == node.parent ==> d + 1 == k
  {
    if levels[d][i] == node.parent {
      var j :| 0 <= j < |levels[k - 1]| && levels[k - 1][j] == node.parent;
      RootedUnique(levels[d][i], d, k - 1);
    }
  }

  /** Adding a node adds it to the children of its parent and to no others. */
  lemma {:induction false} GrownChildren(levels: Levels, k: nat, node: TreeNode, d: nat, p: TreeNode)
    requires k < |levels| && (p == node.parent ==> d + 1 == k)
    ensures ChildrenIn(LevelAfter(Grown(levels, k, node), d), p) ==
            ChildrenIn(LevelAfter(levels, d), p) + if p == node.parent then [node] else []
  {
    if d + 1 == k {
      assert (levels[k] + [node])[..|levels[k]|] == levels[k];
    }
  }

  lemma {:induction false} NoGrandchildren(levels: Levels, k: nat, node: TreeNode)
    requires Addable(levels, k, node)
    ensures ChildrenIn(LevelAfter(Grown(levels, k, node), k), node) == []
  {
    var below := LevelAfter(levels, k);
    forall i | 0 <= i < |below|
      ensures below[i].parent != node
    {
      assert levels[k + 1][i].parent in levels[k];
    }
    NoChildrenIn(below, node);
  }

  /** What a children list has to be after adding a node, from what it had to be before. */
  lemma GrownLink(levels: Levels, k: nat, node: TreeNode, d: nat, i: nat)
    requires Addable(levels, k, node) && d < |levels| && i < |Grown(levels, k, node)[d]|
    ensures var n := Grown(levels, k, node)[d][i];
            if n == node then ChildrenIn(LevelAfter(Grown(levels, k, node), d), n) == []
            else
              && i < |levels[d]| && n == levels[d][i]
              && ChildrenIn(LevelAfter(Grown(levels, k, node), d), n) ==
                 ChildrenIn(LevelAfter(levels, d), n) + if n == node.parent then [node] else []
  {
    if d == k && i == |levels[k]| {
      NoGrandchildren(levels, k, node);
    } else {
      ParentDepth(levels, k, node, d, i);
      GrownChildren(levels, k, node, d, levels[d][i]);
    }
  }

  /** The children lists `kids` are what they have to be. */
  ghost predicate LinkedAs(levels: Levels, kids: map<TreeNode, seq<TreeNode>>) {
    forall d, i {:trigger levels[d][i] in kids} :: 0 <= d < |levels| && 0 <= i < |levels[d]| ==>
      levels[d][i] in kids && kids[levels[d][i]] == ChildrenIn(LevelAfter(levels, d), levels[d][i])
  }

  /** Entering a node in its parent's children keeps the children lists what they have to be. */
  lemma GrownLinked(levels: Levels, kids: map<TreeNode, seq<TreeNode>>, k: nat, node: TreeNode)
    requires Addable(levels, k, node) && LinkedAs(levels, kids) && node.children == []
    requires forall n :: n in kids ==> n.children == kids[n] + if n == node.parent then [node] else []
    ensures Linked(Grown(levels, k, node))
  {
    var next: Levels := Grown(levels, k, node);
    forall d: nat, i: nat | d < |next| && i < |next[d]|
      ensures next[d][i].children == ChildrenIn(LevelAfter(next, d), next[d][i])
    {
      GrownLink(levels, k, node, d, i);
      assert d < |levels| && i < |levels[d]| ==> levels[d][i] in kids;
    }
  }

  class Tree {
    var depthLevels: Levels
    ghost var repr: set<TreeNode>

    ghost predicate Valid()
      reads this, repr
    {
      && (forall d, i :: 0 <= d < |depthLevels| && 0 <= i < |depthLevels[d]| ==> depthLevels[d][i] in repr)
      && Layered(depthLevels)
      && Linked(depthLevels)
    }

    /** One level for the target and one for each depth to scan. */
    constructor (maxDepth: nat)
      ensures Valid() && repr == {}
      ensures |depthLevels| == maxDepth + 1
      ensures forall d :: 0 <= d <= maxDepth ==> depthLevels[d] == []
    {
      depthLevels := seq(maxDepth + 1, _ => []);
      repr := {};
    }

    /** Create the node and enter it in its parent's children and in its level. */
    method Attach(parent: TreeNode?, areaNode: nat, depthLevel: nat, ownAddr: Address, ptrAddr: Address)
      returns (node: TreeNode)
      requires depthLevel < |depthLevels| && (parent != null ==> parent in repr)
      modifies this, repr
      ensures fresh(node) && repr == old(repr) + {node}
      ensures node.areaNode == areaNode && node.ownAddr == ownAddr && node.ptrAddr == ptrAddr && node.parent == parent
      ensures depthLevels == Grown(old(depthLevels), depthLevel, node)
      ensures node.children == []
      ensures forall n :: n in old(repr) ==> n.children == old(n.children) + if n == parent then [node] else []
    {
      node := new TreeNode(areaNode, ownAddr, ptrAddr, parent);
      if parent != null {
        parent.ConnectChild(node);
      }
      depthLevels := depthLevels[depthLevel := depthLevels[depthLevel] + [node]];
      repr := repr + {node};
    }

    method AddNode(parent: TreeNode?, areaNode: nat, depthLevel: nat, ownAddr: Address, ptrAddr: Address)
      returns (node: TreeNode)
      requires Valid() && depthLevel < |depthLevels|
      requires if depthLevel == 0 then parent == null else parent in depthLevels[depthLevel - 1]
      modifies this, repr
      ensures Valid() && fresh(node) && repr == old(repr) + {node}
      ensures node.areaNode == areaNode && node.ownAddr == ownAddr && node.ptrAddr == ptrAddr && node.parent == parent
      ensures depthLevels == Grown(old(depthLevels), depthLevel, node)
    {
      ghost var levels := depthLevels;
      ghost var kids := map n | n in repr :: n.children;
      assert LinkedAs(levels, kids);
      node := Attach(parent, areaNode, depthLevel, ownAddr, ptrAddr);
      GrownLayered(levels, depthLevel, node);
      GrownLinked(levels, kids, depthLevel, node);
    }
  }
}
