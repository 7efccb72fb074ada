/** The search tree (src/tree/mod.rs): an arena of nodes addressed by index, the root at
    index 0. Nodes are only ever appended, so an index stays valid for the tree's lifetime
    and every back link resolves, which is what the `Rc`/`Weak` ownership of the source
    guarantees. */
module Trees {
  import opened Basics
  import opened Nodes

  datatype Tree<A, S> = Tree(nodes: seq<Node<A, S>>, learningRate: real, size: nat)

  const Root: nat := 0

  /** Indices `lo, lo + 1, ..., hi - 1`. */
  function Range(lo: nat, hi: nat): (r: seq<nat>)
    requires lo <= hi
    ensures |r| == hi - lo
    ensures forall k :: 0 <= k < |r| ==> r[k] == lo + k
  {
    seq(hi - lo, k requires 0 <= k < hi - lo => lo + k)
  }

  // ---------------------------------------------------------------------------
  // Structural invariant

  /** A back link always points to an earlier node: the tree only grows by appending. */
  ghost predicate ParentsPrecede<A, S>(nodes: seq<Node<A, S>>)
  {
    forall i :: 0 <= i < |nodes| && nodes[i].parent.Some? ==> nodes[i].parent.value < i
  }

  ghost predicate NonRootsHaveParents<A, S>(nodes: seq<Node<A, S>>)
  {
    forall i :: 0 < i < |nodes| ==> nodes[i].parent.Some?
  }

  /** Every child entry is a node of the arena whose back link names the listing node. */
  ghost predicate ChildrenLinkBack<A, S>(nodes: seq<Node<A, S>>)
  {
    forall i, k :: 0 <= i < |nodes| && 0 <= k < |nodes[i].children| ==>
      nodes[i].children[k] < |nodes| && nodes[nodes[i].children[k]].parent == Some(i)
  }

  /** Every non-root node is listed exactly once among its parent's children. */
  ghost predicate ListedOnceByParent<A, S>(nodes: seq<Node<A, S>>)
    requires ParentsPrecede(nodes) && NonRootsHaveParents(nodes)
  {
    forall i :: 0 < i < |nodes| ==> multiset(nodes[nodes[i].parent.value].children)[i] == 1
  }

  /** Visits and rewards are only ever added together, so a node never visited has no reward. */
  ghost predicate UnvisitedHaveNoReward<A, S>(nodes: seq<Node<A, S>>)
  {
    forall i :: 0 <= i < |nodes| && nodes[i].visits == 0 ==> nodes[i].totalReward == 0.0
  }

  ghost predicate WellFormed<A, S>(t: Tree<A, S>)
  {
    && |t.nodes| > 0
    && t.size == |t.nodes|
    && ParentsPrecede(t.nodes)
    && NonRootsHaveParents(t.nodes)
    && ChildrenLinkBack(t.nodes)
    && ListedOnceByParent(t.nodes)
    && UnvisitedHaveNoReward(t.nodes)
  }

  /** `t'` extends `t`: no node removed, and the existing nodes keep their action, state and
      parent and only gain children at the end of their lists. Statistics may differ. */
  ghost predicate Grows<A, S>(t: Tree<A, S>, t': Tree<A, S>)
  {
    && |t.nodes| <= |t'.nodes|
    && t'.learningRate == t.learningRate
    && forall i :: 0 <= i < |t.nodes| ==>
         && t'.nodes[i].action == t.nodes[i].action
         && t'.nodes[i].state == t.nodes[i].state
         && t'.nodes[i].parent == t.nodes[i].parent
         && t.nodes[i].children <= t'.nodes[i].children
  }

  lemma GrowsTransitive<A, S>(t1: Tree<A, S>, t2: Tree<A, S>, t3: Tree<A, S>)
    requires Grows(t1, t2) && Grows(t2, t3)
    ensures Grows(t1, t3)
  {
    forall i | 0 <= i < |t1.nodes|
      ensures t1.nodes[i].children <= t3.nodes[i].children
    {
      assert t1.nodes[i].children <= t2.nodes[i].children <= t3.nodes[i].children;
    }
  }

  // ---------------------------------------------------------------------------
  // Ancestry and paths

  /** `i` is `n` or is reached from `n` by following back links. */
  ghost predicate AncestorOrSelf<A, S>(nodes: seq<Node<A, S>>, n: nat, i: nat)
    decreases n
  {
    && n < |nodes|
    && (i == n || match Parent(nodes, nodes[n])
                  case None => false
                  case Some(p) => p < n && AncestorOrSelf(nodes, p, i))
  }

  lemma {:induction false} AncestorIsBelow<A, S>(nodes: seq<Node<A, S>>, n: nat, i: nat)
    requires AncestorOrSelf(nodes, n, i)
    ensures i <= n
    decreases n
  {
    if i != n {
      AncestorIsBelow(nodes, Parent(nodes, nodes[n]).value, i);
    }
  }

  /** Following back links from any node of a well-formed tree ends at the root: the node
      graph is a single tree rooted at index 0. */
  lemma {:induction false} RootIsAncestorOfAll<A, S>(t: Tree<A, S>, n: nat)
    requires WellFormed(t)
    requires n < |t.nodes|
    ensures AncestorOrSelf(t.nodes, n, Root)
    decreases n
  {
    if n != Root {
      RootIsAncestorOfAll(t, t.nodes[n].parent.value);
    }
  }

  /** Ancestry depends only on the back links. */
  lemma {:induction false} AncestryFollowsLinks<A, S>(nodes: seq<Node<A, S>>, nodes': seq<Node<A, S>>, n: nat, i: nat)
    requires |nodes| == |nodes'|
    requires forall j :: 0 <= j < |nodes| ==> nodes'[j].parent == nodes[j].parent
    ensures AncestorOrSelf(nodes', n, i) == AncestorOrSelf(nodes, n, i)
    decreases n
  {
    if n < |nodes| && i != n && Parent(nodes, nodes[n]).Some? && Parent(nodes, nodes[n]).value < n {
      AncestryFollowsLinks(nodes, nodes', Parent(nodes, nodes[n]).value, i);
    }
  }

  /** `path` starts at the root and each entry is a child of the one before. */
  ghost predicate ChildPath<A, S>(nodes: seq<Node<A, S>>, path: seq<nat>)
  {
    && |path| > 0
    && path[0] == Root
    && (forall k :: 0 <= k < |path| ==> path[k] < |nodes|)
    && (forall k :: 0 <= k < |path| - 1 ==> path[k + 1] in nodes[path[k]].children)
  }

  /** In a well-formed tree, the ancestors of the end of a root path are exactly the path. */
  lemma {:induction false} ChildPathIsAncestry<A, S>(t: Tree<A, S>, path: seq<nat>, i: nat)
    requires WellFormed(t)
    requires ChildPath(t.nodes, path)
    ensures AncestorOrSelf(t.nodes, path[|path| - 1], i) <==> i in path
    decreases |path|
  {
    var n := path[|path| - 1];
    if |path| == 1 {
      assert t.nodes[Root].parent.None?;
    } else {
      var pre := path[..|path| - 1];
      assert ChildPath(t.nodes, pre);
      var p := pre[|pre| - 1];
      assert n in t.nodes[p].children;
      assert t.nodes[n].parent == Some(p);
      ChildPathIsAncestry(t, pre, i);
      assert path == pre + [n];
    }
  }

  // ---------------------------------------------------------------------------
  // Construction

  /** `Tree::new`: a single root built from the initial action and state. */
  function NewTree<A, S>(learningRate: real, action: A, state: S): (t: Tree<A, S>)
    ensures WellFormed(t)
    ensures t.size == 1 && |t.nodes| == 1 && t.learningRate == learningRate
    ensures Parent(t.nodes, t.nodes[Root]) == None
    ensures t.nodes[Root].action == action && t.nodes[Root].state == state
    ensures t.nodes[Root].visits == 0 && t.nodes[Root].totalReward == 0.0
    ensures t.nodes[Root].children == []
  {
    Tree([NewNode(action, state)], learningRate, 1)
  }

  /** `add_node`: counts the node, links it to `parent` and appends it to `parent`'s
      children; the handle returned is the node's index. */
  function AddNode<A, S>(t: Tree<A, S>, node: Node<A, S>, parent: nat): (r: (Tree<A, S>, nat))
    requires parent < |t.nodes|
    ensures r.1 == |t.nodes| && |r.0.nodes| == |t.nodes| + 1
    ensures r.0.size == t.size + 1 && r.0.learningRate == t.learningRate
    ensures r.0.nodes[r.1].parent == Some(parent)
    ensures r.0.nodes[r.1].(parent := node.parent) == node
    ensures r.0.nodes[parent].children == t.nodes[parent].children + [r.1]
    ensures r.0.nodes[parent].(children := t.nodes[parent].children) == t.nodes[parent]
    ensures forall i :: 0 <= i < |t.nodes| && i != parent ==> r.0.nodes[i] == t.nodes[i]
  {
    var (p', handle) := AddChild(t.nodes[parent], |t.nodes|);
    (Tree(t.nodes[parent := p'] + [SetParent(node, parent)], t.learningRate, t.size + 1), handle)
  }

  /** Adding a fresh node keeps the tree well formed; in particular the new node is listed
      exactly once, by its parent, and nothing else gains or loses a listing. */
  lemma AddNodePreservesWellFormed<A, S>(t: Tree<A, S>, node: Node<A, S>, parent: nat)
    requires WellFormed(t)
    requires parent < |t.nodes|
    requires node.children == [] && node.visits == 0 && node.totalReward == 0.0
    ensures WellFormed(AddNode(t, node, parent).0)
    ensures Grows(t, AddNode(t, node, parent).0)
  {
    var t' := AddNode(t, node, parent).0;
    AddNodeLinksBack(t, node, parent);
    AddNodeListedOnce(t, node, parent);
    AddNodeKeepsRewards(t, node, parent);
    AddNodeGrows(t, node, parent);
  }

  lemma AddNodeKeepsRewards<A, S>(t: Tree<A, S>, node: Node<A, S>, parent: nat)
    requires WellFormed(t)
    requires parent < |t.nodes|
    requires node.visits == 0 && node.totalReward == 0.0
    ensures UnvisitedHaveNoReward(AddNode(t, node, parent).0.nodes)
  {
  }

  lemma AddNodeGrows<A, S>(t: Tree<A, S>, node: Node<A, S>, parent: nat)
    requires parent < |t.nodes|
    ensures Grows(t, AddNode(t, node, parent).0)
  {
  }

  lemma AddNodeLinksBack<A, S>(t: Tree<A, S>, node: Node<A, S>, parent: nat)
    requires WellFormed(t)
    requires parent < |t.nodes|
    requires node.children == []
    ensures ChildrenLinkBack(AddNode(t, node, parent).0.nodes)
  {
    var (t', id) := AddNode(t, node, parent);
    var old_cs := t.nodes[parent].children;
    forall i, k | 0 <= i < |t'.nodes| && 0 <= k < |t'.nodes[i].children|
      ensures t'.nodes[i].children[k] < |t'.nodes| && t'.nodes[t'.nodes[i].children[k]].parent == Some(i)
    {
      if i == parent && k == |old_cs| {
        assert t'.nodes[i].children[k] == id;
      } else {
        assert i < id;
        assert t'.nodes[i].children[k] == t.nodes[i].children[k];
      }
    }
  }

  lemma AddNodeListedOnce<A, S>(t: Tree<A, S>, node: Node<A, S>, parent: nat)
    requires WellFormed(t)
    requires parent < |t.nodes|
    ensures ParentsPrecede(AddNode(t, node, parent).0.nodes)
    ensures NonRootsHaveParents(AddNode(t, node, parent).0.nodes)
    ensures ListedOnceByParent(AddNode(t, node, parent).0.nodes)
  {
    var t' := AddNode(t, node, parent).0;
    assert ParentsPrecede(t'.nodes) && NonRootsHaveParents(t'.nodes);
    forall i | 0 < i < |t'.nodes|
      ensures multiset(t'.nodes[t'.nodes[i].parent.value].children)[i] == 1
    {
      AddNodeListsOnce(t, node, parent, i);
    }
  }

  lemma AddNodeListsOnce<A, S>(t: Tree<A, S>, node: Node<A, S>, parent: nat, i: nat)
    requires WellFormed(t)
    requires parent < |t.nodes|
    requires 0 < i <= |t.nodes|
    ensures AddNode(t, node, parent).0.nodes[i].parent.Some?
    ensures AddNode(t, node, parent).0.nodes[i].parent.value < i
    ensures multiset(AddNode(t, node, parent).0.nodes[AddNode(t, node, parent).0.nodes[i].parent.value].children)[i] == 1
  {
    var (t', id) := AddNode(t, node, parent);
    var old_cs := t.nodes[parent].children;
    var q := t'.nodes[i].parent.value;
    if i == id {
      assert q == parent;
      assert forall k :: 0 <= k < |old_cs| ==> old_cs[k] < id;
      assert id !in old_cs;
      MultisetAppend(old_cs, id, i);
    } else {
      assert q == t.nodes[i].parent.value;
      if q == parent {
        MultisetAppend(old_cs, id, i);
      } else {
        assert t'.nodes[q] == t.nodes[q];
      }
    }
  }

  /** Two arenas with the same links in every node have the same shape invariants. */
  lemma SameShape<A, S>(nodes: seq<Node<A, S>>, nodes': seq<Node<A, S>>)
    requires |nodes| == |nodes'|
    requires forall i :: 0 <= i < |nodes| ==> nodes'[i].children == nodes[i].children && nodes'[i].parent == nodes[i].parent
    requires ParentsPrecede(nodes) && NonRootsHaveParents(nodes) && ChildrenLinkBack(nodes) && ListedOnceByParent(nodes)
    ensures ParentsPrecede(nodes') && NonRootsHaveParents(nodes') && ChildrenLinkBack(nodes') && ListedOnceByParent(nodes')
  {
    forall i | 0 < i < |nodes'|
      ensures multiset(nodes'[nodes'[i].parent.value].children)[i] == 1
    {
      assert nodes'[nodes'[i].parent.value].children == nodes[nodes[i].parent.value].children;
    }
  }

  /** Overwriting one node's statistics keeps the tree well formed, as long as a node left
      unvisited is left without reward. */
  lemma SetStatsPreservesWellFormed<A, S>(t: Tree<A, S>, i: nat, n: Node<A, S>)
    requires WellFormed(t)
    requires i < |t.nodes|
    requires n.children == t.nodes[i].children && n.parent == t.nodes[i].parent
    requires n.visits == 0 ==> n.totalReward == 0.0
    ensures WellFormed(t.(nodes := t.nodes[i := n]))
  {
    SameShape(t.nodes, t.nodes[i := n]);
  }

  lemma MultisetAppend(cs: seq<nat>, x: nat, i: nat)
    ensures multiset(cs + [x])[i] == multiset(cs)[i] + (if i == x then 1 else 0)
  {
    assert multiset(cs + [x]) == multiset(cs) + multiset{x};
  }
}
