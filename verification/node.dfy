/** A tree vertex (src/node/mod.rs) and the operations on it.
    Nodes live in an arena (`seq<Node>`, see module Trees) and refer to each other by index:
    `children` lists child indices in insertion order and `parent` is the non-owning back
    link. A link that does not resolve to an arena entry is treated as absent, as a `Weak`
    that fails to upgrade is. */
module Nodes {
  import opened Basics
  import opened MaxBy

  datatype Node<A, S> = Node(
    action: A,
    state: S,
    visits: nat,
    totalReward: real,
    expanded: bool,        // set at creation and never read
    children: seq<nat>,
    parent: Option<nat>)

  /** The UCT formula `total/visits + c * sqrt(2 * ln(parentVisits) / visits)`, applied to
      `(c, total, visits, parentVisits)`; `None` stands for a NaN result. Its logarithm and
      square root are not modelled, so it is a parameter of every member that scores. */
  type Uct = (real, real, nat, nat) -> Option<real>

  /** What IEEE-754 single-precision arithmetic guarantees of that formula:
      `0/0` is NaN (an unvisited node with no reward), `ln 0` is minus infinity and its
      square root is NaN (an unvisited parent), and with both counts positive it is finite. */
  ghost predicate IeeeUct(uct: Uct)
  {
    && (forall c, pv :: uct(c, 0.0, 0, pv).None?)
    && (forall c, r, v :: uct(c, r, v, 0).None?)
    && (forall c, r, v, pv :: v > 0 && pv > 0 ==> uct(c, r, v, pv).Some?)
  }

  function NewNode<A, S>(action: A, state: S): (n: Node<A, S>)
    ensures n.action == action && n.state == state
    ensures n.visits == 0 && n.totalReward == 0.0 && !n.expanded
    ensures n.children == [] && n.parent == None
  {
    Node(action, state, 0, 0.0, false, [], None)
  }

  /** `parent()`: the back link, if it resolves to a node of the arena. */
  function Parent<A, S>(nodes: seq<Node<A, S>>, n: Node<A, S>): (r: Option<nat>)
    ensures r.Some? <==> n.parent.Some? && n.parent.value < |nodes|
    ensures r.Some? ==> r == n.parent
  {
    if n.parent.Some? && n.parent.value < |nodes| then n.parent else None
  }

  /** `set_parent`: records the link; the target's children are not touched. */
  function SetParent<A, S>(n: Node<A, S>, p: nat): (r: Node<A, S>)
    ensures r.parent == Some(p)
    ensures r.(parent := n.parent) == n
  {
    n.(parent := Some(p))
  }

  function ChildAt<A, S>(n: Node<A, S>, index: nat): (r: Option<nat>)
    ensures r.Some? <==> index < |n.children|
    ensures r.Some? ==> r.value == n.children[index]
  {
    if index < |n.children| then Some(n.children[index]) else None
  }

  /** `add_child`: appends `c` and hands back the last child, which is `c`. */
  function AddChild<A, S>(n: Node<A, S>, c: nat): (r: (Node<A, S>, nat))
    ensures r.0.children == n.children + [c]
    ensures r.0.(children := n.children) == n
    ensures r.1 == c
  {
    var n' := n.(children := n.children + [c]);
    (n', n'.children[|n'.children| - 1])
  }

  /** A fresh node has no parent, no child at any index and no best child. */
  lemma NewNodeIsDetachedLeaf<A, S>(nodes: seq<Node<A, S>>, action: A, state: S, index: nat)
    ensures Parent(nodes, NewNode(action, state)) == None
    ensures ChildAt(NewNode(action, state), index) == None
    ensures BestChild(nodes, NewNode(action, state)) == None
  {
  }

  /** After `add_child`, the new child sits at the old length and earlier positions are unchanged. */
  lemma ChildAtAfterAddChild<A, S>(n: Node<A, S>, c: nat, index: nat)
    ensures ChildAt(AddChild(n, c).0, |n.children|) == Some(c)
    ensures index < |n.children| ==> ChildAt(AddChild(n, c).0, index) == ChildAt(n, index)
    ensures ChildAt(AddChild(n, c).0, index).Some? <==> index <= |n.children|
  {
  }

  /** `set_parent` makes the back link resolve to the given node once it is in the arena. */
  lemma ParentAfterSetParent<A, S>(nodes: seq<Node<A, S>>, n: Node<A, S>, p: nat)
    ensures p < |nodes| ==> Parent(nodes, SetParent(n, p)) == Some(p)
    ensures p >= |nodes| ==> Parent(nodes, SetParent(n, p)) == None
  {
  }

  ghost predicate ChildrenIn<A, S>(nodes: seq<Node<A, S>>, n: Node<A, S>)
  {
    forall k :: 0 <= k < |n.children| ==> n.children[k] < |nodes|
  }

  /** The child records of `n`, in insertion order (`children.iter()`). */
  function ChildNodes<A, S>(nodes: seq<Node<A, S>>, n: Node<A, S>): (r: seq<Node<A, S>>)
    requires ChildrenIn(nodes, n)
    ensures |r| == |n.children|
    ensures forall k :: 0 <= k < |r| ==> r[k] == nodes[n.children[k]]
  {
    seq(|n.children|, k requires 0 <= k < |n.children| => nodes[n.children[k]])
  }

  /** The comparator of `best_child`: `partial_cmp` of the rewards, `Less` when unordered. */
  function RewardOrder<A, S>(a: Node<A, S>, b: Node<A, S>): (r: Ordering)
    ensures r == Greater <==> a.totalReward > b.totalReward
    ensures r == Less <==> a.totalReward < b.totalReward
    ensures r == Equal <==> a.totalReward == b.totalReward
  {
    UnwrapOr(PartialCmp(Some(a.totalReward), Some(b.totalReward)), Less)
  }

  function BestChild<A, S>(nodes: seq<Node<A, S>>, n: Node<A, S>): (r: Option<nat>)
    requires ChildrenIn(nodes, n)
    ensures r.None? <==> |n.children| == 0
    ensures r.Some? ==> r.value in n.children
  {
    match MaxByIndex(ChildNodes(nodes, n), RewardOrder)
    case None => None
    case Some(k) => Some(n.children[k])
  }

  lemma RewardOrderByReward<A, S>(xs: seq<Node<A, S>>)
    ensures OrdersByKey(xs, RewardOrder, (x: Node<A, S>) => x.totalReward)
  {
  }

  /** `best_child` holds the largest total reward among the children, and it is the LAST
      child holding it: every later child has strictly less. */
  lemma BestChildIsLastMax<A, S>(nodes: seq<Node<A, S>>, n: Node<A, S>)
    requires ChildrenIn(nodes, n)
    requires |n.children| > 0
    ensures BestChild(nodes, n).Some?
    ensures forall k :: 0 <= k < |n.children| ==>
              nodes[n.children[k]].totalReward <= nodes[BestChild(nodes, n).value].totalReward
    ensures exists j :: 0 <= j < |n.children| && n.children[j] == BestChild(nodes, n).value &&
              forall k :: j < k < |n.children| ==>
                nodes[n.children[k]].totalReward < nodes[n.children[j]].totalReward
  {
    var xs := ChildNodes(nodes, n);
    var key := (x: Node<A, S>) => x.totalReward;
    RewardOrderByReward(xs);
    MaxByIsLastMax(xs, RewardOrder, key);
    var j := MaxByIndex(xs, RewardOrder).value;
    assert n.children[j] == BestChild(nodes, n).value;
  }

  /** A child whose reward is above every other child's is the best child. */
  lemma BestChildUniqueMax<A, S>(nodes: seq<Node<A, S>>, n: Node<A, S>, j: nat)
    requires ChildrenIn(nodes, n)
    requires j < |n.children|
    requires forall k :: 0 <= k < |n.children| && k != j ==>
               nodes[n.children[k]].totalReward < nodes[n.children[j]].totalReward
    ensures BestChild(nodes, n) == Some(n.children[j])
  {
    var xs := ChildNodes(nodes, n);
    RewardOrderByReward(xs);
    MaxByUniqueMax(xs, RewardOrder, (x: Node<A, S>) => x.totalReward, j);
  }

  /** `score(c)`: the UCT value relative to the resolved parent; 0 with no parent. */
  function Score<A, S>(nodes: seq<Node<A, S>>, n: Node<A, S>, c: real, uct: Uct): (r: Option<real>)
    ensures Parent(nodes, n).None? ==> r == Some(0.0)
  {
    match Parent(nodes, n)
    case None => Some(0.0)
    case Some(p) => uct(c, n.totalReward, n.visits, nodes[p].visits)
  }

  /** A node whose parent has never been visited scores NaN. */
  lemma ScoreNaNWhenParentUnvisited<A, S>(nodes: seq<Node<A, S>>, n: Node<A, S>, c: real, uct: Uct)
    requires IeeeUct(uct)
    requires Parent(nodes, n).Some? && nodes[Parent(nodes, n).value].visits == 0
    ensures Score(nodes, n, c, uct).None?
  {
  }

  /** An unvisited node with no reward and a resolvable parent scores NaN. */
  lemma ScoreNaNWhenUnvisited<A, S>(nodes: seq<Node<A, S>>, n: Node<A, S>, c: real, uct: Uct)
    requires IeeeUct(uct)
    requires Parent(nodes, n).Some? && n.visits == 0 && n.totalReward == 0.0
    ensures Score(nodes, n, c, uct).None?
  {
  }

  /** Once both the node and its parent are visited, the score is a number. */
  lemma ScoreFiniteWhenVisited<A, S>(nodes: seq<Node<A, S>>, n: Node<A, S>, c: real, uct: Uct)
    requires IeeeUct(uct)
    requires Parent(nodes, n).Some? && nodes[Parent(nodes, n).value].visits > 0 && n.visits > 0
    ensures Score(nodes, n, c, uct).Some?
  {
  }
}
