/** The backpropagation phase (`BackpropagationStrategy` as implemented by `Tree`):
    starting at the simulated node, add the reward and one visit, then move to the parent,
    until a node without a parent (the root) has been updated. */
module Backpropagation {
  import opened Basics
  import opened Nodes
  import opened Trees

  /** One more visit through `n`, earning `value`. */
  function Credited<A, S>(n: Node<A, S>, value: real): (r: Node<A, S>)
    ensures r.visits == n.visits + 1 && r.totalReward == n.totalReward + value
    ensures r.(visits := n.visits, totalReward := n.totalReward) == n
  {
    n.(totalReward := n.totalReward + value, visits := n.visits + 1)
  }

  function Backpropagate<A, S>(t: Tree<A, S>, n: nat, value: real): (r: Tree<A, S>)
    requires ParentsPrecede(t.nodes)
    requires n < |t.nodes|
    ensures |r.nodes| == |t.nodes| && r.size == t.size && r.learningRate == t.learningRate
    ensures forall i :: 0 <= i < |t.nodes| ==>
              r.nodes[i] == if AncestorOrSelf(t.nodes, n, i) then Credited(t.nodes[i], value) else t.nodes[i]
    decreases n
  {
    var t1 := t.(nodes := t.nodes[n := Credited(t.nodes[n], value)]);
    match Parent(t1.nodes, t1.nodes[n])
    case None => t1
    case Some(p) =>
      var r := Backpropagate(t1, p, value);
      assert forall i :: 0 <= i < |t.nodes| ==> (AncestorOrSelf(t.nodes, n, i) <==> i == n || AncestorOrSelf(t1.nodes, p, i)) by {
        forall i | 0 <= i < |t.nodes| {
          AncestryFollowsLinks(t.nodes, t1.nodes, p, i);
        }
      }
      assert !AncestorOrSelf(t1.nodes, p, n) by {
        if AncestorOrSelf(t1.nodes, p, n) {
          AncestorIsBelow(t1.nodes, p, n);
        }
      }
      r
  }

  /** Backpropagation keeps the tree well formed and only changes statistics. */
  lemma BackpropagatePreservesWellFormed<A, S>(t: Tree<A, S>, n: nat, value: real)
    requires WellFormed(t)
    requires n < |t.nodes|
    ensures WellFormed(Backpropagate(t, n, value))
    ensures Grows(t, Backpropagate(t, n, value))
    ensures forall i :: 0 <= i < |t.nodes| ==>
              Backpropagate(t, n, value).nodes[i].children == t.nodes[i].children
  {
    var r := Backpropagate(t, n, value);
    SameShape(t.nodes, r.nodes);
    assert UnvisitedHaveNoReward(r.nodes) by {
      forall i | 0 <= i < |r.nodes| && r.nodes[i].visits == 0
        ensures r.nodes[i].totalReward == 0.0
      {
        assert r.nodes[i] == t.nodes[i];
      }
    }
  }

  /** Every backpropagation reaches the root: it gains the reward and exactly one visit. */
  lemma BackpropagateCreditsRoot<A, S>(t: Tree<A, S>, n: nat, value: real)
    requires WellFormed(t)
    requires n < |t.nodes|
    ensures Backpropagate(t, n, value).nodes[Root].visits == t.nodes[Root].visits + 1
    ensures Backpropagate(t, n, value).nodes[Root].totalReward == t.nodes[Root].totalReward + value
  {
    RootIsAncestorOfAll(t, n);
  }

  /** Backpropagating from the end of a root path credits exactly the nodes of that path. */
  lemma BackpropagateCreditsPath<A, S>(t: Tree<A, S>, path: seq<nat>, value: real, i: nat)
    requires WellFormed(t)
    requires ChildPath(t.nodes, path)
    requires i < |t.nodes|
    ensures Backpropagate(t, path[|path| - 1], value).nodes[i] ==
              if i in path then Credited(t.nodes[i], value) else t.nodes[i]
  {
    ChildPathIsAncestry(t, path, i);
  }
}
