/** The expansion phase (`ExpansionStrategy` as implemented by `Tree`). Expansion is
    exhaustive: a scratch copy of the node's state is asked for its next action and advanced
    by it, again and again until it has none, and for every action obtained a child is added
    whose state is the node's ORIGINAL state advanced by that single action. The result is
    the node's first child, if it has one. */
module Expansion {
  import opened Basics
  import opened StateContract
  import opened Nodes
  import opened Trees

  /** `n` is a node just created for action `a` with state `s` and attached under `p`. */
  ghost predicate FreshChild<A, S>(n: Node<A, S>, a: A, s: S, p: nat)
  {
    && n.action == a && n.state == s
    && n.visits == 0 && n.totalReward == 0.0 && !n.expanded
    && n.children == [] && n.parent == Some(p)
  }

  /** The loop of `expand`, with `current` the scratch state. */
  function ExpandFrom<A, S(!new)>(dom: Domain<S, A>, t: Tree<A, S>, leaf: nat, current: S): (r: Tree<A, S>)
    requires Valid(dom)
    requires leaf < |t.nodes|
    ensures |r.nodes| == |t.nodes| + |Rollout(dom, current)|
    ensures r.size == t.size + |Rollout(dom, current)| && r.learningRate == t.learningRate
    ensures forall k :: 0 <= k < |Rollout(dom, current)| ==>
              FreshChild(r.nodes[|t.nodes| + k], Rollout(dom, current)[k].action,
                         dom.step(t.nodes[leaf].state, Rollout(dom, current)[k].action).0, leaf)
    ensures r.nodes[leaf].children == t.nodes[leaf].children + Range(|t.nodes|, |r.nodes|)
    ensures r.nodes[leaf].(children := t.nodes[leaf].children) == t.nodes[leaf]
    ensures forall i :: 0 <= i < |t.nodes| && i != leaf ==> r.nodes[i] == t.nodes[i]
    decreases dom.remaining(current)
  {
    match dom.next(current)
    case None => t
    case Some(a) =>
      var t1 := AddNode(t, NewNode(a, dom.step(t.nodes[leaf].state, a).0), leaf).0;
      var next := dom.step(current, a).0;
      var r := ExpandFrom(dom, t1, leaf, next);
      assert Rollout(dom, current) == [Step(a, dom.step(current, a).1)] + Rollout(dom, next);
      assert Range(|t.nodes|, |r.nodes|) == [|t.nodes|] + Range(|t1.nodes|, |r.nodes|);
      r
  }

  function Expand<A, S(!new)>(dom: Domain<S, A>, t: Tree<A, S>, leaf: nat): (r: (Tree<A, S>, Option<nat>))
    requires Valid(dom)
    requires leaf < |t.nodes|
    ensures |r.0.nodes| == |t.nodes| + |Rollout(dom, t.nodes[leaf].state)|
    ensures r.0.size == t.size + |Rollout(dom, t.nodes[leaf].state)|
    ensures r.0.nodes[leaf].children == t.nodes[leaf].children + Range(|t.nodes|, |r.0.nodes|)
    ensures forall k :: 0 <= k < |Rollout(dom, t.nodes[leaf].state)| ==>
              FreshChild(r.0.nodes[|t.nodes| + k], Rollout(dom, t.nodes[leaf].state)[k].action,
                         dom.step(t.nodes[leaf].state, Rollout(dom, t.nodes[leaf].state)[k].action).0, leaf)
    ensures r.0.nodes[leaf].state == t.nodes[leaf].state
    ensures r.0.nodes[leaf].visits == t.nodes[leaf].visits
    ensures r.0.nodes[leaf].totalReward == t.nodes[leaf].totalReward
    ensures forall i :: 0 <= i < |t.nodes| && i != leaf ==> r.0.nodes[i] == t.nodes[i]
    ensures r.1.None? <==> |t.nodes[leaf].children| == 0 && dom.next(t.nodes[leaf].state).None?
    ensures r.1.Some? ==> r.1.value == if |t.nodes[leaf].children| > 0 then t.nodes[leaf].children[0] else |t.nodes|
  {
    var t' := ExpandFrom(dom, t, leaf, t.nodes[leaf].state);
    (t', ChildAt(t'.nodes[leaf], 0))
  }

  lemma {:induction false} ExpandFromPreservesWellFormed<A, S(!new)>(dom: Domain<S, A>, t: Tree<A, S>, leaf: nat, current: S)
    requires Valid(dom)
    requires WellFormed(t)
    requires leaf < |t.nodes|
    ensures WellFormed(ExpandFrom(dom, t, leaf, current))
    ensures Grows(t, ExpandFrom(dom, t, leaf, current))
    decreases dom.remaining(current)
  {
    match dom.next(current)
    case None =>
    case Some(a) =>
      var node := NewNode(a, dom.step(t.nodes[leaf].state, a).0);
      AddNodePreservesWellFormed(t, node, leaf);
      var t1 := AddNode(t, node, leaf).0;
      ExpandFromPreservesWellFormed(dom, t1, leaf, dom.step(current, a).0);
      GrowsTransitive(t, t1, ExpandFrom(dom, t1, leaf, dom.step(current, a).0));
  }

  /** Expansion keeps the tree well formed, only adds nodes, and leaves every statistic as it was. */
  lemma ExpandPreservesWellFormed<A, S(!new)>(dom: Domain<S, A>, t: Tree<A, S>, leaf: nat)
    requires Valid(dom)
    requires WellFormed(t)
    requires leaf < |t.nodes|
    ensures WellFormed(Expand(dom, t, leaf).0)
    ensures Grows(t, Expand(dom, t, leaf).0)
    ensures forall i :: 0 <= i < |t.nodes| ==>
              Expand(dom, t, leaf).0.nodes[i].visits == t.nodes[i].visits &&
              Expand(dom, t, leaf).0.nodes[i].totalReward == t.nodes[i].totalReward
  {
    ExpandFromPreservesWellFormed(dom, t, leaf, t.nodes[leaf].state);
  }
}
