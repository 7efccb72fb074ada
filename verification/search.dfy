/** `Tree::search`: repeat select, expand (only a node already visited), simulate and
    backpropagate `iterations` times, then answer the root's best child. */
module Search {
  import opened Basics
  import opened StateContract
  import opened Nodes
  import opened Trees
  import opened Selection
  import opened Expansion
  import opened Simulation
  import opened Backpropagation

  /** The first iteration that starts with the root already visited. */
  function FirstVisitedRound(rootVisits: nat): nat
  {
    if rootVisits > 0 then 0 else 1
  }

  method Search<A, S(!new)>(t0: Tree<A, S>, dom: Domain<S, A>, uct: Uct, iterations: nat)
    returns (t: Tree<A, S>, best: Option<nat>)
    requires WellFormed(t0)
    requires Valid(dom)
    ensures WellFormed(t)
    ensures Grows(t0, t)
    ensures t.nodes[Root].visits == t0.nodes[Root].visits + iterations
    ensures best == BestChild(t.nodes, t.nodes[Root])
    ensures best.None? <==> |t.nodes[Root].children| == 0
    ensures best.Some? ==> best.value in t.nodes[Root].children
    ensures best.Some? ==> forall k :: 0 <= k < |t.nodes[Root].children| ==>
              t.nodes[t.nodes[Root].children[k]].totalReward <= t.nodes[best.value].totalReward
    ensures dom.next(t0.nodes[Root].state).Some? && iterations > FirstVisitedRound(t0.nodes[Root].visits) ==>
              best.Some?
  {
    t := t0;
    var first := FirstVisitedRound(t0.nodes[Root].visits);
    var i := 0;
    while i < iterations
      invariant i <= iterations
      invariant WellFormed(t)
      invariant Grows(t0, t)
      invariant t.nodes[Root].visits == t0.nodes[Root].visits + i
      invariant dom.next(t0.nodes[Root].state).Some? && i > first ==> |t.nodes[Root].children| > 0
    {
      var leaf := Select(t, uct);
      if t.nodes[leaf].visits > 0 {
        var t1, child := Expand(dom, t, leaf).0, Expand(dom, t, leaf).1;
        ExpandPreservesWellFormed(dom, t, leaf);
        GrowsTransitive(t0, t, t1);
        t := t1;
        if child.Some? {
          leaf := child.value;
        }
      }
      var reward := Simulate(dom, t, leaf);
      BackpropagatePreservesWellFormed(t, leaf, reward);
      BackpropagateCreditsRoot(t, leaf, reward);
      var t2 := Backpropagate(t, leaf, reward);
      GrowsTransitive(t0, t, t2);
      t := t2;
      i := i + 1;
    }
    best := BestChild(t.nodes, t.nodes[Root]);
    if best.Some? {
      BestChildIsLastMax(t.nodes, t.nodes[Root]);
    }
  }
}
