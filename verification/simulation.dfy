/** The simulation phase (`SimulationStrategy` as implemented by `Tree`): play a copy of the
    node's state forward, asking the domain for its next action and doing it, until no action
    remains, and sum the rewards undiscounted. The tree is only read. */
module Simulation {
  import opened Basics
  import opened StateContract
  import opened Trees

  method Simulate<A, S(!new)>(dom: Domain<S, A>, t: Tree<A, S>, n: nat) returns (total: real)
    requires Valid(dom)
    requires n < |t.nodes|
    ensures total == SumRewards(Rollout(dom, t.nodes[n].state))
  {
    total := 0.0;
    var current := t.nodes[n].state;
    while dom.next(current).Some?
      invariant total + SumRewards(Rollout(dom, current)) == SumRewards(Rollout(dom, t.nodes[n].state))
      decreases dom.remaining(current)
    {
      var action := dom.next(current).value;
      var (next, reward) := dom.step(current, action);
      assert Rollout(dom, current)[1..] == Rollout(dom, next);
      total := total + reward;
      current := next;
    }
  }
}
