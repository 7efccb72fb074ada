/** The countdown domain of the tree's unit tests: a state holds a reward per action and a
    `U8` count of remaining actions; the next action is the count itself (none once it is 0)
    and doing any action decrements the count and earns the fixed reward. The lemmas below
    replay the unit tests of src/tree/mod.rs on the model. */
module Countdown {
  import opened Basics
  import opened StateContract
  import opened Nodes
  import opened Trees
  import opened Selection
  import opened Expansion
  import opened Backpropagation

  newtype U8 = x: int | 0 <= x < 256

  datatype DummyState = DummyState(actionReward: real, actions: U8)

  function NextAction(s: DummyState): (r: Option<U8>)
    ensures r.None? <==> s.actions == 0
    ensures r.Some? ==> r.value == s.actions
  {
    if s.actions == 0 then None else Some(s.actions)
  }

  /** `actions -= 1` on a `U8`, written with its wrap at zero; the search only does an action
      on a state that offered one, so the wrap is never taken there. */
  function DoAction(s: DummyState, action: U8): (r: (DummyState, real))
    ensures s.actions > 0 ==> r.0.actions == s.actions - 1
    ensures r.0.actionReward == s.actionReward && r.1 == s.actionReward
  {
    (s.(actions := if s.actions == 0 then 255 else s.actions - 1), s.actionReward)
  }

  function Dummy(): (dom: Domain<DummyState, U8>)
    ensures Valid(dom)
  {
    Domain(NextAction, DoAction, (s: DummyState) => s.actions as nat)
  }

  /** `DummyState::new()`: five actions worth 0.5 each. */
  function NewDummy(): (r: DummyState)
    ensures r.actionReward == 0.5 && r.actions == 5
    ensures NextAction(r) == Some(5)
  {
    DummyState(0.5, 5)
  }

  /** A countdown from `k` plays exactly `k` actions and earns `k` times the reward. */
  lemma {:induction false} DummyRollout(s: DummyState)
    ensures |Rollout(Dummy(), s)| == s.actions as nat
    ensures SumRewards(Rollout(Dummy(), s)) == s.actions as real * s.actionReward
    decreases s.actions
  {
    if s.actions > 0 {
      var next := s.(actions := s.actions - 1);
      DummyRollout(next);
      assert Rollout(Dummy(), s) == [Step(s.actions, s.actionReward)] + Rollout(Dummy(), next);
    }
  }

  /** Test `simulate`: five remaining actions at 0.5 each roll out to 2.5. */
  lemma SimulateFiveHalves()
    ensures SumRewards(Rollout(Dummy(), NewDummy())) == 2.5
  {
    DummyRollout(NewDummy());
  }

  /** Test `expand`, for any count: expanding a fresh root whose state has `k` actions left
      gives it `k` children, nodes 1 to `k`, each a fresh leaf whose state has `k - 1` left;
      the returned child is node 1 and its parent resolves to the root, which has none. */
  lemma ExpandNewRoot(learningRate: real, action: U8, s: DummyState)
    ensures var (t1, child) := Expand(Dummy(), NewTree(learningRate, action, s), Root);
            && WellFormed(t1)
            && |t1.nodes| == 1 + s.actions as nat && t1.size == |t1.nodes|
            && t1.nodes[Root].children == Range(1, 1 + s.actions as nat)
            && Parent(t1.nodes, t1.nodes[Root]) == None
            && t1.nodes[Root].visits == 0 && t1.nodes[Root].totalReward == 0.0
            && (s.actions > 0 ==> child == Some(1) && Parent(t1.nodes, t1.nodes[1]) == Some(Root))
            && (s.actions == 0 ==> child == None)
            && forall k :: 1 <= k <= s.actions as nat ==>
                 && t1.nodes[k].visits == 0 && t1.nodes[k].totalReward == 0.0
                 && t1.nodes[k].children == []
                 && t1.nodes[k].state == s.(actions := s.actions - 1)
  {
    var t0 := NewTree(learningRate, action, s);
    DummyRollout(s);
    ExpandPreservesWellFormed(Dummy(), t0, Root);
    ExpandNewRootLeaves(learningRate, action, s);
  }

  /** The children a fresh root gains are fresh leaves one action further down. */
  lemma ExpandNewRootLeaves(learningRate: real, action: U8, s: DummyState)
    ensures var t1 := Expand(Dummy(), NewTree(learningRate, action, s), Root).0;
            && |t1.nodes| == 1 + s.actions as nat
            && forall k :: 1 <= k <= s.actions as nat ==>
                 && t1.nodes[k].visits == 0 && t1.nodes[k].totalReward == 0.0
                 && t1.nodes[k].children == []
                 && t1.nodes[k].state == s.(actions := s.actions - 1)
  {
    var dom := Dummy();
    var t0 := NewTree(learningRate, action, s);
    DummyRollout(s);
    var t1 := Expand(dom, t0, Root).0;
    var steps := Rollout(dom, s);
    forall k | 1 <= k <= s.actions as nat
      ensures t1.nodes[k].visits == 0 && t1.nodes[k].totalReward == 0.0
      ensures t1.nodes[k].children == [] && t1.nodes[k].state == s.(actions := s.actions - 1)
    {
      assert FreshChild(t1.nodes[1 + (k - 1)], steps[k - 1].action, dom.step(s, steps[k - 1].action).0, Root);
      assert dom.step(s, steps[k - 1].action).0 == s.(actions := s.actions - 1);
    }
  }

  /** Test `backpropagate`, for any count of at least 2: expand the root, then its first
      child; backpropagating a value from the first grandchild gives the root that value. */
  lemma BackpropagateDepthTwo(learningRate: real, action: U8, s: DummyState, value: real)
    requires s.actions >= 2
    ensures var t1 := Expand(Dummy(), NewTree(learningRate, action, s), Root).0;
            var (t2, n2) := Expand(Dummy(), t1, 1);
            && n2 == Some(1 + s.actions as nat)
            && WellFormed(t2)
            && Backpropagate(t2, n2.value, value).nodes[Root].totalReward == value
  {
    ExpandNewRoot(learningRate, action, s);
    var t1 := Expand(Dummy(), NewTree(learningRate, action, s), Root).0;
    DummyRollout(s.(actions := s.actions - 1));
    ExpandPreservesWellFormed(Dummy(), t1, 1);
    var t2 := Expand(Dummy(), t1, 1).0;
    BackpropagateCreditsRoot(t2, 1 + s.actions as nat, value);
  }

  /** Test `select`, for any count of at least 2: after expanding the root and marking its
      first child and the root as visited once, the descent from the root moves to the second
      child, which is unvisited, has no reward and no children, so `select` stops there. */
  lemma SelectPrefersUnvisited(learningRate: real, action: U8, s: DummyState, uct: Uct)
    requires IeeeUct(uct)
    requires s.actions >= 2
    ensures var t1 := Expand(Dummy(), NewTree(learningRate, action, s), Root).0;
            var t := t1.(nodes := t1.nodes[1 := t1.nodes[1].(visits := 1, totalReward := 1.0)]
                                           [Root := t1.nodes[Root].(visits := 1)]);
            && WellFormed(t)
            && SelectStep(t, uct, Root) == 2
            && t.nodes[2].visits == 0 && t.nodes[2].totalReward == 0.0
            && t.nodes[2].children == []
  {
    ExpandNewRoot(learningRate, action, s);
    var t1 := Expand(Dummy(), NewTree(learningRate, action, s), Root).0;
    var ta := t1.(nodes := t1.nodes[1 := t1.nodes[1].(visits := 1, totalReward := 1.0)]);
    SetStatsPreservesWellFormed(t1, 1, t1.nodes[1].(visits := 1, totalReward := 1.0));
    var t := ta.(nodes := ta.nodes[Root := ta.nodes[Root].(visits := 1)]);
    SetStatsPreservesWellFormed(ta, Root, ta.nodes[Root].(visits := 1));
    assert t.nodes[Root].children == t1.nodes[Root].children;
    assert t.nodes[Root].children[0] == 1 && t.nodes[Root].children[1] == 2;
    assert t.nodes[2] == t1.nodes[2];
    SelectStepFirstUnvisited(t, uct, Root, 1);
  }
}
