/** The selection phase (`SelectionStrategy` as implemented by `Tree`): starting at the root,
    step to the child chosen by `max_by` under the UCT comparator until a node without
    children is reached. The comparator answers `Greater` whenever its first argument (the
    accumulator of the fold) is unvisited; otherwise it compares scores and answers `Less`
    when either is NaN. */
module Selection {
  import opened Basics
  import opened MaxBy
  import opened Nodes
  import opened Trees

  /** The closure of `select`, with `a` the accumulator of the fold and `b` the next child. */
  function SelectOrder<A, S>(nodes: seq<Node<A, S>>, c: real, uct: Uct, a: Node<A, S>, b: Node<A, S>): (r: Ordering)
    ensures a.visits == 0 ==> r == Greater
    ensures a.visits > 0 && (Score(nodes, a, c, uct).None? || Score(nodes, b, c, uct).None?) ==> r == Less
    ensures a.visits > 0 && Score(nodes, a, c, uct).Some? && Score(nodes, b, c, uct).Some? ==>
              (r == Greater <==> Score(nodes, a, c, uct).value > Score(nodes, b, c, uct).value) &&
              (r == Less <==> Score(nodes, a, c, uct).value < Score(nodes, b, c, uct).value)
  {
    if a.visits == 0 then Greater
    else UnwrapOr(PartialCmp(Score(nodes, a, c, uct), Score(nodes, b, c, uct)), Less)
  }

  /** `SelectOrder` over this tree, as the function value `MaxByIndex` folds with. */
  function SelectCmp<A, S>(t: Tree<A, S>, uct: Uct): (Node<A, S>, Node<A, S>) -> Ordering
  {
    (a, b) => SelectOrder(t.nodes, t.learningRate, uct, a, b)
  }

  /** A node's score as a number (0 in place of NaN). */
  function ScoreKey<A, S>(t: Tree<A, S>, uct: Uct): Node<A, S> -> real
  {
    (x: Node<A, S>) => var s := Score(t.nodes, x, t.learningRate, uct); if s.Some? then s.value else 0.0
  }

  /** One descent step from the node at index `i`, which has children. */
  function SelectStep<A, S>(t: Tree<A, S>, uct: Uct, i: nat): (r: nat)
    requires WellFormed(t)
    requires i < |t.nodes| && |t.nodes[i].children| > 0
    ensures r in t.nodes[i].children
    ensures i < r < |t.nodes|
  {
    var n := t.nodes[i];
    var xs := ChildNodes(t.nodes, n);
    var k := MaxByIndex(xs, SelectCmp(t, uct)).value;
    assert t.nodes[n.children[k]].parent == Some(i);
    n.children[k]
  }

  /** `path` is the descent `select` performs: it starts at the root and every step is the
      one `SelectStep` takes from a node with children. */
  ghost predicate SelectionPath<A, S>(t: Tree<A, S>, uct: Uct, path: seq<nat>)
    requires WellFormed(t)
  {
    && ChildPath(t.nodes, path)
    && forall k :: 0 <= k < |path| - 1 ==>
         |t.nodes[path[k]].children| > 0 && path[k + 1] == SelectStep(t, uct, path[k])
  }

  method Select<A, S>(t: Tree<A, S>, uct: Uct) returns (leaf: nat)
    requires WellFormed(t)
    ensures leaf < |t.nodes|
    ensures |t.nodes[leaf].children| == 0
    ensures exists path :: SelectionPath(t, uct, path) && path[|path| - 1] == leaf
    ensures |t.nodes[Root].children| == 0 ==> leaf == Root
  {
    leaf := Root;
    ghost var path := [Root];
    while |t.nodes[leaf].children| > 0
      invariant leaf < |t.nodes|
      invariant SelectionPath(t, uct, path) && path[|path| - 1] == leaf
      decreases |t.nodes| - leaf
    {
      var next := SelectStep(t, uct, leaf);
      SelectionPathExtends(t, uct, path);
      path := path + [next];
      leaf := next;
    }
  }

  /** One more descent step from the end of a selection path is again a selection path. */
  lemma SelectionPathExtends<A, S>(t: Tree<A, S>, uct: Uct, path: seq<nat>)
    requires WellFormed(t)
    requires SelectionPath(t, uct, path)
    requires |t.nodes[path[|path| - 1]].children| > 0
    ensures SelectionPath(t, uct, path + [SelectStep(t, uct, path[|path| - 1])])
  {
    var last := path[|path| - 1];
    var next := SelectStep(t, uct, last);
    var path' := path + [next];
    forall k | 0 <= k < |path'|
      ensures path'[k] < |t.nodes|
    {
      if k < |path| { assert path'[k] == path[k]; }
    }
    forall k | 0 <= k < |path'| - 1
      ensures path'[k + 1] in t.nodes[path'[k]].children
      ensures |t.nodes[path'[k]].children| > 0 && path'[k + 1] == SelectStep(t, uct, path'[k])
    {
      if k < |path| - 1 {
        assert path'[k] == path[k] && path'[k + 1] == path[k + 1];
      } else {
        assert path'[k] == last && path'[k + 1] == next;
      }
    }
  }

  /** If some child of `i` has never been visited, the step goes to the FIRST such child,
      whatever the scores of the visited ones. */
  lemma SelectStepFirstUnvisited<A, S>(t: Tree<A, S>, uct: Uct, i: nat, j: nat)
    requires WellFormed(t)
    requires IeeeUct(uct)
    requires i < |t.nodes| && j < |t.nodes[i].children|
    requires t.nodes[t.nodes[i].children[j]].visits == 0
    requires forall k :: 0 <= k < j ==> t.nodes[t.nodes[i].children[k]].visits > 0
    ensures SelectStep(t, uct, i) == t.nodes[i].children[j]
  {
    var n := t.nodes[i];
    var xs := ChildNodes(t.nodes, n);
    var cmp := SelectCmp(t, uct);
    var p := (x: Node<A, S>) => x.visits == 0;
    forall a, b | 0 <= a < |xs| && 0 <= b < |xs| && !p(xs[a]) && p(xs[b])
      ensures cmp(xs[a], xs[b]) != Greater
    {
      assert t.nodes[n.children[b]].parent == Some(i);
      assert Score(t.nodes, xs[b], t.learningRate, uct).None?;
    }
    MaxByFirstSticky(xs, cmp, p, j);
  }

  /** Once every child of a visited node has been visited, the step goes to the child of
      highest score, the LAST of them on a tie. */
  lemma SelectStepMaxScore<A, S>(t: Tree<A, S>, uct: Uct, i: nat)
    requires WellFormed(t)
    requires IeeeUct(uct)
    requires i < |t.nodes| && |t.nodes[i].children| > 0 && t.nodes[i].visits > 0
    requires forall k :: 0 <= k < |t.nodes[i].children| ==> t.nodes[t.nodes[i].children[k]].visits > 0
    ensures forall k :: 0 <= k < |t.nodes[i].children| ==>
              Score(t.nodes, t.nodes[t.nodes[i].children[k]], t.learningRate, uct).Some?
    ensures exists j :: 0 <= j < |t.nodes[i].children| && t.nodes[i].children[j] == SelectStep(t, uct, i) &&
              (forall k :: 0 <= k < |t.nodes[i].children| ==>
                 ScoreValue(t, uct, t.nodes[i].children[k]) <= ScoreValue(t, uct, t.nodes[i].children[j])) &&
              (forall k :: j < k < |t.nodes[i].children| ==>
                 ScoreValue(t, uct, t.nodes[i].children[k]) < ScoreValue(t, uct, t.nodes[i].children[j]))
  {
    var n := t.nodes[i];
    var xs := ChildNodes(t.nodes, n);
    ChildrenScored(t, uct, i);
    SelectOrdersByScore(t, uct, i);
    MaxByIsLastMax(xs, SelectCmp(t, uct), ScoreKey(t, uct));
    var j := MaxByIndex(xs, SelectCmp(t, uct)).value;
    assert n.children[j] == SelectStep(t, uct, i);
    LastMaxOfChildren(t, uct, i, j);
  }

  /** The last maximum among the child records, read back on the children's indices. */
  lemma LastMaxOfChildren<A, S>(t: Tree<A, S>, uct: Uct, i: nat, j: nat)
    requires i < |t.nodes| && ChildrenIn(t.nodes, t.nodes[i])
    requires j < |t.nodes[i].children|
    requires IsLastMax(ChildNodes(t.nodes, t.nodes[i]), ScoreKey(t, uct), j, |t.nodes[i].children|)
    ensures forall k :: 0 <= k < |t.nodes[i].children| ==>
              ScoreValue(t, uct, t.nodes[i].children[k]) <= ScoreValue(t, uct, t.nodes[i].children[j])
    ensures forall k :: j < k < |t.nodes[i].children| ==>
              ScoreValue(t, uct, t.nodes[i].children[k]) < ScoreValue(t, uct, t.nodes[i].children[j])
  {
    var xs := ChildNodes(t.nodes, t.nodes[i]);
    assert forall k :: 0 <= k < |xs| ==> ScoreValue(t, uct, t.nodes[i].children[k]) == ScoreKey(t, uct)(xs[k]);
  }

  /** Every child of a visited node that has itself been visited has a numeric score. */
  lemma ChildrenScored<A, S>(t: Tree<A, S>, uct: Uct, i: nat)
    requires WellFormed(t)
    requires IeeeUct(uct)
    requires i < |t.nodes| && t.nodes[i].visits > 0
    requires forall k :: 0 <= k < |t.nodes[i].children| ==> t.nodes[t.nodes[i].children[k]].visits > 0
    ensures forall k :: 0 <= k < |t.nodes[i].children| ==>
              Score(t.nodes, t.nodes[t.nodes[i].children[k]], t.learningRate, uct).Some?
  {
    forall k | 0 <= k < |t.nodes[i].children|
      ensures Score(t.nodes, t.nodes[t.nodes[i].children[k]], t.learningRate, uct).Some?
    {
      assert t.nodes[t.nodes[i].children[k]].parent == Some(i);
    }
  }

  /** Among children that all have numeric scores, the comparator orders by score. */
  lemma SelectOrdersByScore<A, S>(t: Tree<A, S>, uct: Uct, i: nat)
    requires WellFormed(t)
    requires i < |t.nodes|
    requires forall k :: 0 <= k < |t.nodes[i].children| ==> t.nodes[t.nodes[i].children[k]].visits > 0
    requires forall k :: 0 <= k < |t.nodes[i].children| ==>
               Score(t.nodes, t.nodes[t.nodes[i].children[k]], t.learningRate, uct).Some?
    ensures OrdersByKey(ChildNodes(t.nodes, t.nodes[i]), SelectCmp(t, uct), ScoreKey(t, uct))
  {
    var xs := ChildNodes(t.nodes, t.nodes[i]);
    forall a, b | 0 <= a < |xs| && 0 <= b < |xs|
      ensures SelectCmp(t, uct)(xs[a], xs[b]) == Greater <==> ScoreKey(t, uct)(xs[a]) > ScoreKey(t, uct)(xs[b])
    {
      assert xs[a].visits > 0;
      assert Score(t.nodes, xs[a], t.learningRate, uct).Some? && Score(t.nodes, xs[b], t.learningRate, uct).Some?;
    }
  }

  /** The score of the node at index `i` as a number (0 in place of NaN). */
  ghost function ScoreValue<A, S>(t: Tree<A, S>, uct: Uct, i: nat): real
    requires i < |t.nodes|
  {
    ScoreKey(t, uct)(t.nodes[i])
  }
}
