# rmcts — a Dafny model of the Monte Carlo Tree Search core

This project models the search engine of `rmcts`, a generic Monte Carlo Tree Search
library. It covers the node graph (`src/node/mod.rs`) and the tree that runs the four
search phases over it (`src/tree/mod.rs`):
- **select** descends from the root by UCT score, and an unvisited child always wins;
- **expand** exhaustively adds one child per untried action;
- **simulate** rolls a copy of the state out to the end and sums the rewards;
- **backpropagate** credits the reward and one visit to every node from the simulated node up to the root;
- **search** loops over the four phases and returns the root's best child.

The model is functional:
- The tree is an arena: an immutable `seq` of node records addressed by index, with the root at index 0.
- Each node holds `children: seq<nat>` in insertion order and a `parent: Option<nat>` back link. A back link that does not resolve reads as "no parent", as a `Weak` that fails to upgrade does.
- `add_node`, `expand` and `backpropagate` are pure functions that return the new arena; the loops of `expand` and `backpropagate` become recursion.
- `select` and `simulate` only read the tree. They are methods with loops that return the chosen leaf's index and the rollout's reward.
- `search` is a method whose loop runs the four phases and returns the final arena together with the answer.

The `State` trait is the domain's contract. It is a value `Domain(next, step, remaining)` of total functions:
- `next` is `next_action`;
- `step` is `do_action`, returning the successor state together with the reward;
- `remaining` is a measure that must strictly drop whenever the action `next` offers is done (`StateContract.Valid`).

The Rust code only relies on the domain eventually answering `None`. The measure states that reliance, and it is what makes the expand and simulate loops terminate.

The UCT formula uses a logarithm and a square root, so it is a parameter `uct` of type `Nodes.Uct`, where `None` stands for NaN. The facts IEEE-754 guarantees about it are the predicate `Nodes.IeeeUct`:
- `0/0` is NaN;
- `ln 0` is minus infinity, and its square root is NaN;
- the result is finite once both visit counts are positive.

Rust's `Iterator::max_by` is modelled exactly (`MaxBy.MaxByIndex`). It folds `compare(acc, next)` and keeps the accumulator only on `Greater`. Two consequences follow:
- `best_child` resolves equal rewards to the LAST maximal child: a later child with the same reward replaces the accumulator.
- `select` moves to the FIRST unvisited child: once that child is the accumulator, the comparator answers `Greater` for it.

The tree's invariant is `Trees.WellFormed`:
- parents precede their children in the arena;
- every non-root node has a parent;
- every child entry links back to the node that lists it;
- every non-root node is listed exactly once by its parent;
- a never-visited node has no reward.

Every operation preserves it. `Trees.Grows` states that nodes are only ever added: existing nodes keep their action, state and parent, and only gain children at the end of their lists.

The test domain `DummyState` of `src/tree/mod.rs` is the concrete instance `Countdown.Dummy`. Four of the five tree tests (`expand`, `select`, `simulate`, `backpropagate`) are replayed on it as lemmas, for any count of actions (at least 2 where a grandchild or a second child is needed). The `search` test follows from the contract of `Search.Search`.

## Model

| member | source | states |
|---|---|---|
| `Nodes.NewNode` | src/node/mod.rs:40-50 | a new node has zero visits and reward, is not expanded, and has no children and no parent |
| `Nodes.Parent` | src/node/mod.rs:52-58 | `parent()` resolves exactly when a back link is present and names a node that exists; a stale link reads as no parent |
| `Nodes.SetParent` | src/node/mod.rs:60-62 | only this node's parent link changes, and it now names the given node; the target is not touched |
| `Nodes.ParentAfterSetParent` | src/node/mod.rs:52-62 | after `set_parent(p)`, `parent()` is `p` when `p` exists and none otherwise |
| `Nodes.ChildAt` | src/node/mod.rs:64-70 | `child_at(i)` answers a child exactly when `i` is below the number of children, and that child is the i-th |
| `Nodes.NewNodeIsDetachedLeaf` | src/node/mod.rs:40-50 | a fresh node has no parent, no child at any index, and no best child |
| `Nodes.AddChild` | src/node/mod.rs:84-87 | `add_child` appends the node at the end, changes nothing else, and returns the node it appended |
| `Nodes.ChildAtAfterAddChild` | src/node/mod.rs:84-87 | after `add_child`, the new child is at the old length, earlier positions are unchanged, and exactly one more index is valid |
| `Nodes.RewardOrder` | src/node/mod.rs:73-77 | the `best_child` comparator answers `Greater`, `Less` or `Equal` exactly as the first reward is above, below or equal to the second |
| `Nodes.BestChild` | src/node/mod.rs:72-82 | `best_child` is none exactly when there are no children; otherwise it is one of the children |
| `Nodes.BestChildIsLastMax` | src/node/mod.rs:73-78 | the best child's total reward is at least every child's, and every child after it has strictly less (ties go to the last) |
| `Nodes.BestChildUniqueMax` | src/node/mod.rs:168-173 | a child whose reward is above every other child's is the best child |
| `Nodes.Score` | src/node/mod.rs:89-97 | `score(c)` is 0 for every `c` when the parent does not resolve, as at the root |
| `Nodes.ScoreNaNWhenParentUnvisited` | src/node/mod.rs:181-185 | with IEEE arithmetic, a node whose parent has zero visits scores NaN |
| `Nodes.ScoreFiniteWhenVisited` | src/node/mod.rs:187-189 | with IEEE arithmetic, once the node and its parent are both visited the score is a number |
| `Nodes.ScoreNaNWhenUnvisited` | src/node/mod.rs:92-93 | with IEEE arithmetic, an unvisited node with no reward scores NaN (`0/0`) |
| `Basics.PartialCmp` | src/tree/mod.rs:90-93 | `partial_cmp` on possibly-NaN scores gives no ordering exactly when either is NaN, and otherwise orders by value |
| `MaxBy.MaxByIndex` | src/node/mod.rs:73-81 | `max_by` answers none exactly on an empty sequence, and otherwise a position inside it |
| `MaxBy.MaxByIsLastMax` | src/node/mod.rs:73-78 | under a comparator that orders by a key, `max_by` picks a maximal element that no later element ties |
| `MaxBy.MaxByUniqueMax` | src/node/mod.rs:73-78 | under such a comparator, an element whose key strictly beats all others is picked |
| `MaxBy.MaxByFirstSticky` | src/tree/mod.rs:85-88 | when the comparator always keeps an accumulator that has a property, and never keeps one that lacks it against an element that has it, `max_by` picks the first element that has the property |
| `StateContract.Rollout` | src/tree/mod.rs:139-145 | repeatedly asking for the next action and doing it ends after at most `remaining` steps; the sequence is empty exactly when the state is terminal and starts with the offered action |
| `Trees.NewTree` | src/tree/mod.rs:36-42 | a new tree is well formed, has size 1, and its root has the given action and state, no statistics, no children and no parent |
| `Trees.AddNode` | src/tree/mod.rs:69-73 | `add_node` grows the size and the arena by exactly one, links the node to its parent, appends it as the parent's last child, returns its index, and changes nothing else |
| `Trees.AddNodePreservesWellFormed` | src/tree/mod.rs:69-73 | adding a fresh node keeps every node listed exactly once by its parent and keeps the tree well formed, and the tree only grows |
| `Trees.RootIsAncestorOfAll` | src/tree/mod.rs:158-168 | following parent links from any node of a well-formed tree reaches the root: the graph is a single tree |
| `Trees.ChildPathIsAncestry` | src/tree/mod.rs:156-169 | the nodes on the parent chain of a node are exactly the nodes on the root-to-node child path |
| `Trees.GrowsTransitive` | src/tree/mod.rs:48-64 | growth composes across the phases of successive search iterations |
| `Selection.SelectOrder` | src/tree/mod.rs:85-94 | the `select` comparator answers `Greater` whenever the accumulator is unvisited; otherwise `Less` when either score is NaN, and the order of the two scores when both are numbers |
| `Selection.SelectStep` | src/tree/mod.rs:85-99 | one descent step moves to a child of the current node, which lies later in the arena |
| `Selection.Select` | src/tree/mod.rs:81-103 | `select` always answers a node; it has no children, it is the end of the descent from the root, and it is the root when the root has no children |
| `Selection.SelectStepFirstUnvisited` | src/tree/mod.rs:85-88 | when a node has an unvisited child, the step goes to the first unvisited child, whatever the scores of the visited ones |
| `Selection.SelectStepMaxScore` | src/tree/mod.rs:90-93 | when a visited node's children are all visited, every score is a number and the step goes to the highest-scoring child, the last one on a tie |
| `Expansion.ExpandFrom` | src/tree/mod.rs:112-124 | the expansion loop adds one fresh child per action of the rollout of the scratch state, in order, each with the leaf's original state advanced by that single action, and changes nothing else |
| `Expansion.Expand` | src/tree/mod.rs:111-127 | `expand` adds exactly as many children as the leaf's state yields actions; each is unvisited, unrewarded and linked to the leaf; size grows by that count; the leaf's state and statistics are unchanged; the result is the leaf's first child, which is none exactly when the leaf had no children and no action was available |
| `Expansion.ExpandPreservesWellFormed` | src/tree/mod.rs:111-127 | expansion keeps the tree well formed, only adds nodes, and leaves every existing node's statistics unchanged |
| `Simulation.Simulate` | src/tree/mod.rs:135-148 | `simulate` returns the sum of the rewards along the full rollout of the node's state; the tree is only read |
| `Backpropagation.Credited` | src/tree/mod.rs:159-160 | crediting a node adds the value to its total reward and exactly one visit, and changes nothing else |
| `Backpropagation.Backpropagate` | src/tree/mod.rs:156-169 | the node and each of its ancestors gain the value and exactly one visit; every other node and the shape are unchanged |
| `Backpropagation.BackpropagatePreservesWellFormed` | src/tree/mod.rs:156-169 | backpropagation keeps the tree well formed and changes no links |
| `Backpropagation.BackpropagateCreditsRoot` | src/tree/mod.rs:158-165 | every backpropagation reaches the root, which gains the value and exactly one visit |
| `Backpropagation.BackpropagateCreditsPath` | src/tree/mod.rs:156-169 | backpropagating from the end of a root path credits exactly the nodes of that path |
| `Search.Search` | src/tree/mod.rs:48-66 | after `search(k)` the tree is well formed and has only grown; the root has exactly `k` more visits; the answer is exactly the root's `best_child`, so its reward is at least every root child's, and it is present once the root state offers an action and an iteration has begun with the root visited |
| `Countdown.NewDummy` | src/tree/mod.rs:183-188 | `DummyState::new()` holds five actions worth 0.5 each, so its first offered action is 5 |
| `Countdown.NextAction` | src/tree/mod.rs:192-197 | the countdown offers no action exactly at zero, and otherwise offers its count |
| `Countdown.DoAction` | src/tree/mod.rs:199-202 | doing an action on a non-exhausted countdown lowers the count by one and earns the fixed reward |
| `Countdown.Dummy` | src/tree/mod.rs:191-203 | the countdown is a valid domain: its count drops on every action it offers |
| `Countdown.DummyRollout` | src/tree/mod.rs:176-203 | a countdown from `k` rolls out exactly `k` actions and earns `k` times its reward |
| `Countdown.SimulateFiveHalves` | src/tree/mod.rs:240-248 | five remaining actions at 0.5 each roll out to 2.5 |
| `Countdown.ExpandNewRoot` | src/tree/mod.rs:205-219 | expanding a fresh root with `k` actions left gives it `k` fresh children whose states have `k - 1` left; the result is child 1, whose parent is the root, and the root has no parent |
| `Countdown.BackpropagateDepthTwo` | src/tree/mod.rs:250-261 | expanding the root and then its first child, and backpropagating a value from the first grandchild, gives the root exactly that value |
| `Countdown.SelectPrefersUnvisited` | src/tree/mod.rs:221-237 | after marking the first child and the root visited, the descent moves to the second child, an unvisited leaf with no reward |

## Left out

- f32 arithmetic: rewards, the learning rate and scores are `real`. Rounding, infinities and NaN rewards from a domain are not modelled. The countdown's 0.5 steps are exact anyway.
- Nodes.Score: the UCT formula `total/visits + c*sqrt(2*ln(parentVisits)/visits)` is the parameter `uct`, because its logarithm and square root are not modelled. Only the no-parent case (0) is concrete. The NaN/finite facts hold under the stated `IeeeUct` assumption.
- Selection.SelectStepFirstUnvisited: holds only under the `IeeeUct` assumption about the abstract `uct` parameter, which is what makes an unvisited child score NaN.
- Selection.Select: Rust's `select` returns an `Option` that is always `Some`, so the model returns an index. The `None => break` arms in `select` and `search` cannot be taken and are not modelled.
- Search.Search: the root's final total reward is not stated, because it depends on the rewards of the individual rollouts. The `search(20)` unit test is covered by this contract rather than replayed as a lemma: `Search` is a method.
- `Rc`/`RefCell`/`Weak` ownership and the `rc_counts` test: the arena replaces them. Nodes are never freed, so back links always resolve in a well-formed tree.
- The caller's handle being overwritten with the parent inside `backpropagate` (`*child = parent`): an aliasing artefact with no effect on the tree.
- The `expanded` flag: it is set to false at creation and never read, so it is carried as an inert field.
- `Tree::root()`: the root is always index `Trees.Root`.
- `u32` overflow of `visits`, `size` and the iteration count: these are unbounded naturals in the model.
- Countdown.DoAction: the `u8` decrement is written with a wrap at zero. Rust's debug build would panic there instead. Neither case is reachable, because the search only does an action on a state that offered one.
- A domain that never answers `None` makes Rust's expand and simulate loop forever. Such a domain does not meet `StateContract.Valid` and is outside the model.
- The node tests' `DummyState` (always offers an action, reward 1.0) and its `build_1depth_tree` helper: that domain never terminates. The tests that use it are stated generically in `Nodes`.
- `src/strategies/mod.rs`: trait declarations only, including the never-implemented `RandomExpansionStrategy`. Each phase is its own module here.
- `src/state/mod.rs`: the trait itself is the `StateContract.Domain` value described above.
