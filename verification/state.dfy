/** The domain contract the search consumes (the `State<T>` trait, src/state/mod.rs).
    A domain is a value holding three total functions:
    - `next(s)`: the next untried action of `s`, or `None` once `s` is exhausted;
    - `step(s, a)`: the state after doing `a` in `s`, paired with the reward of that transition;
    - `remaining(s)`: a measure of the actions left.
    Rust's `do_action` mutates its receiver in place; here it returns the successor state.
    The source only relies on every domain eventually answering `None`; the model makes that
    reliance explicit: `remaining` must drop whenever the action `next` offers is done. */
module StateContract {
  import opened Basics

  datatype Domain<!S, !A> = Domain(next: S -> Option<A>, step: (S, A) -> (S, real), remaining: S -> nat)

  /** One transition of a rollout: the action done and the reward it earned. */
  datatype Step<A> = Step(action: A, reward: real)

  /** The measure strictly drops along the actions the domain itself offers. */
  ghost predicate Valid<S(!new), A>(dom: Domain<S, A>)
  {
    forall s :: dom.next(s).Some? ==> dom.remaining(dom.step(s, dom.next(s).value).0) < dom.remaining(s)
  }

  /** The successive actions (and their rewards) obtained by repeatedly asking `next` and doing
      the answer, starting from `s`, until the domain answers `None`. */
  function Rollout<S(!new), A>(dom: Domain<S, A>, s: S): (r: seq<Step<A>>)
    requires Valid(dom)
    ensures |r| <= dom.remaining(s)
    ensures r == [] <==> dom.next(s).None?
    ensures |r| > 0 ==> r[0].action == dom.next(s).value
    decreases dom.remaining(s)
  {
    match dom.next(s)
    case None => []
    case Some(a) => [Step(a, dom.step(s, a).1)] + Rollout(dom, dom.step(s, a).0)
  }

  /** Undiscounted sum of the rewards of a sequence of steps. */
  function SumRewards<A>(steps: seq<Step<A>>): real
  {
    if |steps| == 0 then 0.0 else steps[0].reward + SumRewards(steps[1..])
  }
}
