/** Rust's `Iterator::max_by`, as used by `best_child` and `select`.
    The iterator folds `compare(acc, next)` from the left and keeps the accumulator only
    when the comparison answers `Greater`; on `Less` or `Equal` the later element wins.
    The model returns the index of the chosen element rather than the element itself. */
module MaxBy {
  import opened Basics

  function MaxByIndex<T>(xs: seq<T>, cmp: (T, T) -> Ordering): (r: Option<nat>)
    ensures r.Some? <==> |xs| > 0
    ensures r.Some? ==> r.value < |xs|
  {
    if |xs| == 0 then None else Some(Fold(xs, cmp, 0, 1))
  }

  /** The fold step: `acc` is the winner among `xs[..k]`. */
  function Fold<T>(xs: seq<T>, cmp: (T, T) -> Ordering, acc: nat, k: nat): (r: nat)
    requires acc < k <= |xs|
    ensures acc <= r < |xs|
    decreases |xs| - k
  {
    if k == |xs| then acc
    else Fold(xs, cmp, if cmp(xs[acc], xs[k]) == Greater then acc else k, k + 1)
  }

  /** On the elements of `xs`, `cmp` orders by a real-valued key with no incomparable values. */
  ghost predicate OrdersByKey<T>(xs: seq<T>, cmp: (T, T) -> Ordering, key: T -> real)
  {
    forall i, j :: 0 <= i < |xs| && 0 <= j < |xs| ==> (cmp(xs[i], xs[j]) == Greater <==> key(xs[i]) > key(xs[j]))
  }

  /** `j` holds the largest key among `xs[..n]` and every later element of that prefix is strictly smaller. */
  ghost predicate IsLastMax<T>(xs: seq<T>, key: T -> real, j: nat, n: nat)
    requires n <= |xs|
  {
    && j < n
    && (forall i :: 0 <= i < n ==> key(xs[i]) <= key(xs[j]))
    && (forall i :: j < i < n ==> key(xs[i]) < key(xs[j]))
  }

  lemma {:induction false} FoldLastMax<T>(xs: seq<T>, cmp: (T, T) -> Ordering, key: T -> real, acc: nat, k: nat)
    requires OrdersByKey(xs, cmp, key)
    requires acc < k <= |xs|
    requires IsLastMax(xs, key, acc, k)
    ensures IsLastMax(xs, key, Fold(xs, cmp, acc, k), |xs|)
    decreases |xs| - k
  {
    if k < |xs| {
      var next := if cmp(xs[acc], xs[k]) == Greater then acc else k;
      StepLastMax(xs, cmp, key, acc, k);
      FoldLastMax(xs, cmp, key, next, k + 1);
    }
  }

  /** One fold step keeps the accumulator the last maximum of the prefix it has seen. */
  lemma StepLastMax<T>(xs: seq<T>, cmp: (T, T) -> Ordering, key: T -> real, acc: nat, k: nat)
    requires OrdersByKey(xs, cmp, key)
    requires acc < k < |xs|
    requires IsLastMax(xs, key, acc, k)
    ensures IsLastMax(xs, key, if cmp(xs[acc], xs[k]) == Greater then acc else k, k + 1)
  {
    if cmp(xs[acc], xs[k]) == Greater {
      assert key(xs[k]) < key(xs[acc]);
    } else {
      assert key(xs[acc]) <= key(xs[k]);
      assert forall i :: 0 <= i < k ==> key(xs[i]) <= key(xs[acc]);
    }
  }

  /** With a key-ordering comparator, `max_by` returns the LAST element of maximal key. */
  lemma MaxByIsLastMax<T>(xs: seq<T>, cmp: (T, T) -> Ordering, key: T -> real)
    requires OrdersByKey(xs, cmp, key)
    requires |xs| > 0
    ensures MaxByIndex(xs, cmp).Some?
    ensures IsLastMax(xs, key, MaxByIndex(xs, cmp).value, |xs|)
  {
    FoldLastMax(xs, cmp, key, 0, 1);
  }

  /** Under the same comparator, an element whose key beats every other element's is the result. */
  lemma MaxByUniqueMax<T>(xs: seq<T>, cmp: (T, T) -> Ordering, key: T -> real, j: nat)
    requires OrdersByKey(xs, cmp, key)
    requires j < |xs|
    requires forall i :: 0 <= i < |xs| && i != j ==> key(xs[i]) < key(xs[j])
    ensures MaxByIndex(xs, cmp) == Some(j)
  {
    MaxByIsLastMax(xs, cmp, key);
  }

  /** `p` is "sticky" for `cmp` over `xs`: an accumulator satisfying `p` always answers `Greater`,
      and one not satisfying it never answers `Greater` against an element satisfying it. */
  ghost predicate Sticky<T>(xs: seq<T>, cmp: (T, T) -> Ordering, p: T -> bool)
  {
    && (forall i, j :: 0 <= i < |xs| && 0 <= j < |xs| && p(xs[i]) ==> cmp(xs[i], xs[j]) == Greater)
    && (forall i, j :: 0 <= i < |xs| && 0 <= j < |xs| && !p(xs[i]) && p(xs[j]) ==> cmp(xs[i], xs[j]) != Greater)
  }

  lemma {:induction false} FoldFirstSticky<T>(xs: seq<T>, cmp: (T, T) -> Ordering, p: T -> bool, j: nat, acc: nat, k: nat)
    requires Sticky(xs, cmp, p)
    requires j < |xs| && p(xs[j]) && forall i :: 0 <= i < j ==> !p(xs[i])
    requires acc < k <= |xs|
    requires k > j ==> acc == j
    ensures Fold(xs, cmp, acc, k) == j
    decreases |xs| - k
  {
    if k < |xs| {
      var next := if cmp(xs[acc], xs[k]) == Greater then acc else k;
      if k == j {
        assert !p(xs[acc]);
        assert next == j;
      } else if k > j {
        assert next == j;
      }
      FoldFirstSticky(xs, cmp, p, j, next, k + 1);
    }
  }

  /** With a sticky property, `max_by` returns the FIRST element that has it. */
  lemma MaxByFirstSticky<T>(xs: seq<T>, cmp: (T, T) -> Ordering, p: T -> bool, j: nat)
    requires Sticky(xs, cmp, p)
    requires j < |xs| && p(xs[j])
    requires forall i :: 0 <= i < j ==> !p(xs[i])
    ensures MaxByIndex(xs, cmp) == Some(j)
  {
    FoldFirstSticky(xs, cmp, p, j, 0, 1);
  }
}
