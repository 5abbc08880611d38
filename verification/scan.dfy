/** The search loop of `java.util.regex.Matcher.find`, for matchers written as explicit scanners. */
module Scan {
  import opened Wrappers

  /** What a pattern captured at some index, and the index just past the match. */
  datatype Match<T> = Match(value: T, end: nat)

  /** `find()` starting at `from`: the leftmost index in from..n at which `at` matches, with its capture. */
  function FindFrom<T>(n: nat, from: nat, at: nat -> Option<T>): (r: Option<(nat, T)>)
    ensures r.Some? ==> from <= r.value.0 <= n && at(r.value.0) == Some(r.value.1)
    ensures r.Some? ==> forall k :: from <= k < r.value.0 ==> at(k).None?
    ensures r.None? ==> forall k :: from <= k <= n ==> at(k).None?
    decreases n + 1 - from
  {
    if from > n then None
    else
      match at(from)
      case Some(v) => Some((from, v))
      case None => FindFrom(n, from + 1, at)
  }

  /** A match at `i` with none before it is what `find()` returns. */
  lemma {:induction false} FindFromLeftmost<T>(n: nat, from: nat, at: nat -> Option<T>, i: nat)
    requires from <= i <= n && at(i).Some?
    requires forall k :: from <= k < i ==> at(k).None?
    ensures FindFrom(n, from, at) == Some((i, at(i).value))
    decreases i - from
  {
    if from < i {
      FindFromLeftmost(n, from + 1, at, i);
    }
  }
}
