/**
 Facts about sequences: how a loop that builds one piece by piece relates to the recursive function it
 computes, order, and slices.
 */
module Sequences {

  /** What was produced so far, followed by what is still to come, is all of it; the end states agree. */
  ghost predicate Continues<S(!new), T(!new)>(want: (S, seq<T>), done: seq<T>, rest: (S, seq<T>)) {
    want.0 == rest.0 && want.1 == done + rest.1
  }

  lemma ContinuesStep<S(!new), T(!new)>(want: (S, seq<T>), done: seq<T>, more: seq<T>, rest: (S, seq<T>))
    requires Continues(want, done, (rest.0, more + rest.1))
    ensures Continues(want, done + more, rest)
  {
    assert done + (more + rest.1) == done + more + rest.1;
  }

  ghost predicate Increasing(s: seq<int>) {
    forall i, j :: 0 <= i < j < |s| ==> s[i] < s[j]
  }

  /** A slice behind a prefix is a slice of what follows the prefix. */
  lemma SliceBehind<T>(front: seq<T>, back: seq<T>, i: nat, j: nat)
    requires |front| <= i <= j <= |front| + |back|
    ensures (front + back)[i..j] == back[i - |front|..j - |front|]
  {
  }
}
