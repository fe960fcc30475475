/** Order-preserving selections over sequences. */
module Seqs {

  /** `xs` can be obtained from `ys` by deleting elements, keeping the rest in order. */
  predicate IsSubsequence<T(==)>(xs: seq<T>, ys: seq<T>)
    decreases |ys|
  {
    if xs == [] then true
    else if ys == [] then false
    else if xs[0] == ys[0] then IsSubsequence(xs[1..], ys[1..])
    else IsSubsequence(xs, ys[1..])
  }

  /** Dropping the first element of a subsequence leaves a subsequence. */
  lemma {:induction false} SubsequenceTail<T>(xs: seq<T>, ys: seq<T>)
    requires xs != [] && IsSubsequence(xs, ys)
    ensures IsSubsequence(xs[1..], ys)
    decreases |ys|, 1
  {
    if xs[0] == ys[0] {
      SubsequencePrepend(xs[1..], ys[0], ys[1..]);
    } else {
      SubsequenceTail(xs, ys[1..]);
      SubsequencePrepend(xs[1..], ys[0], ys[1..]);
    }
    assert [ys[0]] + ys[1..] == ys;
  }

  /** A subsequence of `ys` is also one of `ys` with any element put in front. */
  lemma {:induction false} SubsequencePrepend<T>(xs: seq<T>, y: T, ys: seq<T>)
    requires IsSubsequence(xs, ys)
    ensures IsSubsequence(xs, [y] + ys)
    decreases |ys|, 2
  {
    assert ([y] + ys)[1..] == ys;
    if xs != [] && xs[0] == y {
      SubsequenceTail(xs, ys);
    }
  }
}
