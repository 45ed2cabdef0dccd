/** Subsequences and positions. */
module Sequences {

  /** Positions below n, each once and in order. */
  predicate InOrder(at: seq<nat>, n: nat) {
    (forall i, j | 0 <= i < j < |at| :: at[i] < at[j]) && (forall i | 0 <= i < |at| :: at[i] < n)
  }

  /** `part` is `whole` with some elements left out. */
  predicate IsSubsequence<T(==)>(part: seq<T>, whole: seq<T>) {
    if part == [] then true
    else if whole == [] then false
    else
      || (part[|part| - 1] == whole[|whole| - 1] && IsSubsequence(part[..|part| - 1], whole[..|whole| - 1]))
      || IsSubsequence(part, whole[..|whole| - 1])
  }

  lemma EmptySubsequence<T>(whole: seq<T>)
    ensures IsSubsequence([], whole)
  {
  }

  lemma SubsequenceGoesOn<T>(part: seq<T>, whole: seq<T>, i: nat)
    requires i < |whole| && IsSubsequence(part, whole[..i])
    ensures IsSubsequence(part, whole[..i + 1]) && IsSubsequence(part + [whole[i]], whole[..i + 1])
  {
    assert whole[..i + 1][..i] == whole[..i];
    assert (part + [whole[i]])[..|part|] == part;
  }
}
