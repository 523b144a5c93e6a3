/** Row permutations as index arrays: entry i names the original row now at position i. */
module Permutations {

  /** Two different positions of p hold different entries. Distinctness is stated
      through this predicate so that it is used only at the pairs a proof names,
      rather than at every pair of entries in sight. */
  predicate DistinctAt(p: seq<int>, i: int, j: int)
  {
    0 <= i < |p| && 0 <= j < |p| && i != j ==> p[i] != p[j]
  }

  /** p is a bijection on [0, k). */
  predicate IsPermutation(p: seq<int>, k: nat)
  {
    && |p| == k
    && (forall i :: 0 <= i < k ==> 0 <= p[i] < k)
    && (forall i, j {:trigger DistinctAt(p, i, j)} :: 0 <= i < k && 0 <= j < k ==> DistinctAt(p, i, j))
  }

  /** The permutation that leaves every row where it is. */
  function Identity(k: nat): (p: seq<int>)
    ensures IsPermutation(p, k)
    ensures forall i :: 0 <= i < k ==> p[i] == i
  {
    seq(k, i requires 0 <= i < k => i)
  }
}
