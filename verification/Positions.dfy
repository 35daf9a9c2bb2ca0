/** Strictly increasing positions, as they pick a part of a sequence in its order. */
module Positions {

  ghost predicate Increasing(at: seq<nat>) {
    forall i, j | 0 <= i < j < |at| :: at[i] < at[j]
  }

  /** `part` holds the elements of `whole` at these positions, in that order. */
  ghost predicate Picks<T>(part: seq<T>, whole: seq<T>, at: seq<nat>) {
    |at| == |part| && forall i | 0 <= i < |at| :: at[i] < |whole| && part[i] == whole[at[i]]
  }

  lemma PickLast<T>(part: seq<T>, whole: seq<T>, at: seq<nat>)
    requires whole != [] && Picks(part, whole[..|whole| - 1], at)
    ensures Picks(part, whole, at) && Picks(part + [whole[|whole| - 1]], whole, at + [|whole| - 1])
  {
  }

  /** A later position comes last. */
  lemma OneMore(front: seq<nat>, n: nat)
    requires Increasing(front) && forall k | k in front :: k < n
    ensures Increasing(front + [n])
    ensures forall k: nat :: k in front + [n] <==> k in front || k == n
  {
    assert forall i | 0 <= i < |front| :: front[i] in front;
  }
}
