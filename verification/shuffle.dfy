/** The Fisher-Yates `shuffle` that components/DragDropCard.tsx and
    components/ReorderCard.tsx both define, with the random draw
    `Math.floor(Math.random() * (i + 1))` of step `i` supplied as `picks[i]`. */
module Shuffling {

  /** Whether `picks[i]` is a draw `Math.floor(Math.random() * (i + 1))` could
      produce at every step `i` of the loop. */
  predicate ValidPicks(picks: seq<nat>, n: nat)
  {
    |picks| == n && forall i :: 0 < i < n ==> picks[i] <= i
  }

  /** Walks `i` down from the last position to 1, swapping positions `i` and
      `picks[i]`. Whatever the draws, the output is a rearrangement of the input. */
  method Shuffle<T>(arr: seq<T>, picks: seq<nat>) returns (out: seq<T>)
    requires ValidPicks(picks, |arr|)
    ensures |out| == |arr|
    ensures multiset(out) == multiset(arr)
  {
    out := arr;
    var i := |out| - 1;
    while i > 0
      invariant -1 <= i < |arr|
      invariant |out| == |arr|
      invariant multiset(out) == multiset(arr)
    {
      var j := picks[i];
      var tmp := out[i];
      out := out[i := out[j]][j := tmp];
      i := i - 1;
    }
  }
}
