/** `shuffled()`: the Fisher-Yates pass of the Swift standard library.
    Position i is swapped with position i + (random value mod the number of
    positions still unshuffled). The random values are the parameter
    `picks`; when it runs out, 0 is used, so any `picks` gives a result. */
module Shuffle {
  import opened Sequences

  function Swap<T>(s: seq<T>, i: nat, j: nat): (r: seq<T>)
    requires i < |s| && j < |s|
    ensures |r| == |s|
    ensures r[i] == s[j] && r[j] == s[i]
    ensures forall k :: 0 <= k < |s| && k != i && k != j ==> r[k] == s[k]
  {
    s[i := s[j]][j := s[i]]
  }

  /** A swap only reorders. */
  lemma SwapMultiset<T>(s: seq<T>, i: nat, j: nat)
    requires i < |s| && j < |s|
    ensures multiset(Swap(s, i, j)) == multiset(s)
  {
    var t := s[i := s[j]];
    assert multiset(t) == multiset(s) - multiset{s[i]} + multiset{s[j]};
    assert multiset(t[j := s[i]]) == multiset(t) - multiset{t[j]} + multiset{s[i]};
  }

  /** The random offset used at step i, in 0 .. amount - 1. */
  function Offset(picks: seq<nat>, i: nat, amount: nat): (r: nat)
    requires amount > 0
    ensures r < amount
  {
    if i < |picks| then picks[i] % amount else 0
  }

  /** The pass from position i on; it only reorders. */
  function ShuffleFrom<T>(s: seq<T>, i: nat, picks: seq<nat>): (r: seq<T>)
    ensures |r| == |s|
    decreases |s| - i
  {
    if i + 1 >= |s| then s
    else ShuffleFrom(Swap(s, i, i + Offset(picks, i, |s| - i)), i + 1, picks)
  }

  lemma {:induction false} ShuffleFromMultiset<T>(s: seq<T>, i: nat, picks: seq<nat>)
    ensures multiset(ShuffleFrom(s, i, picks)) == multiset(s)
    decreases |s| - i
  {
    if i + 1 < |s| {
      var t := Swap(s, i, i + Offset(picks, i, |s| - i));
      assert ShuffleFrom(s, i, picks) == ShuffleFrom(t, i + 1, picks);
      SwapMultiset(s, i, i + Offset(picks, i, |s| - i));
      ShuffleFromMultiset(t, i + 1, picks);
    }
  }

  /** `shuffled()`: a permutation of `s` chosen by `picks`. */
  function Shuffled<T>(s: seq<T>, picks: seq<nat>): (r: seq<T>)
    ensures |r| == |s|
    ensures multiset(r) == multiset(s)
  {
    ShuffleFromMultiset(s, 0, picks);
    ShuffleFrom(s, 0, picks)
  }

  /** Reordering positions keeps them in bounds. */
  lemma {:induction false} ShuffleFromBounded(idx: seq<nat>, n: nat, i: nat, picks: seq<nat>)
    requires forall k :: 0 <= k < |idx| ==> idx[k] < n
    ensures forall k :: 0 <= k < |idx| ==> ShuffleFrom<nat>(idx, i, picks)[k] < n
    decreases |idx| - i
  {
    if i + 1 < |idx| {
      var t := Swap(idx, i, i + Offset(picks, i, |idx| - i));
      ShuffleFromBounded(t, n, i + 1, picks);
    }
  }

  /** Shuffling commutes with reading at positions: shuffling `s` read at
      `idx` is `s` read at the shuffled `idx`. */
  lemma {:induction false} ShuffleFromSelect<T>(s: seq<T>, idx: seq<nat>, i: nat, picks: seq<nat>)
    requires forall k :: 0 <= k < |idx| ==> idx[k] < |s|
    ensures forall k :: 0 <= k < |idx| ==> ShuffleFrom<nat>(idx, i, picks)[k] < |s|
    ensures forall k :: 0 <= k < |idx| ==>
              ShuffleFrom(Select(s, idx), i, picks)[k] == s[ShuffleFrom<nat>(idx, i, picks)[k]]
    decreases |idx| - i
  {
    ShuffleFromBounded(idx, |s|, i, picks);
    var sel := Select(s, idx);
    if i + 1 < |idx| {
      var j := i + Offset(picks, i, |idx| - i);
      var idx' := Swap(idx, i, j);
      assert Swap(sel, i, j) == Select(s, idx');
      ShuffleFromSelect(s, idx', i + 1, picks);
    }
  }

  /** Shuffling keeps a sequence free of repeats. */
  lemma {:induction false} ShuffleFromDistinct<T>(s: seq<T>, i: nat, picks: seq<nat>)
    requires Distinct(s)
    ensures Distinct(ShuffleFrom(s, i, picks))
    decreases |s| - i
  {
    if i + 1 < |s| {
      var t := Swap(s, i, i + Offset(picks, i, |s| - i));
      assert Distinct(t);
      ShuffleFromDistinct(t, i + 1, picks);
    }
  }

  /** Every element of the shuffle comes from its own source position, and
      no source position is used twice. */
  lemma ShuffledPositions<T>(s: seq<T>, picks: seq<nat>)
    ensures |Shuffled<nat>(Range(|s|), picks)| == |s|
    ensures Distinct(Shuffled<nat>(Range(|s|), picks))
    ensures forall k :: 0 <= k < |s| ==> Shuffled<nat>(Range(|s|), picks)[k] < |s|
    ensures forall k :: 0 <= k < |s| ==> Shuffled(s, picks)[k] == s[Shuffled<nat>(Range(|s|), picks)[k]]
  {
    var idx := Range(|s|);
    assert Select(s, idx) == s;
    ShuffleFromBounded(idx, |s|, 0, picks);
    ShuffleFromSelect(s, idx, 0, picks);
    ShuffleFromDistinct(idx, 0, picks);
  }
}
