/** The Fisher-Yates shuffle of the draw, with its random source made explicit. */
module Shuffling {

  /**
   * One round of random draws: `pick(i)` is the index that the shuffle draws
   * when its loop stands at position `i`.
   */
  type Picks = nat -> nat

  /** Every draw lies in `[0, i]`, the range of `Math.floor(Math.random() * (i + 1))`. */
  ghost predicate PicksInRange(pick: Picks, n: nat) {
    forall i: nat :: 0 < i < n ==> pick(i) <= i
  }

  /** Exchanges the elements at positions `i` and `j`. */
  function Swap<T>(s: seq<T>, i: nat, j: nat): (r: seq<T>)
    requires i < |s| && j < |s|
    ensures |r| == |s|
  {
    s[i := s[j]][j := s[i]]
  }

  /**
   * The list after the shuffle loop has run from position `i` down to 1:
   * position `i` is exchanged with the drawn position `pick(i)`, then the
   * loop continues one position lower.
   */
  function ShuffleDown<T>(s: seq<T>, pick: Picks, i: int): (r: seq<T>)
    requires i < |s| && PicksInRange(pick, |s|)
    ensures |r| == |s|
    decreases i
  {
    if i <= 0 then s else ShuffleDown(Swap(s, i, pick(i)), pick, i - 1)
  }

  /** Each exchange keeps every element, so the shuffle is a rearrangement of its input. */
  lemma {:induction false} ShuffleDownIsPermutation<T>(s: seq<T>, pick: Picks, i: int)
    requires i < |s| && PicksInRange(pick, |s|)
    ensures multiset(ShuffleDown(s, pick, i)) == multiset(s)
    decreases i
  {
    if i > 0 {
      var t := Swap(s, i, pick(i));
      assert multiset(t) == multiset(s);
      ShuffleDownIsPermutation(t, pick, i - 1);
    }
  }

  /** The shuffle of a whole list under the draws `pick`. */
  function Shuffled<T>(s: seq<T>, pick: Picks): (r: seq<T>)
    requires PicksInRange(pick, |s|)
  {
    ShuffleDown(s, pick, |s| - 1)
  }

  /**
   * Shuffles a copy of `list`: the copy is a fresh array, whose elements are
   * exchanged in place from the last position down to position 1.  The
   * result holds the same names as the input, each as often; the input is a
   * value and so cannot be changed.
   */
  method Shuffle<T>(list: seq<T>, pick: Picks) returns (shuffled: seq<T>)
    requires PicksInRange(pick, |list|)
    ensures shuffled == Shuffled(list, pick)
    ensures |shuffled| == |list| && multiset(shuffled) == multiset(list)
  {
    var copy := new T[|list|](k requires 0 <= k < |list| => list[k]);
    assert copy[..] == list;
    var i := copy.Length - 1;
    while i > 0
      invariant -1 <= i < copy.Length == |list|
      invariant ShuffleDown(copy[..], pick, i) == Shuffled(list, pick)
    {
      var j := pick(i);
      ghost var before := copy[..];
      copy[i], copy[j] := copy[j], copy[i];
      assert copy[..] == Swap(before, i, j);
      i := i - 1;
    }
    shuffled := copy[..];
    ShuffleDownIsPermutation(list, pick, |list| - 1);
  }

  /**
   * The shuffle reads only the draws at positions 1 to `|s| - 1`: two rounds
   * that agree there give the same result.
   */
  lemma {:induction false} ShuffleDownReadsOnlyItsDraws<T>(s: seq<T>, p: Picks, q: Picks, i: int)
    requires i < |s| && PicksInRange(p, |s|) && PicksInRange(q, |s|)
    requires forall k: nat :: 0 < k <= i ==> p(k) == q(k)
    ensures ShuffleDown(s, p, i) == ShuffleDown(s, q, i)
    decreases i
  {
    if i > 0 {
      assert Swap(s, i, p(i)) == Swap(s, i, q(i));
      ShuffleDownReadsOnlyItsDraws(Swap(s, i, p(i)), p, q, i - 1);
    }
  }
}
