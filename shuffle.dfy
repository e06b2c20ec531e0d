/**
 * The deck shuffle of the memory game: a Fisher-Yates shuffle run from the top
 * of the array down, swapping each position with one drawn at random from the
 * positions at or below it.
 *
 * The random draws are not modelled as randomness: they are handed in as
 * `picks`, where `picks[c]` is the index drawn in the step whose swap position
 * is `c`. The source draws `floor(random * (c + 1))`, so every valid draw lies
 * in `[0, c]`.
 */
module Shuffle {

  /** The draws the loop can make for an array of length `n`. */
  predicate ValidPicks(picks: seq<nat>, n: nat)
  {
    |picks| == n && forall c :: 0 <= c < n ==> picks[c] <= c
  }

  /** Exchanges the elements at positions `i` and `j`. */
  function Swap<T>(s: seq<T>, i: nat, j: nat): (r: seq<T>)
    requires i < |s| && j < |s|
    ensures |r| == |s| && r[i] == s[j] && r[j] == s[i]
    ensures forall k :: 0 <= k < |s| && k != i && k != j ==> r[k] == s[k]
  {
    s[i := s[j]][j := s[i]]
  }

  /**
   * The sequence as the shuffle loop leaves it once its counter has come down
   * to `c`: one swap has been made for each of the positions `|s| - 1` down to
   * `c`, in that order.
   */
  function ShuffleDownTo<T>(s: seq<T>, picks: seq<nat>, c: nat): (r: seq<T>)
    requires ValidPicks(picks, |s|) && c <= |s|
    ensures |r| == |s|
    decreases |s| - c
  {
    if c == |s| then s else Swap(ShuffleDownTo(s, picks, c + 1), c, picks[c])
  }

  /**
   * A swap only reorders: if `prev` holds the elements of `s`, so does
   * `prev` with two of its elements exchanged. It is stated against the
   * original `s` rather than as `multiset(Swap(prev, i, j)) == multiset(prev)`
   * because that lets the induction step of `ShuffleDownToPermutes` close
   * with one call and keeps its proof cheap for the solver.
   */
  lemma SwapPermutes<T>(s: seq<T>, prev: seq<T>, next: seq<T>, i: nat, j: nat)
    requires i < |prev| && j < |prev| && next == Swap(prev, i, j)
    requires multiset(prev) == multiset(s)
    ensures multiset(next) == multiset(s)
  {
  }

  /** Every stage of the shuffle holds the same elements as the input. */
  lemma {:induction false} ShuffleDownToPermutes<T>(s: seq<T>, picks: seq<nat>, c: nat)
    requires ValidPicks(picks, |s|) && c <= |s|
    ensures multiset(ShuffleDownTo(s, picks, c)) == multiset(s)
    decreases |s| - c
  {
    if c < |s| {
      ShuffleDownToPermutes(s, picks, c + 1);
      SwapPermutes(s, ShuffleDownTo(s, picks, c + 1), ShuffleDownTo(s, picks, c), c, picks[c]);
    }
  }

  /** The result of the whole shuffle: the loop runs until its counter is 0. */
  function Shuffled<T>(s: seq<T>, picks: seq<nat>): (r: seq<T>)
    requires ValidPicks(picks, |s|)
    ensures |r| == |s|
    ensures multiset(r) == multiset(s)
  {
    ShuffleDownToPermutes(s, picks, 0);
    ShuffleDownTo(s, picks, 0)
  }

  /**
   * Once the loop has placed an element at position `k`, later steps never
   * move it: every later swap stays below `k`.
   */
  lemma {:induction false} ShuffleSettles<T>(s: seq<T>, picks: seq<nat>, c: nat, k: nat)
    requires ValidPicks(picks, |s|) && c <= k < |s|
    ensures ShuffleDownTo(s, picks, c)[k] == ShuffleDownTo(s, picks, k)[k]
    decreases k - c
  {
    if c < k {
      ShuffleSettles(s, picks, c + 1, k);
    }
  }

  /**
   * The element that ends up at position `k` is the one at position
   * `picks[k]` when the loop reached `k`: each final position is filled by
   * exactly one draw among the positions not yet settled.
   */
  lemma ShuffledAt<T>(s: seq<T>, picks: seq<nat>, k: nat)
    requires ValidPicks(picks, |s|) && k < |s|
    ensures Shuffled(s, picks)[k] == ShuffleDownTo(s, picks, k + 1)[picks[k]]
  {
    ShuffleSettles(s, picks, 0, k);
  }

  /** The top position is filled straight from the input by the first draw. */
  lemma ShuffledTop<T>(s: seq<T>, picks: seq<nat>)
    requires ValidPicks(picks, |s|) && |s| > 0
    ensures Shuffled(s, picks)[|s| - 1] == s[picks[|s| - 1]]
  {
    ShuffledAt(s, picks, |s| - 1);
  }

  /** A deck of zero or one card comes out of the shuffle unchanged. */
  lemma ShuffleSmallIsIdentity<T>(s: seq<T>, picks: seq<nat>)
    requires ValidPicks(picks, |s|) && |s| <= 1
    ensures Shuffled(s, picks) == s
  {
    if |s| == 1 {
      assert ShuffleDownTo(s, picks, 1) == s;
    }
  }

  /** The destructuring swap of the loop body, in place. */
  method SwapCards<T>(a: array<T>, i: nat, j: nat)
    requires i < a.Length && j < a.Length
    modifies a
    ensures a[..] == Swap(old(a[..]), i, j)
  {
    var card := a[i];
    a[i] := a[j];
    a[j] := card;
  }

  /**
   * `shuffleCards`: the loop of the source, swapping in place. The counter
   * starts at the length and the draw for the step is taken before the
   * counter is decremented, exactly as the source does.
   */
  method ShuffleCards<T>(a: array<T>, picks: seq<nat>)
    requires ValidPicks(picks, a.Length)
    modifies a
    ensures a[..] == Shuffled(old(a[..]), picks)
  {
    ghost var original := a[..];
    var currentIndex := a.Length;
    while currentIndex != 0
      invariant 0 <= currentIndex <= a.Length
      invariant a[..] == ShuffleDownTo(original, picks, currentIndex)
    {
      var randomIndex := picks[currentIndex - 1];
      currentIndex := currentIndex - 1;
      SwapCards(a, currentIndex, randomIndex);
    }
  }
}
