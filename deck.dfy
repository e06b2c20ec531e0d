/**
 * Building the deck of the memory game: every entry of the card catalog is
 * placed twice, so that it can be matched.
 */
module Deck {
  import opened Shuffle

  /** A catalog entry. Two cards match when their names are equal. */
  datatype Card = Card(name: string, image: string)

  /** The deck built from the catalog: the catalog followed by itself. */
  function BuildDeck(data: seq<Card>): (deck: seq<Card>)
    ensures |deck| == 2 * |data|
    ensures forall i :: 0 <= i < |data| ==> deck[i] == data[i] && deck[i + |data|] == data[i]
  {
    data + data
  }

  /** How many cards of `s` carry the name `name`. */
  function NameCount(s: seq<Card>, name: string): nat
  {
    if s == [] then 0 else (if s[0].name == name then 1 else 0) + NameCount(s[1..], name)
  }

  /** No two catalog entries share a name. */
  predicate DistinctNames(data: seq<Card>)
  {
    forall i, j :: 0 <= i < j < |data| ==> data[i].name != data[j].name
  }

  lemma {:induction false} NameCountAppend(s: seq<Card>, t: seq<Card>, name: string)
    ensures NameCount(s + t, name) == NameCount(s, name) + NameCount(t, name)
  {
    if s == [] {
      assert s + t == t;
    } else {
      assert (s + t)[1..] == s[1..] + t;
      NameCountAppend(s[1..], t, name);
    }
  }

  lemma {:induction false} NameCountAbsent(s: seq<Card>, name: string)
    requires forall i :: 0 <= i < |s| ==> s[i].name != name
    ensures NameCount(s, name) == 0
  {
    if s != [] {
      NameCountAbsent(s[1..], name);
    }
  }

  /** With distinct names in the catalog, each name occurs there once. */
  lemma {:induction false} NameCountDistinct(data: seq<Card>, k: nat)
    requires DistinctNames(data) && k < |data|
    ensures NameCount(data, data[k].name) == 1
  {
    if k == 0 {
      NameCountAbsent(data[1..], data[0].name);
    } else {
      NameCountDistinct(data[1..], k - 1);
    }
  }

  /*
   * The name counts below follow the shuffle one swap at a time. The card
   * multiset that `Shuffled` preserves determines them too, but deriving a
   * count per name from multiset equality is a proof the solver finds
   * unstable, while the swap-by-swap proof is small and steady.
   */

  /** Replacing the card at `i` by `x` moves one occurrence between names. */
  lemma {:induction false} NameCountUpdate(s: seq<Card>, i: nat, x: Card, name: string)
    requires i < |s|
    ensures NameCount(s[i := x], name) + (if s[i].name == name then 1 else 0)
         == NameCount(s, name) + (if x.name == name then 1 else 0)
  {
    if i == 0 {
      assert s[i := x][1..] == s[1..];
    } else {
      assert s[i := x][1..] == s[1..][i - 1 := x];
      NameCountUpdate(s[1..], i - 1, x, name);
    }
  }

  /** A swap of two cards does not change how often a name occurs. */
  lemma NameCountSwap(s: seq<Card>, i: nat, j: nat, name: string)
    requires i < |s| && j < |s|
    ensures NameCount(Swap(s, i, j), name) == NameCount(s, name)
  {
    NameCountUpdate(s, i, s[j], name);
    NameCountUpdate(s[i := s[j]], j, s[i], name);
  }

  /** Neither does any stage of the shuffle. */
  lemma {:induction false} NameCountShuffle(s: seq<Card>, picks: seq<nat>, c: nat, name: string)
    requires ValidPicks(picks, |s|) && c <= |s|
    ensures NameCount(ShuffleDownTo(s, picks, c), name) == NameCount(s, name)
    decreases |s| - c
  {
    if c < |s| {
      NameCountShuffle(s, picks, c + 1, name);
      NameCountSwap(ShuffleDownTo(s, picks, c + 1), c, picks[c], name);
    }
  }

  /** Every name occurs in the deck twice as often as in the catalog. */
  lemma BuildDeckDoublesNames(data: seq<Card>, name: string)
    ensures NameCount(BuildDeck(data), name) == 2 * NameCount(data, name)
  {
    NameCountAppend(data, data, name);
  }

  /**
   * A shuffled deck built from a catalog with distinct names holds every one
   * of its names exactly twice: each card has exactly one partner.
   */
  lemma ShuffledDeckHasPairs(data: seq<Card>, picks: seq<nat>)
    requires DistinctNames(data) && ValidPicks(picks, 2 * |data|)
    ensures forall i :: 0 <= i < 2 * |data| ==> NameCount(Shuffled(BuildDeck(data), picks), Shuffled(BuildDeck(data), picks)[i].name) == 2
  {
    var deck := BuildDeck(data);
    var shuffled := Shuffled(deck, picks);
    forall i | 0 <= i < 2 * |data|
      ensures NameCount(shuffled, shuffled[i].name) == 2
    {
      var c := shuffled[i];
      assert c in multiset(deck);
      var k :| 0 <= k < |deck| && deck[k] == c;
      var k' := if k < |data| then k else k - |data|;
      assert data[k'] == c;
      NameCountDistinct(data, k');
      BuildDeckDoublesNames(data, c.name);
      NameCountShuffle(deck, picks, 0, c.name);
    }
  }
}
