/**
 * The turn and match rules of the memory game, as functions on a value that
 * holds everything the game keeps between two events: the deck, what every
 * card shows, the selection, the lock, the counters and the two delayed
 * callbacks that may be waiting.
 *
 * These functions are the specification that the `GameSession` class in
 * module `Session` is proved against; the lemmas below state what the rules
 * guarantee.
 */
module Turn {
  import opened Shuffle
  import opened Deck

  datatype Option<T> = None | Some(value: T)

  /** The sound cues the game plays. */
  datatype Sound = FlipSound | MatchSound | NotMatchSound

  /**
   * Cards are referred to by their position in the deck. `flipped[i]` is the
   * card showing its face; `disabled[i]` is the card whose click listener has
   * been removed after a match. `pendingMismatch` and `pendingWin` stand for the
   * two timers the game may have scheduled. `highScore` 0 means no best score
   * has been recorded.
   */
  datatype GameState = GameState(
    cards: seq<Card>,
    flipped: seq<bool>,
    disabled: seq<bool>,
    firstCard: Option<nat>,
    secondCard: Option<nat>,
    lockBoard: bool,
    score: nat,
    matchedPairs: nat,
    highScore: nat,
    pendingMismatch: bool,
    pendingWin: bool)

  /** The state after an event, and the sounds the event played, in order. */
  datatype Step = Step(after: GameState, sounds: seq<Sound>)

  /** The per-card flags cover the deck and the selection points into it. */
  predicate WellFormed(g: GameState)
  {
    && |g.flipped| == |g.cards|
    && |g.disabled| == |g.cards|
    && (g.firstCard.Some? ==> g.firstCard.value < |g.cards|)
    && (g.secondCard.Some? ==> g.secondCard.value < |g.cards|)
  }

  /** How many entries of `s` are true. */
  function CountTrue(s: seq<bool>): (n: nat)
    ensures n <= |s|
  {
    if s == [] then 0 else (if s[0] then 1 else 0) + CountTrue(s[1..])
  }

  /** A row of `n` equal flags. */
  function Flags(n: nat, b: bool): (s: seq<bool>)
    ensures |s| == n && forall j :: 0 <= j < n ==> s[j] == b
  {
    seq(n, _ => b)
  }

  /** The state after the page has loaded the catalog `data`. */
  function NewGame(data: seq<Card>, picks: seq<nat>, storedHighScore: nat): GameState
    requires ValidPicks(picks, 2 * |data|)
  {
    var cards := Shuffled(BuildDeck(data), picks);
    GameState(cards, Flags(|cards|, false), Flags(|cards|, false), None, None,
              false, 0, 0, storedHighScore, false, false)
  }

  /** `resetBoard`: forget the selection and unlock the board. */
  function ResetBoard(g: GameState): GameState
  {
    g.(firstCard := None, secondCard := None, lockBoard := false)
  }

  /** `disableCards`: remove both selected cards from play, then reset the board. */
  function DisableCards(g: GameState): GameState
    requires WellFormed(g) && g.firstCard.Some? && g.secondCard.Some?
  {
    ResetBoard(g.(disabled := g.disabled[g.firstCard.value := true][g.secondCard.value := true]))
  }

  /** `unflipCards`: schedule the delayed turning back of both cards. */
  function UnflipCards(g: GameState): GameState
  {
    g.(pendingMismatch := true)
  }

  /** `checkForMatch`: compare the names of the two selected cards. */
  function CheckForMatch(g: GameState): Step
    requires WellFormed(g) && g.firstCard.Some? && g.secondCard.Some?
  {
    if g.cards[g.firstCard.value].name == g.cards[g.secondCard.value].name then
      var d := DisableCards(g);
      var m := d.(matchedPairs := d.matchedPairs + 1);
      if 2 * m.matchedPairs == |m.cards| then Step(m.(pendingWin := true), [MatchSound])
      else Step(ResetBoard(m), [MatchSound])
    else
      Step(UnflipCards(g), [NotMatchSound])
  }

  /**
   * `flipCard`: a click on card `i`. A disabled card no longer listens, and
   * a locked board or a click on the first card itself is ignored.
   */
  function FlipCard(g: GameState, i: nat): Step
    requires WellFormed(g) && i < |g.cards|
  {
    if g.disabled[i] || g.lockBoard || g.firstCard == Some(i) then
      Step(g, [])
    else
      var f := g.(flipped := g.flipped[i := true]);
      if f.firstCard.None? then
        Step(f.(firstCard := Some(i)), [FlipSound])
      else
        var r := CheckForMatch(f.(secondCard := Some(i), score := f.score + 1, lockBoard := true));
        Step(r.after, [FlipSound] + r.sounds)
  }

  /** The body of the mismatch timer: turn both cards back and reset the board. */
  function SettleMismatch(g: GameState): GameState
    requires WellFormed(g) && g.pendingMismatch && g.firstCard.Some? && g.secondCard.Some?
  {
    ResetBoard(g.(flipped := g.flipped[g.firstCard.value := false][g.secondCard.value := false],
                  pendingMismatch := false))
  }

  /**
   * The best score after a game won in `score` moves: the lower of the two,
   * where a best score of 0 means none has been recorded yet.
   */
  function UpdatedHighScore(score: nat, highScore: nat): (r: nat)
    ensures r == score || r == highScore
    ensures highScore == 0 ==> r == score
    ensures highScore != 0 ==> r <= score && r <= highScore
  {
    if score < highScore || highScore == 0 then score else highScore
  }

  /** The body of the win timer: record the best score and show every card. */
  function SettleWin(g: GameState): GameState
    requires WellFormed(g) && g.pendingWin
  {
    g.(highScore := UpdatedHighScore(g.score, g.highScore),
       flipped := Flags(|g.cards|, true),
       pendingWin := false)
  }

  /**
   * `restart`: reset the board, reshuffle the same cards, zero the counters
   * and deal every card face down and clickable again.
   */
  function Restart(g: GameState, picks: seq<nat>): GameState
    requires WellFormed(g) && ValidPicks(picks, |g.cards|)
    requires !g.pendingMismatch && !g.pendingWin
  {
    var b := ResetBoard(g);
    b.(cards := Shuffled(b.cards, picks), score := 0, matchedPairs := 0,
       flipped := Flags(|b.cards|, false), disabled := Flags(|b.cards|, false))
  }

  /**
   * What holds between any two events of a game:
   * the disabled cards number twice the matched pairs and stay face up; the only
   * face-up cards still in play are the selected ones; a second card is
   * selected exactly while a mismatch waits to be turned back, and the board
   * is locked exactly then; a win waits only once every pair is matched.
   */
  predicate Inv(g: GameState)
  {
    && WellFormed(g)
    && CountTrue(g.disabled) == 2 * g.matchedPairs
    && g.matchedPairs <= g.score
    && (forall j :: 0 <= j < |g.cards| && g.disabled[j] ==> g.flipped[j])
    && (forall j :: 0 <= j < |g.cards| && g.flipped[j] && !g.disabled[j] ==>
          g.firstCard == Some(j) || g.secondCard == Some(j))
    && (g.firstCard.Some? ==> g.flipped[g.firstCard.value] && !g.disabled[g.firstCard.value])
    && (g.secondCard.Some? ==>
          && g.firstCard.Some? && g.firstCard != g.secondCard
          && g.flipped[g.secondCard.value] && !g.disabled[g.secondCard.value])
    && (g.pendingMismatch <==> g.secondCard.Some?)
    && (g.lockBoard <==> g.pendingMismatch)
    && (g.pendingMismatch && g.firstCard.Some? && g.secondCard.Some? ==>
          g.cards[g.firstCard.value].name != g.cards[g.secondCard.value].name)
    && (g.pendingWin ==> !g.pendingMismatch && 0 < g.matchedPairs && 2 * g.matchedPairs == |g.cards|)
  }

  /* ---------------------------------------------------------------------- */
  /* Counting the disabled cards                                             */
  /* ---------------------------------------------------------------------- */

  lemma {:induction false} CountTrueSet(s: seq<bool>, i: nat)
    requires i < |s| && !s[i]
    ensures CountTrue(s[i := true]) == CountTrue(s) + 1
  {
    if i == 0 {
      assert s[i := true][1..] == s[1..];
    } else {
      assert s[i := true][1..] == s[1..][i - 1 := true];
      CountTrueSet(s[1..], i - 1);
    }
  }

  lemma {:induction false} CountTrueNone(n: nat)
    ensures CountTrue(Flags(n, false)) == 0
  {
    if n > 0 {
      assert Flags(n, false)[1..] == Flags(n - 1, false);
      CountTrueNone(n - 1);
    }
  }

  /** All entries are true exactly when all of them are counted. */
  lemma {:induction false} CountTrueAll(s: seq<bool>)
    ensures CountTrue(s) == |s| <==> forall j :: 0 <= j < |s| ==> s[j]
  {
    if s != [] {
      CountTrueAll(s[1..]);
      if CountTrue(s) == |s| {
        forall j | 0 <= j < |s| ensures s[j] {
          if j > 0 { assert s[j] == s[1..][j - 1]; }
        }
      }
      if forall j :: 0 <= j < |s| ==> s[j] {
        assert forall j :: 0 <= j < |s| - 1 ==> s[1..][j] == s[j + 1];
      }
    }
  }

  /** How a click that selects a second card unfolds. */
  lemma FlipCardSecondUnfolds(g: GameState, i: nat)
    requires WellFormed(g) && i < |g.cards|
    requires !(g.disabled[i] || g.lockBoard || g.firstCard == Some(i)) && g.firstCard.Some?
    ensures var selected := g.(flipped := g.flipped[i := true], secondCard := Some(i),
                               score := g.score + 1, lockBoard := true);
      FlipCard(g, i) == Step(CheckForMatch(selected).after, [FlipSound] + CheckForMatch(selected).sounds)
  {
  }

  /* ---------------------------------------------------------------------- */
  /* The invariant holds from the start and after every event                */
  /* ---------------------------------------------------------------------- */

  lemma NewGameInv(data: seq<Card>, picks: seq<nat>, storedHighScore: nat)
    requires ValidPicks(picks, 2 * |data|)
    ensures Inv(NewGame(data, picks, storedHighScore))
  {
    CountTrueNone(2 * |data|);
  }

  lemma MatchKeepsInv(g: GameState, i: nat)
    requires Inv(g) && i < |g.cards|
    requires !(g.disabled[i] || g.lockBoard || g.firstCard == Some(i)) && g.firstCard.Some?
    requires g.cards[g.firstCard.value].name == g.cards[i].name
    ensures FlipCard(g, i).after.disabled == g.disabled[g.firstCard.value := true][i := true]
    ensures CountTrue(FlipCard(g, i).after.disabled) == CountTrue(g.disabled) + 2
    ensures Inv(FlipCard(g, i).after)
  {
    var f := g.firstCard.value;
    var r := FlipCard(g, i).after;
    assert r.cards == g.cards && r.score == g.score + 1 && r.matchedPairs == g.matchedPairs + 1;
    assert r.disabled == g.disabled[f := true][i := true] && r.flipped == g.flipped[i := true];
    assert r.firstCard.None? && r.secondCard.None? && !r.lockBoard && !r.pendingMismatch;
    CountTrueSet(g.disabled, f);
    CountTrueSet(g.disabled[f := true], i);
  }

  lemma FlipCardKeepsInv(g: GameState, i: nat)
    requires Inv(g) && i < |g.cards|
    ensures Inv(FlipCard(g, i).after)
  {
    CountTrueAll(g.disabled);
    if !(g.disabled[i] || g.lockBoard || g.firstCard == Some(i)) && g.firstCard.Some?
      && g.cards[g.firstCard.value].name == g.cards[i].name
    {
      MatchKeepsInv(g, i);
    }
  }

  lemma SettleMismatchKeepsInv(g: GameState)
    requires Inv(g) && g.pendingMismatch
    ensures Inv(SettleMismatch(g))
  {
  }

  lemma SettleWinKeepsInv(g: GameState)
    requires Inv(g) && g.pendingWin
    ensures Inv(SettleWin(g))
  {
    CountTrueAll(g.disabled);
  }

  lemma RestartKeepsInv(g: GameState, picks: seq<nat>)
    requires Inv(g) && ValidPicks(picks, |g.cards|) && !g.pendingMismatch && !g.pendingWin
    ensures Inv(Restart(g, picks))
  {
    CountTrueNone(|g.cards|);
  }

  /* ---------------------------------------------------------------------- */
  /* What one click does                                                     */
  /* ---------------------------------------------------------------------- */

  /** Never more pairs are matched than the deck holds. */
  lemma MatchedPairsBounded(g: GameState)
    requires Inv(g)
    ensures 2 * g.matchedPairs <= |g.cards|
  {
  }

  /**
   * A click changes nothing and plays nothing exactly when the board is
   * locked, the card is out of play or it is the first card itself.
   */
  lemma IgnoredClick(g: GameState, i: nat)
    requires Inv(g) && i < |g.cards|
    ensures FlipCard(g, i).sounds == [] <==> g.lockBoard || g.disabled[i] || g.firstCard == Some(i)
    ensures FlipCard(g, i).sounds == [] ==> FlipCard(g, i).after == g
  {
  }

  /** The first selection turns the card over and only records it. */
  lemma FirstSelection(g: GameState, i: nat)
    requires Inv(g) && i < |g.cards|
    requires !(g.lockBoard || g.disabled[i]) && g.firstCard.None?
    ensures FlipCard(g, i) == Step(g.(flipped := g.flipped[i := true], firstCard := Some(i)), [FlipSound])
    ensures FlipCard(g, i).after.score == g.score && !FlipCard(g, i).after.lockBoard
  {
  }

  /**
   * The second selection costs exactly one move. On equal names both cards
   * leave play face up, one more pair is matched and the board is free again;
   * otherwise both stay face up on a locked board until the mismatch timer.
   */
  lemma SecondSelection(g: GameState, i: nat)
    requires Inv(g) && i < |g.cards|
    requires !(g.lockBoard || g.disabled[i]) && g.firstCard.Some? && g.firstCard != Some(i)
    ensures var r := FlipCard(g, i).after;
      var f := g.firstCard.value;
      && r.score == g.score + 1
      && r.cards == g.cards && r.highScore == g.highScore
      && r.flipped[f] && r.flipped[i]
      && (g.cards[f].name == g.cards[i].name ==>
            && r.disabled == g.disabled[f := true][i := true]
            && r.flipped == g.flipped[i := true]
            && r.matchedPairs == g.matchedPairs + 1
            && r.firstCard.None? && r.secondCard.None? && !r.lockBoard
            && !r.pendingMismatch
            && FlipCard(g, i).sounds == [FlipSound, MatchSound])
      && (g.cards[f].name != g.cards[i].name ==>
            && r.disabled == g.disabled
            && r.matchedPairs == g.matchedPairs
            && r.firstCard == g.firstCard && r.secondCard == Some(i) && r.lockBoard
            && r.pendingMismatch && !r.pendingWin
            && FlipCard(g, i).sounds == [FlipSound, NotMatchSound])
  {
    CountTrueAll(g.disabled);
  }

  /**
   * A click starts the win timer exactly when it completes a match that
   * brings the matched pairs to half the deck.
   */
  lemma WinExactlyWhenAllPairsMatched(g: GameState, i: nat)
    requires Inv(g) && i < |g.cards|
    ensures var r := FlipCard(g, i).after;
      (!g.pendingWin && r.pendingWin) <==>
        (r.matchedPairs == g.matchedPairs + 1 && 2 * r.matchedPairs == |r.cards|)
  {
    if g.pendingWin {
      CountTrueAll(g.disabled);
    }
  }

  /** Once matched, a card never returns to play and never turns back. */
  lemma MatchedCardStaysOnClick(g: GameState, i: nat, j: nat)
    requires Inv(g) && i < |g.cards| && j < |g.cards| && g.disabled[j]
    ensures FlipCard(g, i).after.disabled[j] && FlipCard(g, i).after.flipped[j]
  {
  }

  /** Nor does the mismatch timer touch a matched card. */
  lemma MatchedCardStaysOnSettle(g: GameState, j: nat)
    requires Inv(g) && g.pendingMismatch && j < |g.cards| && g.disabled[j]
    ensures SettleMismatch(g).disabled[j] && SettleMismatch(g).flipped[j]
  {
  }

  /* ---------------------------------------------------------------------- */
  /* The timers and the restart                                              */
  /* ---------------------------------------------------------------------- */

  /**
   * The mismatch timer turns back exactly the two selected cards, frees the
   * board and leaves the counters alone.
   */
  lemma SettleMismatchRestores(g: GameState)
    requires Inv(g) && g.pendingMismatch
    ensures var r := SettleMismatch(g);
      var f := g.firstCard.value;
      var s := g.secondCard.value;
      && !r.flipped[f] && !r.flipped[s]
      && (forall j :: 0 <= j < |g.cards| && j != f && j != s ==> r.flipped[j] == g.flipped[j])
      && r.firstCard.None? && r.secondCard.None? && !r.lockBoard && !r.pendingMismatch
      && r.score == g.score && r.matchedPairs == g.matchedPairs && r.disabled == g.disabled
      && r.highScore == g.highScore && r.cards == g.cards
      && (forall j :: 0 <= j < |r.cards| ==> !(r.flipped[j] && !r.disabled[j]))
  {
  }

  /**
   * When every pair is matched, every card is already out of play and face
   * up, so showing all cards at the win changes nothing on the board, and no
   * later click has any effect.
   */
  lemma WonBoardIsSettled(g: GameState, i: nat)
    requires Inv(g) && 2 * g.matchedPairs == |g.cards| && i < |g.cards|
    ensures forall j :: 0 <= j < |g.cards| ==> g.disabled[j] && g.flipped[j]
    ensures g.pendingWin ==> SettleWin(g).flipped == g.flipped
    ensures FlipCard(g, i) == Step(g, [])
  {
    CountTrueAll(g.disabled);
  }

  /**
   * The win timer records the lower of the game's score and the best score,
   * and since a won game took at least one move the unset marker 0 is never
   * recorded.
   */
  lemma SettleWinRecordsBest(g: GameState)
    requires Inv(g) && g.pendingWin
    ensures var r := SettleWin(g);
      && r.highScore >= 1
      && (r.highScore == g.score <==> g.score < g.highScore || g.highScore == 0 || g.score == g.highScore)
      && (g.highScore != 0 ==> r.highScore <= g.highScore)
      && r.score == g.score && r.matchedPairs == g.matchedPairs
  {
  }

  /**
   * A restart keeps the high score and the same cards in a new order, zeroes
   * both counters and frees the board.
   */
  lemma RestartResets(g: GameState, picks: seq<nat>)
    requires WellFormed(g) && ValidPicks(picks, |g.cards|) && !g.pendingMismatch && !g.pendingWin
    ensures var r := Restart(g, picks);
      && r.score == 0 && r.matchedPairs == 0 && r.highScore == g.highScore
      && r.firstCard.None? && r.secondCard.None? && !r.lockBoard
      && |r.cards| == |g.cards| && multiset(r.cards) == multiset(g.cards)
      && (forall j :: 0 <= j < |r.cards| ==> !r.flipped[j] && !r.disabled[j])
  {
  }

  /**
   * A game on the deck A, B, B, A: matching both A cards and then both B
   * cards wins in two moves and records 2 as the first best score.
   */
  lemma TwoPairGame()
    ensures var a := Card("A", "a.png");
      var b := Card("B", "b.png");
      var g0 := GameState([a, b, b, a], Flags(4, false), Flags(4, false), None, None,
                          false, 0, 0, 0, false, false);
      var g1 := FlipCard(g0, 0).after;
      var g2 := FlipCard(g1, 3).after;
      var g3 := FlipCard(g2, 1).after;
      var g4 := FlipCard(g3, 2).after;
      && g2.matchedPairs == 1 && g2.score == 1 && !g2.pendingWin
      && g4.matchedPairs == 2 && g4.score == 2 && g4.pendingWin
      && SettleWin(g4).highScore == 2
  {
  }

  /**
   * A mismatch on the same deck: after the timer both cards are face down,
   * one move is counted and no pair is matched.
   */
  lemma MismatchScenario()
    ensures var a := Card("A", "a.png");
      var b := Card("B", "b.png");
      var g0 := GameState([a, b, b, a], Flags(4, false), Flags(4, false), None, None,
                          false, 0, 0, 0, false, false);
      var g2 := FlipCard(FlipCard(g0, 0).after, 1).after;
      && g2.pendingMismatch && g2.lockBoard
      && var g3 := SettleMismatch(g2);
      && g3.flipped == Flags(4, false) && g3.score == 1 && g3.matchedPairs == 0
      && !g3.lockBoard && g3.firstCard.None?
  {
  }
}
