/**
 * The game's module-level state as one object. The deck is an array that the
 * shuffle permutes in place; the other fields are the variables the click
 * handler and the two timers update. Every method is proved to do exactly
 * what the matching function of module `Turn` says. The constructor
 * establishes `Turn.Inv`, and the event methods `FlipCard`, `SettleMismatch`,
 * `SettleWin` and `Restart` keep it; the steps they are built from
 * (`ResetBoard`, `DisableCards`, `UnflipCards`, `CheckForMatch`) run on the
 * states in between, where it need not hold.
 */
module Session {
  import opened Shuffle
  import opened Deck
  import opened Turn

  class GameSession {
    const deck: array<Card>
    var flipped: seq<bool>
    var disabled: seq<bool>
    var firstCard: Option<nat>
    var secondCard: Option<nat>
    var lockBoard: bool
    var score: nat
    var matchedPairs: nat
    var highScore: nat
    var pendingMismatch: bool
    var pendingWin: bool

    /** The game as a value. */
    function State(): GameState
      reads this, deck
    {
      GameState(deck[..], flipped, disabled, firstCard, secondCard, lockBoard,
                score, matchedPairs, highScore, pendingMismatch, pendingWin)
    }

    predicate Valid()
      reads this, deck
    {
      Inv(State())
    }

    /**
     * Page load: the catalog `data` is doubled into the deck and shuffled,
     * the counters start at 0 and the stored best score is taken over.
     */
    constructor (data: seq<Card>, picks: seq<nat>, storedHighScore: nat)
      requires ValidPicks(picks, 2 * |data|)
      ensures Valid() && fresh(deck)
      ensures State() == NewGame(data, picks, storedHighScore)
    {
      var cards := BuildDeck(data);
      deck := new Card[|cards|](j requires 0 <= j < |cards| => cards[j]);
      flipped, disabled := Flags(|cards|, false), Flags(|cards|, false);
      firstCard, secondCard := None, None;
      lockBoard := false;
      score, matchedPairs, highScore := 0, 0, storedHighScore;
      pendingMismatch, pendingWin := false, false;
      new;
      assert deck[..] == cards;
      ShuffleCards(deck, picks);
      NewGameInv(data, picks, storedHighScore);
    }

    /** `resetBoard`. */
    method ResetBoard()
      modifies this
      ensures State() == Turn.ResetBoard(old(State()))
    {
      firstCard := None;
      secondCard := None;
      lockBoard := false;
    }

    /** `disableCards`: both selected cards stop listening for clicks. */
    method DisableCards()
      requires WellFormed(State()) && firstCard.Some? && secondCard.Some?
      modifies this
      ensures State() == Turn.DisableCards(old(State()))
    {
      disabled := disabled[firstCard.value := true][secondCard.value := true];
      ResetBoard();
    }

    /** `unflipCards`: the turning back is left to `SettleMismatch`. */
    method UnflipCards()
      modifies this
      ensures State() == Turn.UnflipCards(old(State()))
    {
      pendingMismatch := true;
    }

    /**
     * `checkForMatch`. The source tests `matchedPairs === cards.length / 2`
     * with real division, which is `2 * matchedPairs == deck.Length`.
     */
    method CheckForMatch() returns (sounds: seq<Sound>)
      requires WellFormed(State()) && firstCard.Some? && secondCard.Some?
      modifies this
      ensures Step(State(), sounds) == Turn.CheckForMatch(old(State()))
    {
      var isMatch := deck[firstCard.value].name == deck[secondCard.value].name;
      if isMatch {
        sounds := [MatchSound];
        DisableCards();
        matchedPairs := matchedPairs + 1;
        if 2 * matchedPairs == deck.Length {
          pendingWin := true;
        } else {
          ResetBoard();
        }
      } else {
        sounds := [NotMatchSound];
        UnflipCards();
      }
    }

    /** `flipCard`: the click handler of card `i`. */
    method FlipCard(i: nat) returns (sounds: seq<Sound>)
      requires Valid() && i < deck.Length
      modifies this
      ensures Valid()
      ensures Step(State(), sounds) == Turn.FlipCard(old(State()), i)
    {
      ghost var before := State();
      FlipCardKeepsInv(before, i);
      if disabled[i] {
        return [];
      }
      if lockBoard {
        return [];
      }
      if firstCard == Some(i) {
        return [];
      }
      flipped := flipped[i := true];
      sounds := [FlipSound];
      if firstCard.None? {
        firstCard := Some(i);
        return;
      }
      secondCard, score, lockBoard := Some(i), score + 1, true;
      assert State() == before.(flipped := before.flipped[i := true], secondCard := Some(i),
                                score := before.score + 1, lockBoard := true);
      FlipCardSecondUnfolds(before, i);
      var more := CheckForMatch();
      sounds := sounds + more;
    }

    /** The mismatch timer's callback. */
    method SettleMismatch()
      requires Valid() && pendingMismatch
      modifies this
      ensures Valid()
      ensures State() == Turn.SettleMismatch(old(State()))
    {
      SettleMismatchKeepsInv(State());
      flipped := flipped[firstCard.value := false][secondCard.value := false];
      pendingMismatch := false;
      ResetBoard();
    }

    /** The win timer's callback, with `flipAllCards`. */
    method SettleWin()
      requires Valid() && pendingWin
      modifies this
      ensures Valid()
      ensures State() == Turn.SettleWin(old(State()))
    {
      SettleWinKeepsInv(State());
      if score < highScore || highScore == 0 {
        highScore := score;
      }
      flipped := Flags(deck.Length, true);
      pendingWin := false;
    }

    /**
     * `restart`: the same array is reshuffled in place and every card is
     * dealt again face down and clickable.
     */
    method Restart(picks: seq<nat>)
      requires Valid() && ValidPicks(picks, deck.Length)
      requires !pendingMismatch && !pendingWin
      modifies this, deck
      ensures Valid()
      ensures State() == Turn.Restart(old(State()), picks)
    {
      RestartKeepsInv(State(), picks);
      ResetBoard();
      ShuffleCards(deck, picks);
      score := 0;
      matchedPairs := 0;
      flipped, disabled := Flags(deck.Length, false), Flags(deck.Length, false);
    }
  }
}
