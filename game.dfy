/** The card-selection state machine of the memory game: the current selection,
    the input lock, the match counter and each card's face-up flag. */
module Game {
  import opened Deck

  datatype Option<T> = None | Some(value: T)

  /** What a click did: the presentation layer reacts to each kind. `won` tells
      whether the match just made was the last pair (the source then announces
      the win). */
  datatype Outcome = Rejected | Revealed | Matched(won: bool) | Mismatched

  /** Number of face-up cards. */
  function CountTrue(s: seq<bool>): (n: nat)
    ensures n <= |s|
  {
    if s == [] then 0 else (if s[0] then 1 else 0) + CountTrue(s[1..])
  }

  /** All cards are face up exactly when the count reaches the number of cards. */
  lemma {:induction false} CountFull(s: seq<bool>)
    ensures CountTrue(s) == |s| <==> forall k :: 0 <= k < |s| ==> s[k]
  {
    if s != [] {
      CountFull(s[1..]);
      assert (forall k :: 0 <= k < |s| ==> s[k]) <==>
             s[0] && forall k :: 0 <= k < |s[1..]| ==> s[1..][k];
    }
  }

  /** All cards are face down exactly when the count is zero. */
  lemma {:induction false} CountEmpty(s: seq<bool>)
    ensures CountTrue(s) == 0 <==> forall k :: 0 <= k < |s| ==> !s[k]
  {
    if s != [] {
      CountEmpty(s[1..]);
      assert (forall k :: 0 <= k < |s| ==> !s[k]) <==>
             !s[0] && forall k :: 0 <= k < |s[1..]| ==> !s[1..][k];
    }
  }

  /** Turning one card changes the number of face-up cards by exactly that card. */
  lemma {:induction false} CountAfterSet(s: seq<bool>, k: nat, v: bool)
    requires k < |s|
    ensures CountTrue(s[k := v]) == CountTrue(s) - (if s[k] then 1 else 0) + (if v then 1 else 0)
  {
    if k == 0 {
      assert s[k := v][1..] == s[1..];
    } else {
      assert s[k := v][1..] == s[1..][k - 1 := v];
      CountAfterSet(s[1..], k - 1, v);
    }
  }

  /** The game state as a value: the deck, the face-up flags, the selection
      (`firstCard`, `secondCard` as positions in the deck), the lock
      (`isFlipping`) and the number of pairs found. */
  datatype Board = Board(deck: seq<Symbol>, flipped: seq<bool>, first: Option<nat>,
                         second: Option<nat>, locked: bool, matchedPairs: nat)

  /** Number of selected cards still awaiting a decision. */
  function Pending(b: Board): nat {
    (if b.first.Some? then 1 else 0) + (if b.second.Some? then 1 else 0)
  }

  /** The invariant every reachable state keeps:
      - the deck is a permutation of the initial deck, one flag per card;
      - a second card is selected only after a first one;
      - selected cards are face up, and two selected cards are distinct;
      - a second card stays selected only while it does not match the first,
        since a match is resolved at once;
      - the lock is held exactly while two cards are selected;
      - face-up cards are the matched pairs plus the selected cards. */
  predicate Inv(b: Board) {
    IsDeck(b.deck) && |b.flipped| == |b.deck| &&
    (b.first.None? ==> b.second.None?) &&
    (b.first.Some? ==> b.first.value < |b.deck| && b.flipped[b.first.value]) &&
    (b.second.Some? ==>
       b.second.value < |b.deck| && b.flipped[b.second.value] &&
       b.second.value != b.first.value &&
       b.deck[b.first.value] != b.deck[b.second.value]) &&
    (b.locked <==> b.second.Some?) &&
    CountTrue(b.flipped) == 2 * b.matchedPairs + Pending(b)
  }

  /** The guard of `handleCardClick`: a click is taken only while the lock is
      off, on a face-down card that is not the card already selected first. */
  predicate Accepts(b: Board, card: nat)
    requires card < |b.flipped|
  {
    !b.locked && !b.flipped[card] && b.first != Some(card)
  }

  /** The win condition of the source: all pairs have been found. */
  predicate Won(b: Board) {
    b.matchedPairs == |b.deck| / 2
  }

  /** There are never more matched pairs than the deck holds. */
  lemma PairsBounded(b: Board)
    requires Inv(b)
    ensures b.matchedPairs <= |b.deck| / 2 == |Symbols|
  {
    DeckCounts(b.deck);
  }

  /** The game is won exactly when every card is face up and nothing is selected. */
  lemma WonIffAllFaceUp(b: Board)
    requires Inv(b)
    ensures Won(b) <==> (forall k :: 0 <= k < |b.flipped| ==> b.flipped[k]) && b.first.None?
  {
    DeckCounts(b.deck);
    CountFull(b.flipped);
  }

  /** Once the game is won every card is face up, so every further click is
      rejected and the win is announced only once. */
  lemma WonRejectsEveryClick(b: Board, card: nat)
    requires Inv(b) && Won(b) && card < |b.deck|
    ensures b.flipped[card] && !Accepts(b, card)
  {
    WonIffAllFaceUp(b);
  }

  /** A freshly dealt board: a deck, every card face down, nothing selected,
      no lock and no pairs found. */
  lemma FreshBoardInv(deck: seq<Symbol>, flipped: seq<bool>)
    requires IsDeck(deck) && |flipped| == |deck|
    requires forall k :: 0 <= k < |flipped| ==> !flipped[k]
    ensures Inv(Board(deck, flipped, None, None, false, 0))
  {
    CountEmpty(flipped);
  }

  /** The first accepted click of a pair turns that card face up and selects it. */
  lemma RevealKeepsInv(b: Board, card: nat)
    requires Inv(b) && b.first.None? && card < |b.deck| && !b.flipped[card]
    ensures Inv(b.(flipped := b.flipped[card := true], first := Some(card)))
  {
    CountAfterSet(b.flipped, card, true);
  }

  /** A second accepted click on a card with the same face: both stay face up as
      one more matched pair, and the selection and lock are cleared. */
  lemma MatchKeepsInv(b: Board, card: nat)
    requires Inv(b) && b.first.Some? && !b.locked
    requires card < |b.deck| && !b.flipped[card] && b.deck[b.first.value] == b.deck[card]
    ensures Inv(b.(flipped := b.flipped[card := true], first := None, second := None,
                   locked := false, matchedPairs := b.matchedPairs + 1))
  {
    CountAfterSet(b.flipped, card, true);
  }

  /** A second accepted click on a card with another face: both cards stay
      selected and face up, under the lock. */
  lemma MismatchKeepsInv(b: Board, card: nat)
    requires Inv(b) && b.first.Some? && !b.locked
    requires card < |b.deck| && !b.flipped[card] && b.deck[b.first.value] != b.deck[card]
    ensures Inv(b.(flipped := b.flipped[card := true], second := Some(card), locked := true))
  {
    CountAfterSet(b.flipped, card, true);
  }

  /** The deferred reversal of a mismatch turns exactly the two selected cards
      face down and clears the selection and the lock. */
  lemma ResolveKeepsInv(b: Board)
    requires Inv(b) && b.locked
    ensures Inv(b.(flipped := b.flipped[b.first.value := false][b.second.value := false],
                   first := None, second := None, locked := false))
  {
    CountAfterSet(b.flipped, b.first.value, false);
    CountAfterSet(b.flipped[b.first.value := false], b.second.value, false);
  }

  class Game {
    var deck: array<Symbol>
    var flipped: array<bool>
    var first: Option<nat>
    var second: Option<nat>
    var locked: bool
    var matchedPairs: nat

    /** The state as a value. */
    ghost function Model(): Board
      reads this, deck, flipped
    {
      Board(deck[..], flipped[..], first, second, locked, matchedPairs)
    }

    ghost predicate Valid()
      reads this, deck, flipped
    {
      Inv(Model())
    }

    /** The state when the page loads (the declarations of `cardsArray` and of the
        selection, lock and counter), followed by the initial `restartGame()`. */
    constructor (picks: seq<nat>)
      requires Picks(picks, |InitialDeck|)
      ensures Valid() && fresh(deck) && fresh(flipped)
      ensures deck[..] == Shuffled(InitialDeck, picks, |InitialDeck|)
      ensures matchedPairs == 0 && first.None? && second.None? && !locked
      ensures forall k :: 0 <= k < flipped.Length ==> !flipped[k]
    {
      deck := new Symbol[|InitialDeck|](i requires 0 <= i < |InitialDeck| => InitialDeck[i]);
      flipped := new bool[|InitialDeck|](_ => false);
      first, second, locked, matchedPairs := None, None, false, 0;
      new;
      assert deck[..] == InitialDeck;
      Restart(picks);
    }

    /** `resetSelection`: forget both selected cards and release the lock. */
    method ResetSelection()
      modifies this
      ensures first.None? && second.None? && !locked
      ensures deck == old(deck) && flipped == old(flipped) && matchedPairs == old(matchedPairs)
    {
      first, second := None, None;
      locked := false;
    }

    /** `flipCard`: turn one card face up; no other flag changes. */
    method FlipCard(card: nat)
      requires card < flipped.Length
      modifies flipped
      ensures flipped[..] == old(flipped[..])[card := true]
    {
      flipped[card] := true;
    }

    /** `disableCards`: the two selected cards match. They stay face up, the
        selection is cleared, one more pair is counted, and `won` reports
        whether that was the last pair. */
    method DisableCards() returns (won: bool)
      modifies this
      ensures first.None? && second.None? && !locked
      ensures matchedPairs == old(matchedPairs) + 1
      ensures won <==> Won(Model())
      ensures deck == old(deck) && flipped == old(flipped)
    {
      ResetSelection();
      matchedPairs := matchedPairs + 1;
      won := matchedPairs == deck.Length / 2;
    }

    /** `checkForMatch`: take the lock and compare the faces of the two selected
        cards. On a match the pair is disabled at once; on a mismatch
        `unflipCards` only schedules the reversal, which is `ResolveMismatch`,
        so the lock and both selected cards remain. */
    method CheckForMatch() returns (outcome: Outcome)
      requires first.Some? && second.Some?
      requires first.value < deck.Length && second.value < deck.Length
      modifies this
      ensures deck == old(deck) && flipped == old(flipped)
      ensures deck[old(first).value] == deck[old(second).value] ==>
                outcome == Matched(Won(Model())) &&
                first.None? && second.None? && !locked &&
                matchedPairs == old(matchedPairs) + 1
      ensures deck[old(first).value] != deck[old(second).value] ==>
                outcome == Mismatched &&
                first == old(first) && second == old(second) && locked &&
                matchedPairs == old(matchedPairs)
    {
      locked := true;
      if deck[first.value] == deck[second.value] {
        var won := DisableCards();
        outcome := Matched(won);
      } else {
        outcome := Mismatched;
      }
    }

    /** `handleCardClick` on the card at position `card`. */
    method Click(card: nat) returns (outcome: Outcome)
      requires Valid() && card < deck.Length
      modifies this, flipped
      ensures Valid() && deck == old(deck) && flipped == old(flipped)
      ensures matchedPairs >= old(matchedPairs)
      // rejected: nothing at all changes
      ensures !Accepts(old(Model()), card) ==> outcome == Rejected && Model() == old(Model())
      // accepted: exactly this card turns face up
      ensures Accepts(old(Model()), card) ==>
                outcome != Rejected && flipped[..] == old(flipped[..])[card := true]
      // the first card of a pair: it is recorded, the lock stays off
      ensures Accepts(old(Model()), card) && old(first).None? ==>
                outcome == Revealed && first == Some(card) && second.None? && !locked &&
                matchedPairs == old(matchedPairs)
      // the second card, same face: a pair is counted and the selection cleared
      ensures Accepts(old(Model()), card) && old(first).Some? && deck[old(first).value] == deck[card] ==>
                outcome == Matched(Won(Model())) &&
                first.None? && second.None? && !locked &&
                matchedPairs == old(matchedPairs) + 1
      // the second card, another face: both stay selected under the lock
      ensures Accepts(old(Model()), card) && old(first).Some? && deck[old(first).value] != deck[card] ==>
                outcome == Mismatched &&
                first == old(first) && second == Some(card) && locked &&
                matchedPairs == old(matchedPairs)
    {
      if locked || flipped[card] || first == Some(card) {
        return Rejected;
      }
      ghost var b := Model();
      FlipCard(card);
      if first.None? {
        first := Some(card);
        outcome := Revealed;
        RevealKeepsInv(b, card);
        assert Model() == b.(flipped := b.flipped[card := true], first := Some(card));
      } else {
        second := Some(card);
        outcome := CheckForMatch();
        if outcome.Matched? {
          MatchKeepsInv(b, card);
          assert Model() == b.(flipped := b.flipped[card := true], first := None, second := None,
                               locked := false, matchedPairs := b.matchedPairs + 1);
        } else {
          MismatchKeepsInv(b, card);
          assert Model() == b.(flipped := b.flipped[card := true], second := Some(card), locked := true);
        }
      }
    }

    /** The deferred body of `unflipCards`, run once the mismatch has been shown:
        both selected cards turn face down again, every other flag is kept, and
        the selection and the lock are cleared. It can run only while a
        mismatch is pending. */
    method ResolveMismatch()
      requires Valid() && locked
      modifies this, flipped
      ensures Valid() && deck == old(deck) && flipped == old(flipped)
      ensures flipped[..] == old(flipped[..])[old(first).value := false][old(second).value := false]
      ensures first.None? && second.None? && !locked && matchedPairs == old(matchedPairs)
    {
      ghost var b := Model();
      flipped[first.value] := false;
      flipped[second.value] := false;
      ResetSelection();
      ResolveKeepsInv(b);
      assert Model() == b.(flipped := b.flipped[b.first.value := false][b.second.value := false],
                           first := None, second := None, locked := false);
    }

    /** `createBoard`: shuffle the deck in place and lay out a fresh row of
        face-down cards for it. */
    method CreateBoard(picks: seq<nat>)
      requires Picks(picks, deck.Length)
      modifies this, deck
      ensures deck == old(deck) && fresh(flipped) && flipped.Length == deck.Length
      ensures deck[..] == Shuffled(old(deck[..]), picks, deck.Length)
      ensures multiset(deck[..]) == multiset(old(deck[..]))
      ensures forall k :: 0 <= k < flipped.Length ==> !flipped[k]
      ensures first == old(first) && second == old(second) && locked == old(locked)
      ensures matchedPairs == old(matchedPairs)
    {
      Shuffle(deck, picks);
      flipped := new bool[deck.Length](_ => false);
    }

    /** `restartGame`: no pairs found, nothing selected, no lock, the deck
        reshuffled from its current order and every card face down. */
    method Restart(picks: seq<nat>)
      requires IsDeck(deck[..]) && Picks(picks, deck.Length)
      modifies this, deck
      ensures Valid() && deck == old(deck) && fresh(flipped) && flipped.Length == deck.Length
      ensures deck[..] == Shuffled(old(deck[..]), picks, deck.Length)
      ensures matchedPairs == 0 && first.None? && second.None? && !locked
      ensures forall k :: 0 <= k < flipped.Length ==> !flipped[k]
    {
      matchedPairs := 0;
      ResetSelection();
      CreateBoard(picks);
      ghost var b := Model();
      FreshBoardInv(b.deck, b.flipped);
      assert b == Board(b.deck, b.flipped, None, None, false, 0);
    }
  }
}
