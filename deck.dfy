/** The deck of the memory game and the in-place Fisher-Yates (Durstenfeld)
    shuffle that deals it at every (re)start. */
module Deck {

  /** A card face. The source names each face with a one-letter string. */
  type Symbol = char

  /** The eight distinct faces. */
  const Symbols: seq<Symbol> := "ABCDEFGH"

  /** `cardsArray` as declared: every face twice, the second run after the first. */
  const InitialDeck: seq<Symbol> := Symbols + Symbols

  /** A deck holds exactly the cards of the initial deck, in some order. */
  predicate IsDeck(s: seq<Symbol>) {
    multiset(s) == multiset(InitialDeck)
  }

  /** Any deck has sixteen cards and every face exactly twice; no other face occurs. */
  lemma DeckCounts(s: seq<Symbol>)
    requires IsDeck(s)
    ensures |s| == 2 * |Symbols| == 16
    ensures forall c :: multiset(s)[c] == if c in Symbols then 2 else 0
  {
  }

  /** The random indices of one shuffle: `picks[i]` is the `j` drawn when the loop
      stands at position `i`, and `Math.floor(Math.random() * (i + 1))` lies in
      [0, i]. `picks[0]` is never used, since the loop stops before position 0. */
  predicate Picks(picks: seq<nat>, n: nat) {
    |picks| == n && forall i :: 0 < i < n ==> picks[i] <= i
  }

  /** One step of the shuffle: exchange the cards at positions `i` and `j`. */
  function Swap(s: seq<Symbol>, i: nat, j: nat): (r: seq<Symbol>)
    requires i < |s| && j < |s|
    ensures |r| == |s| && r[i] == s[j] && r[j] == s[i]
  {
    s[i := s[j]][j := s[i]]
  }

  /** A step only moves cards: it neither adds nor removes one. */
  lemma SwapPermutes(s: seq<Symbol>, i: nat, j: nat)
    requires i < |s| && j < |s|
    ensures multiset(Swap(s, i, j)) == multiset(s)
  {
  }

  /** A step writes positions `i` and `j` only. */
  lemma SwapElsewhere(s: seq<Symbol>, i: nat, j: nat, m: nat)
    requires i < |s| && j < |s| && m < |s| && m != i && m != j
    ensures Swap(s, i, j)[m] == s[m]
  {
  }

  /** The deck after the steps at positions k-1, k-2, ..., 1, in that order:
      the whole shuffle of `s` is `Shuffled(s, picks, |s|)`. It is a
      permutation of `s`. */
  function Shuffled(s: seq<Symbol>, picks: seq<nat>, k: nat): (r: seq<Symbol>)
    requires k <= |s| && Picks(picks, |s|)
    ensures |r| == |s|
    decreases k
  {
    if k <= 1 then s else Shuffled(Swap(s, k - 1, picks[k - 1]), picks, k - 1)
  }

  /** The shuffle is a permutation: the same cards, each as often as before. */
  lemma {:induction false} ShuffledPermutes(s: seq<Symbol>, picks: seq<nat>, k: nat)
    requires k <= |s| && Picks(picks, |s|)
    ensures multiset(Shuffled(s, picks, k)) == multiset(s)
    decreases k
  {
    if k > 1 {
      SwapPermutes(s, k - 1, picks[k - 1]);
      ShuffledPermutes(Swap(s, k - 1, picks[k - 1]), picks, k - 1);
    }
  }

  /** The first step of the remaining shuffle, taken on its own. */
  lemma ShuffledStep(s: seq<Symbol>, picks: seq<nat>, k: nat)
    requires 1 < k <= |s| && Picks(picks, |s|)
    ensures Shuffled(s, picks, k) == Shuffled(Swap(s, k - 1, picks[k - 1]), picks, k - 1)
  {
  }

  /** With no position above 0 left, the shuffle leaves the deck as it is. */
  lemma ShuffledDone(s: seq<Symbol>, picks: seq<nat>, k: nat)
    requires k <= 1 && k <= |s| && Picks(picks, |s|)
    ensures Shuffled(s, picks, k) == s
  {
  }

  /** Once the step at position m is done, the later steps (at positions below m)
      never write position m again: the card there is final. */
  lemma {:induction false} ShuffledLeavesSettled(s: seq<Symbol>, picks: seq<nat>, k: nat, m: nat)
    requires Picks(picks, |s|) && k <= m < |s|
    ensures Shuffled(s, picks, k)[m] == s[m]
    decreases k
  {
    if k > 1 {
      SwapElsewhere(s, k - 1, picks[k - 1], m);
      ShuffledLeavesSettled(Swap(s, k - 1, picks[k - 1]), picks, k - 1, m);
    }
  }

  /** Shuffling a deck gives a deck: sixteen cards, each face still exactly twice. */
  lemma ShuffledIsDeck(s: seq<Symbol>, picks: seq<nat>)
    requires IsDeck(s) && Picks(picks, |s|)
    ensures IsDeck(Shuffled(s, picks, |s|))
    ensures forall c :: multiset(Shuffled(s, picks, |s|))[c] == if c in Symbols then 2 else 0
  {
    ShuffledPermutes(s, picks, |s|);
    DeckCounts(Shuffled(s, picks, |s|));
  }

  /** The destructuring swap in the loop body of `shuffleCards`, in place. */
  method SwapCards(a: array<Symbol>, i: nat, j: nat)
    requires i < a.Length && j < a.Length
    modifies a
    ensures a[..] == Swap(old(a[..]), i, j)
  {
    a[i], a[j] := a[j], a[i];
  }

  /** `shuffleCards`: for i from the last position down to 1, swap position i
      with position picks[i], in place. */
  method Shuffle(a: array<Symbol>, picks: seq<nat>)
    requires Picks(picks, a.Length)
    modifies a
    ensures a[..] == Shuffled(old(a[..]), picks, a.Length)
    ensures multiset(a[..]) == multiset(old(a[..]))
  {
    ghost var goal := Shuffled(a[..], picks, a.Length);
    var i := a.Length - 1;
    while i > 0
      invariant 0 <= i + 1 <= a.Length
      invariant Shuffled(a[..], picks, i + 1) == goal
    {
      ghost var before := a[..];
      SwapCards(a, i, picks[i]);
      ShuffledStep(before, picks, i + 1);
      i := i - 1;
    }
    ShuffledDone(a[..], picks, i + 1);
    ShuffledPermutes(old(a[..]), picks, a.Length);
  }
}
