/** The two classifiers side by side on the same hand text: where their validity tests agree
    and where they part. */
module Comparison {
  import opened Linq
  import Poker
  import TestProgram

  /** Both programs reject a hand of five pieces that repeats a piece. */
  lemma BothRejectRepeatedPiece(hand: string, i: nat, j: nat)
    requires |Split(hand, ' ')| == 5
    requires i < j < 5 && Split(hand, ' ')[i] == Split(hand, ' ')[j]
    ensures !Poker.IsValidHand(hand)
    ensures TestProgram.DetermineHandRank(hand) == "Invalid Hand"
  {
    Poker.ConvertToValidCardsPerPiece(hand);
    Poker.RepeatedCardRejected(hand, i, j);
    RepeatShrinksSet(Split(hand, ' '), i, j);
  }

  /** On a hand that holds no "10" the two validity tests agree. */
  lemma SameValidityWithoutTen(hand: string)
    requires Poker.NoTen(hand)
    ensures Poker.IsValidHand(hand) <==> TestProgram.DetermineHandRank(hand) != "Invalid Hand"
  {
    Poker.ReplaceTenKeepsOthers(hand);
    TestProgram.SameTableAsPoker();
  }

  /** A piece holding a '1', such as "10d", is never a card of the second program, which does
      not rewrite "10": the hand is invalid there. */
  lemma TenSpellingInvalidInTest(hand: string, k: nat)
    requires k < |Split(hand, ' ')| && '1' in Split(hand, ' ')[k]
    ensures TestProgram.DetermineHandRank(hand) == "Invalid Hand"
  {
    var pieces := Split(hand, ' ');
    OneIsNoCard(pieces[k]);
    assert pieces[k] in ToSet(pieces);
  }

  /** No card of the second program's deck holds a '1'. */
  lemma OneIsNoCard(piece: string)
    requires '1' in piece
    ensures piece !in TestProgram.FullDeck
  {
    TestProgram.FullDeckFacts();
  }

  /** Yet the primary program reads "10" as "T": a hand is valid there exactly when the hand
      with every "10" spelled "T" is. */
  lemma TenSpellingValidInPoker(hand: string)
    ensures Poker.IsValidHand(hand) <==> Poker.IsValidHand(Poker.ReplaceTen(hand))
  {
    Poker.ReplaceTenIdempotent(hand);
  }
}
