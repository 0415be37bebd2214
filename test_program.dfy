/** The second classifier, Test/Program.cs: its own card table, the deck built by two nested
    loops, the ace-low check and `DetermineHandRank`, which returns the text the program prints.
    It splits the hand as given (no "10" rewrite), and it takes the largest and smallest rank of a
    hand by character code, not by card value. */
module TestProgram {
  import opened Linq
  import Poker

  /** `Program.CardValue`: the value of each rank character. */
  const CardValue: map<char, int> := map[
    '2' := 2, '3' := 3, '4' := 4, '5' := 5, '6' := 6, '7' := 7, '8' := 8, '9' := 9,
    'T' := 10, 'J' := 11, 'Q' := 12, 'K' := 13, 'A' := 14]

  /** The `suits` array local to `GenerateDeck`. */
  const Suits: seq<char> := ['h', 'd', 'c', 's']

  /** `Program.FullDeck`: every key of the table followed by every suit. `GenerateDeck` is
      proved to build exactly this set. */
  const FullDeck: set<string> := Cards(CardValue.Keys, Suits)

  /** The ranks of the ace-low straight, in value order: the list `IsLowStraight` compares with. */
  const LowStraight: seq<char> := ['2', '3', '4', '5', 'A']

  /** The table, the suits and so the deck are the primary program's, entry for entry. */
  lemma SameTableAsPoker()
    ensures CardValue == Poker.CardValue && Suits == Poker.Suits && FullDeck == Poker.FullDeck
  {
  }

  /** The deck holds exactly the two-character strings of a known rank followed by one of the
      four suits, and there are 52 of them. */
  lemma FullDeckFacts()
    ensures forall t :: t in FullDeck <==> |t| == 2 && t[0] in CardValue && t[1] in Suits
    ensures |FullDeck| == 52
  {
    SameTableAsPoker();
    Poker.FullDeckFacts();
  }

  // ---------------------------------------------------------------------------
  // GenerateDeck
  // ---------------------------------------------------------------------------

  /** `GenerateDeck`: for each key of the table, in whatever order the keys come, add the key
      followed by each suit to the set. The result is the deck of 52 cards. */
  method GenerateDeck() returns (deck: set<string>)
    ensures deck == FullDeck
    ensures |deck| == 52
  {
    deck := {};
    var suits := ['h', 'd', 'c', 's'];
    var pending := CardValue.Keys;
    while pending != {}
      invariant pending <= CardValue.Keys
      invariant deck == Cards(CardValue.Keys - pending, suits)
      decreases pending
    {
      var r :| r in pending;
      var done := CardValue.Keys - pending;
      for j := 0 to |suits|
        invariant deck == Cards(done, suits) + Cards({r}, suits[..j])
      {
        CardsAddSuit(r, suits, j);
        deck := deck + {[r, suits[j]]};
      }
      assert suits[..|suits|] == suits;
      CardsAddRank(done, r, suits);
      assert CardValue.Keys - (pending - {r}) == done + {r};
      pending := pending - {r};
    }
    assert CardValue.Keys - pending == CardValue.Keys;
    FullDeckFacts();
  }

  /** One more suit for the rank `r`: one more card. */
  lemma CardsAddSuit(r: char, ss: seq<char>, j: nat)
    requires j < |ss|
    ensures Cards({r}, ss[..j + 1]) == Cards({r}, ss[..j]) + {[r, ss[j]]}
  {
    assert ss[..j + 1] == ss[..j] + [ss[j]];
    CardsMembership({r}, ss[..j + 1]);
    CardsMembership({r}, ss[..j]);
  }

  /** One more rank: its cards are added to those of the ranks before. */
  lemma CardsAddRank(K: set<char>, r: char, ss: seq<char>)
    ensures Cards(K + {r}, ss) == Cards(K, ss) + Cards({r}, ss)
  {
    CardsMembership(K + {r}, ss);
    CardsMembership(K, ss);
    CardsMembership({r}, ss);
  }

  // ---------------------------------------------------------------------------
  // IsLowStraight and the rank order
  // ---------------------------------------------------------------------------

  /** `IsLowStraight`: `SequenceEqual` with 2, 3, 4, 5, A, element by element. */
  predicate IsLowStraight(ranks: seq<char>) {
    |ranks| == |LowStraight| && forall i :: 0 <= i < |ranks| ==> ranks[i] == LowStraight[i]
  }

  /** Comparing element by element is comparing the lists. */
  lemma LowStraightIsEqual(ranks: seq<char>)
    ensures IsLowStraight(ranks) <==> ranks == LowStraight
  {
  }

  /** The key of `OrderBy(r => CardValue[r])`. */
  function Value(r: char): int
    requires r in CardValue
  {
    CardValue[r]
  }

  /** Ranks sorted by value are the ace-low straight exactly when they are 2, 3, 4, 5 and A in
      some order: the sort puts the ace last, so any such hand passes `IsLowStraight`. */
  lemma LowStraightOfSortedRanks(ranks: seq<char>)
    requires forall r :: r in ranks ==> r in CardValue
    ensures IsLowStraight(SortBy(ranks, Value)) <==> multiset(ranks) == multiset(LowStraight)
  {
    LowStraightIsEqual(SortBy(ranks, Value));
    if multiset(ranks) == multiset(LowStraight) {
      LowStraightSorted();
      ValueInjective();
      SortedUnique(SortBy(ranks, Value), LowStraight, Value);
    }
  }

  lemma LowStraightSorted()
    ensures Keyed(LowStraight, Value) && SortedBy(LowStraight, Value)
  {
    var values := [2, 3, 4, 5, 14];
    assert Keyed(LowStraight, Value) by {
      forall i | 0 <= i < |LowStraight| ensures LowStraight[i] in CardValue {
        assert LowStraight[i] in {'2', '3', '4', '5', 'A'};
      }
    }
    forall i | 0 <= i < |LowStraight| ensures Value(LowStraight[i]) == values[i] {
      if i == 0 {} else if i == 1 {} else if i == 2 {} else if i == 3 {} else {}
    }
  }

  /** Different ranks have different values. */
  lemma ValueInjective()
    ensures InjectiveKey(Value)
  {
    SameTableAsPoker();
    Poker.CardValueInjective();
  }

  // ---------------------------------------------------------------------------
  // DetermineHandRank
  // ---------------------------------------------------------------------------

  /** The validity test of `DetermineHandRank`: five different pieces, each a card of the deck;
      the pieces then form a set of five deck cards, and there are at least five of them. */
  function IsValidCards(cards: seq<string>): (b: bool)
    ensures b <==> |ToSet(cards)| == 5 && ToSet(cards) <= FullDeck
    ensures b ==> |cards| >= 5
  {
    |Distinct(cards)| == 5 && forall c :: c in cards ==> c in FullDeck
  }

  /** Deck cards have a rank with a value and a suit. */
  lemma DeckCardShape(cards: seq<string>)
    requires forall c :: c in cards ==> c in FullDeck
    ensures forall c :: c in cards ==> |c| == 2 && c[0] in CardValue && c[1] in Suits
  {
    FullDeckFacts();
  }

  /** `cards.Select(c => c[0])`: the rank of each card, in the order of the hand. */
  function HandRanks(cards: seq<string>): (ranks: seq<char>)
    requires forall c :: c in cards ==> c in FullDeck
    ensures |ranks| == |cards|
    ensures forall i :: 0 <= i < |cards| ==> |cards[i]| == 2 && ranks[i] == cards[i][0]
    ensures forall r :: r in ranks ==> r in CardValue
  {
    DeckCardShape(cards);
    Column(cards, 0)
  }

  /** `cards.Select(c => c[1])`: the suit of each card, in the order of the hand. */
  function HandSuits(cards: seq<string>): (suits: seq<char>)
    requires forall c :: c in cards ==> c in FullDeck
    ensures |suits| == |cards|
    ensures forall i :: 0 <= i < |cards| ==> |cards[i]| == 2 && suits[i] == cards[i][1]
    ensures forall s :: s in suits ==> s in Suits
  {
    DeckCardShape(cards);
    Column(cards, 1)
  }

  /** `HandRanks(cards).OrderBy(r => CardValue[r])`: the same ranks, by increasing value. */
  function SortedRanks(cards: seq<string>): (ranks: seq<char>)
    requires forall c :: c in cards ==> c in FullDeck
    ensures |ranks| == |cards|
    ensures forall r :: r in ranks ==> r in CardValue
    ensures multiset(ranks) == multiset(HandRanks(cards))
    ensures ToSet(ranks) == ToSet(HandRanks(cards))
    ensures Keyed(ranks, Value) && SortedBy(ranks, Value)
  {
    var ranks := SortBy(HandRanks(cards), Value);
    SortBySameElements(HandRanks(cards), Value);
    ranks
  }

  /** `isFlush`: all the cards share one suit. */
  function IsFlush(suits: seq<char>): (b: bool)
    ensures b <==> suits != [] && forall s :: s in suits ==> s == suits[0]
  {
    SingleElement(suits);
    |Distinct(suits)| == 1
  }

  /** `isStraigth`: five different ranks whose character-largest and character-smallest values
      are four apart, or the ace-low list; either way five different ranks. */
  function IsStraigth(ranks: seq<char>): (b: bool)
    requires |ranks| > 0 && forall r :: r in ranks ==> r in CardValue
    ensures b ==> |ToSet(ranks)| == 5
    ensures b <==>
      |ToSet(ranks)| == 5 &&
      (CardValue[MaxChar(ranks)] - CardValue[MinChar(ranks)] == 4 || IsLowStraight(ranks))
  {
    LowStraightFacts(ranks);
    (|Distinct(ranks)| == 5 && CardValue[MaxChar(ranks)] - CardValue[MinChar(ranks)] == 4)
    || IsLowStraight(ranks)
  }

  /** What `DetermineHandRank` decides: one case per `return` of the method. */
  datatype Verdict =
    | InvalidHand | RoyalFlush | StraightFlush | FourOfAKind | FullHouse | Flush | Straigth
    | ThreeOfAKind | TwoPairs | OnePair | HighCard(rank: char)

  /** The text returned for each verdict, spelled as the program spells it. */
  function Text(v: Verdict): string {
    match v
    case InvalidHand => "Invalid Hand"
    case RoyalFlush => "Royal Flush"
    case StraightFlush => "Straight Flush"
    case FourOfAKind => "Four of a Kind"
    case FullHouse => "Full House"
    case Flush => "Flush"
    case Straigth => "Straigth"
    case ThreeOfAKind => "Three of a Kind"
    case TwoPairs => "Two pairs"
    case OnePair => "One pair"
    case HighCard(r) => "High Card: " + [r]
  }

  /** `result` is "High Card: " followed by one character. */
  predicate IsHighCardText(result: string) {
    |result| == 12 && result[..11] == "High Card: "
  }

  /** Different verdicts give different texts, so the text tells the verdict; the high-card
      texts are exactly those that start with "High Card: ". */
  lemma TextInjective(v: Verdict, w: Verdict)
    ensures Text(v) == Text(w) ==> v == w
    ensures IsHighCardText(Text(v)) <==> v.HighCard?
    ensures v.HighCard? ==> Text(v)[11] == v.rank
  {
    TextShape(v);
    TextShape(w);
    if v.HighCard? && w.HighCard? && Text(v) == Text(w) {
      assert Text(v)[11] == v.rank && Text(w)[11] == w.rank;
    }
  }

  /** The length and the first character of each text. */
  lemma TextShape(v: Verdict)
    ensures |Text(v)| > 0
    ensures IsHighCardText(Text(v)) <==> v.HighCard?
    ensures v.HighCard? ==> Text(v)[11] == v.rank
    ensures match v
      case InvalidHand => |Text(v)| == 12 && Text(v)[0] == 'I'
      case RoyalFlush => |Text(v)| == 11
      case StraightFlush => |Text(v)| == 14 && Text(v)[0] == 'S'
      case FourOfAKind => |Text(v)| == 14 && Text(v)[0] == 'F'
      case FullHouse => |Text(v)| == 10
      case Flush => |Text(v)| == 5
      case Straigth => |Text(v)| == 8 && Text(v)[0] == 'S'
      case ThreeOfAKind => |Text(v)| == 15
      case TwoPairs => |Text(v)| == 9
      case OnePair => |Text(v)| == 8 && Text(v)[0] == 'O'
      case HighCard(r) => |Text(v)| == 12 && Text(v)[0] == 'H'
  {
    if v.InvalidHand? {
      assert Text(v)[..11][0] == 'I';
    }
  }

  /** The chain of `DetermineHandRank` on the sorted ranks and the suits: the first test that
      holds among royal flush (flush, straight, character-largest rank worth 14), straight
      flush, exactly two different ranks, full house, flush, straight, three of a kind, two
      pairs and one pair, and otherwise the high card. */
  function Ladder(ranks: seq<char>, suits: seq<char>): (v: Verdict)
    requires |ranks| > 0 && forall r :: r in ranks ==> r in CardValue
    ensures v != InvalidHand
    ensures v.HighCard? ==> v.rank in ranks && forall r :: r in ranks ==> r <= v.rank
  {
    var high := MaxChar(ranks);
    Chain(IsFlush(suits), IsStraigth(ranks), CardValue[high] == 14, |Distinct(ranks)|,
      GroupCounts(ranks), high)
  }

  /** The if-chain itself, on the values the method computes before it: `isFlush`,
      `isStraigth`, whether the largest rank is worth 14, the number of different ranks,
      `rankCount.Values` and `ranks.Max()`. */
  function Chain(isFlush: bool, isStraigth: bool, aceHigh: bool, different: nat,
    rankCount: seq<nat>, high: char): (v: Verdict)
    ensures v != InvalidHand
    ensures v.HighCard? ==> v.rank == high
  {
    if isFlush && isStraigth && aceHigh then RoyalFlush
    else if isFlush && isStraigth then StraightFlush
    else if different == 2 then FourOfAKind
    else if 3 in rankCount && 2 in rankCount then FullHouse
    else if isFlush then Flush
    else if isStraigth then Straigth
    else if 3 in rankCount then ThreeOfAKind
    else if Count(rankCount, 2) == 2 then TwoPairs
    else if 2 in rankCount then OnePair
    else HighCard(high)
  }

  /** The verdict of `DetermineHandRank`: invalid exactly when the pieces between spaces are
      not five different deck cards, and a high card names the character-largest first
      character of the pieces. */
  function Classify(hand: string): (v: Verdict)
    ensures var cards := Split(hand, ' ');
      v == InvalidHand <==> !(|ToSet(cards)| == 5 && ToSet(cards) <= FullDeck)
    ensures v.HighCard? ==> forall c :: c in Split(hand, ' ') ==> |c| == 2 && c[0] <= v.rank
    ensures v.HighCard? ==> exists c :: c in Split(hand, ' ') && |c| == 2 && c[0] == v.rank
  {
    var cards := Split(hand, ' ');
    if !IsValidCards(cards) then InvalidHand
    else
      var v := Ladder(SortedRanks(cards), HandSuits(cards));
      RanksAreFirstCharacters(cards);
      v
  }

  /** The sorted ranks are the first characters of the cards. */
  lemma RanksAreFirstCharacters(cards: seq<string>)
    requires forall c :: c in cards ==> c in FullDeck
    ensures forall c :: c in cards ==> |c| == 2 && c[0] in SortedRanks(cards)
    ensures forall r :: r in SortedRanks(cards) ==> exists c :: c in cards && |c| == 2 && c[0] == r
  {
    var ranks := SortedRanks(cards);
    DeckCardShape(cards);
    ColumnMembership(cards, 0);
    assert forall r :: r in ranks <==> r in ToSet(ranks);
  }

  /** `DetermineHandRank`: "Invalid Hand" exactly when the pieces between spaces are not five
      different deck cards; a "High Card: " text names the character-largest rank, which is a
      rank of the hand. */
  function DetermineHandRank(hand: string): (result: string)
    ensures var cards := Split(hand, ' ');
      result == "Invalid Hand" <==> !(|ToSet(cards)| == 5 && ToSet(cards) <= FullDeck)
    ensures IsHighCardText(result) ==>
      forall c :: c in Split(hand, ' ') ==> |c| == 2 && c[0] <= result[11]
    ensures IsHighCardText(result) ==>
      exists c :: c in Split(hand, ' ') && |c| == 2 && c[0] == result[11]
  {
    TextInjective(Classify(hand), InvalidHand);
    Text(Classify(hand))
  }

  // ---------------------------------------------------------------------------
  // What the chain decides
  // ---------------------------------------------------------------------------

  /** The ladder takes the first test that holds, on the sorted ranks and the suits: every
      verdict comes exactly when its own test holds and every earlier test fails. The earlier
      tests are royal flush (flush, straight and an ace-valued character-largest rank),
      straight flush, two different ranks ("Four of a Kind"), full house, flush, straight,
      three of a kind, two pairs and one pair. */
  lemma FirstTrueBranch(ranks: seq<char>, suits: seq<char>)
    requires |ranks| > 0 && forall r :: r in ranks ==> r in CardValue
    ensures var v, f, st := Ladder(ranks, suits), IsFlush(suits), IsStraigth(ranks);
      && (v == RoyalFlush <==> f && st && CardValue[MaxChar(ranks)] == 14)
      && (v == StraightFlush <==> f && st && CardValue[MaxChar(ranks)] != 14)
      && (v == FourOfAKind <==> !(f && st) && |ToSet(ranks)| == 2)
    ensures var v, f, st := Ladder(ranks, suits), IsFlush(suits), IsStraigth(ranks);
      var two, counts := |ToSet(ranks)| == 2, GroupCounts(ranks);
      && (v == FullHouse <==> !(f && st) && !two && 3 in counts && 2 in counts)
      && (v == Flush <==> f && !st && !two && !(3 in counts && 2 in counts))
      && (v == Straigth <==> !f && st && !two && !(3 in counts && 2 in counts))
    ensures var v, f, st := Ladder(ranks, suits), IsFlush(suits), IsStraigth(ranks);
      var two, counts := |ToSet(ranks)| == 2, GroupCounts(ranks);
      && (v == ThreeOfAKind <==> !f && !st && !two && 3 in counts && 2 !in counts)
      && (v == TwoPairs <==> !f && !st && !two && 3 !in counts && Count(counts, 2) == 2)
      && (v == OnePair <==>
            !f && !st && !two && 3 !in counts && Count(counts, 2) != 2 && 2 in counts)
      && (v.HighCard? <==> !f && !st && !two && 3 !in counts && 2 !in counts)
  {
    var f, st, a := IsFlush(suits), IsStraigth(ranks), CardValue[MaxChar(ranks)] == 14;
    var d, c, h := |Distinct(ranks)|, GroupCounts(ranks), MaxChar(ranks);
    ChainFirstTrue(f, st, a, d, c, h);
    assert Ladder(ranks, suits) == Chain(f, st, a, d, c, h);
    assert d == |ToSet(ranks)|;
  }

  /** The chain on its inputs: each verdict comes exactly when its own test holds and every
      earlier test fails. */
  lemma ChainFirstTrue(isFlush: bool, isStraigth: bool, aceHigh: bool, different: nat,
    rankCount: seq<nat>, high: char)
    ensures var v := Chain(isFlush, isStraigth, aceHigh, different, rankCount, high);
      var f, st := isFlush, isStraigth;
      && (v == RoyalFlush <==> f && st && aceHigh)
      && (v == StraightFlush <==> f && st && !aceHigh)
      && (v == FourOfAKind <==> !(f && st) && different == 2)
    ensures var v := Chain(isFlush, isStraigth, aceHigh, different, rankCount, high);
      var f, st := isFlush, isStraigth;
      var two, counts := different == 2, rankCount;
      && (v == FullHouse <==> !(f && st) && !two && 3 in counts && 2 in counts)
      && (v == Flush <==> f && !st && !two && !(3 in counts && 2 in counts))
      && (v == Straigth <==> !f && st && !two && !(3 in counts && 2 in counts))
    ensures var v := Chain(isFlush, isStraigth, aceHigh, different, rankCount, high);
      var f, st := isFlush, isStraigth;
      var two, counts := different == 2, rankCount;
      && (v == ThreeOfAKind <==> !f && !st && !two && 3 in counts && 2 !in counts)
      && (v == TwoPairs <==> !f && !st && !two && 3 !in counts && Count(counts, 2) == 2)
      && (v == OnePair <==>
            !f && !st && !two && 3 !in counts && Count(counts, 2) != 2 && 2 in counts)
      && (v.HighCard? <==> !f && !st && !two && 3 !in counts && 2 !in counts)
  {
  }

  /** Ranks that are all different occur once each: every count is 1. */
  lemma CountsOfDifferentRanks(ranks: seq<char>)
    requires |ToSet(ranks)| == |ranks|
    ensures forall v :: v in GroupCounts(ranks) ==> v == 1
  {
    FullSetNoDuplicates(ranks);
    forall v | v in GroupCounts(ranks) ensures v == 1 {
      var x :| x in ranks && Count(ranks, x) == v;
      CountNoDuplicates(ranks, x);
    }
  }

  /** The ace-low list: five different ranks, the character-largest of them the ace. */
  lemma LowStraightFacts(ranks: seq<char>)
    ensures IsLowStraight(ranks) ==>
      |ranks| == |ToSet(ranks)| == 5 && MaxChar(ranks) == 'A' &&
      forall r :: r in ranks ==> r in CardValue
  {
    if IsLowStraight(ranks) {
      LowStraightIsEqual(ranks);
      assert NoDuplicates(LowStraight);
      NoDuplicatesCard(LowStraight);
      assert 'A' in LowStraight && forall r :: r in LowStraight ==> r <= 'A';
    }
  }

  /** A valid hand whose ranks are 2, 3, 4, 5 and A passes the straight test: it is a
      "Royal Flush" when it is of one suit and "Straigth" otherwise. */
  lemma LowStraightHand(hand: string)
    requires var cards := Split(hand, ' ');
      IsValidCards(cards) && multiset(HandRanks(cards)) == multiset(LowStraight)
    ensures var cards := Split(hand, ' ');
      DetermineHandRank(hand) == if IsFlush(HandSuits(cards)) then "Royal Flush" else "Straigth"
  {
    LowStraightCards(Split(hand, ' '));
    ClassifyValidCards(hand);
  }

  /** On valid cards the verdict is the chain's, applied to the sorted ranks and the suits. */
  lemma ClassifyValidCards(hand: string)
    requires IsValidCards(Split(hand, ' '))
    ensures var cards := Split(hand, ' ');
      && Classify(hand) == Ladder(SortedRanks(cards), HandSuits(cards))
      && DetermineHandRank(hand) == Text(Ladder(SortedRanks(cards), HandSuits(cards)))
  {
  }

  /** The texts of the verdicts other than the high card. */
  lemma TextNames()
    ensures Text(InvalidHand) == "Invalid Hand" && Text(RoyalFlush) == "Royal Flush"
    ensures Text(StraightFlush) == "Straight Flush" && Text(FourOfAKind) == "Four of a Kind"
    ensures Text(FullHouse) == "Full House" && Text(Flush) == "Flush"
    ensures Text(Straigth) == "Straigth" && Text(ThreeOfAKind) == "Three of a Kind"
    ensures Text(TwoPairs) == "Two pairs" && Text(OnePair) == "One pair"
  {
  }

  /** The same on the cards: their sorted ranks are the ace-low list. */
  lemma LowStraightCards(cards: seq<string>)
    requires IsValidCards(cards) && multiset(HandRanks(cards)) == multiset(LowStraight)
    ensures Text(Ladder(SortedRanks(cards), HandSuits(cards))) ==
      if IsFlush(HandSuits(cards)) then "Royal Flush" else "Straigth"
  {
    LowStraightSortedRanks(cards);
    LowStraightLadder(SortedRanks(cards), HandSuits(cards));
    TextNames();
  }

  lemma LowStraightSortedRanks(cards: seq<string>)
    requires forall c :: c in cards ==> c in FullDeck
    requires multiset(HandRanks(cards)) == multiset(LowStraight)
    ensures IsLowStraight(SortedRanks(cards))
  {
    LowStraightOfSortedRanks(HandRanks(cards));
  }

  /** The ace-low list is a royal flush in one suit and a plain straight otherwise. */
  lemma LowStraightLadder(ranks: seq<char>, suits: seq<char>)
    requires IsLowStraight(ranks)
    ensures |ranks| > 0 && forall r :: r in ranks ==> r in CardValue
    ensures Ladder(ranks, suits) == if IsFlush(suits) then RoyalFlush else Straigth
  {
    LowStraightFacts(ranks);
    CountsOfDifferentRanks(ranks);
    FirstTrueBranch(ranks, suits);
  }

  /** The only royal flush is the suited ace-low straight: with the ace as the
      character-largest rank, the smallest rank could only be worth 10 if it were a 'T', which
      sorts after 'A'. So A-K-Q-J-T of one suit is never a royal flush here. */
  lemma RoyalFlushIsSuitedLowStraight(hand: string)
    ensures var cards := Split(hand, ' ');
      DetermineHandRank(hand) == "Royal Flush" <==>
        IsValidCards(cards) && IsFlush(HandSuits(cards)) &&
        multiset(HandRanks(cards)) == multiset(LowStraight)
  {
    var cards := Split(hand, ' ');
    TextInjective(Classify(hand), RoyalFlush);
    if Classify(hand) == RoyalFlush {
      var ranks := SortedRanks(cards);
      FirstTrueBranch(ranks, HandSuits(cards));
      RoyalNeedsLowStraight(ranks);
      LowStraightIsEqual(ranks);
    } else if IsValidCards(cards) && multiset(HandRanks(cards)) == multiset(LowStraight) {
      LowStraightHand(hand);
    }
  }

  /** Straight ranks whose character-largest rank is worth 14 are the ace-low list. */
  lemma RoyalNeedsLowStraight(ranks: seq<char>)
    requires |ranks| > 0 && forall r :: r in ranks ==> r in CardValue
    requires IsStraigth(ranks) && CardValue[MaxChar(ranks)] == 14
    ensures IsLowStraight(ranks)
  {
    AceAndTenValues();
    assert MinChar(ranks) <= MaxChar(ranks);
  }

  /** Only the ace is worth 14 and only 'T' is worth 10. */
  lemma AceAndTenValues()
    ensures forall r :: r in CardValue && CardValue[r] == 14 ==> r == 'A'
    ensures forall r :: r in CardValue && CardValue[r] == 10 ==> r == 'T'
  {
  }

  /** A valid hand with exactly two different ranks is "Four of a Kind", whether it holds four
      of a rank or three and two. */
  lemma TwoRanksAreFourOfAKind(hand: string)
    requires var cards := Split(hand, ' ');
      IsValidCards(cards) && |ToSet(HandRanks(cards))| == 2
    ensures DetermineHandRank(hand) == "Four of a Kind"
  {
    TwoRanksCards(Split(hand, ' '));
    ClassifyValidCards(hand);
    TextNames();
  }

  lemma TwoRanksCards(cards: seq<string>)
    requires IsValidCards(cards) && |ToSet(HandRanks(cards))| == 2
    ensures Ladder(SortedRanks(cards), HandSuits(cards)) == FourOfAKind
  {
    var ranks := SortedRanks(cards);
    LowStraightFacts(ranks);
    FirstTrueBranch(ranks, HandSuits(cards));
  }

  /** "Full House" needs three of one rank and two of another among ranks that are not just
      two, so six pieces at least: only a hand that repeats a piece can get there. */
  lemma FullHouseNeedsRepeatedPiece(hand: string)
    ensures DetermineHandRank(hand) == "Full House" ==> |Split(hand, ' ')| > 5
  {
    var cards := Split(hand, ' ');
    TextInjective(Classify(hand), FullHouse);
    TextNames();
    if Classify(hand) == FullHouse {
      ClassifyValidCards(hand);
      FullHouseCards(cards);
    }
  }

  lemma FullHouseCards(cards: seq<string>)
    requires IsValidCards(cards) && Ladder(SortedRanks(cards), HandSuits(cards)) == FullHouse
    ensures |cards| > 5
  {
    var ranks := SortedRanks(cards);
    FirstTrueBranch(ranks, HandSuits(cards));
    ThreeRanksOfFullHouse(ranks);
  }

  /** Three of one rank, two of another and a third rank take six entries. */
  lemma ThreeRanksOfFullHouse(ranks: seq<char>)
    requires |ToSet(ranks)| != 2 && 3 in GroupCounts(ranks) && 2 in GroupCounts(ranks)
    ensures |ranks| > 5
  {
    var a :| a in ranks && Count(ranks, a) == 3;
    var b :| b in ranks && Count(ranks, b) == 2;
    var present := ToSet(ranks);
    assert a in present && b in present;
    ThirdElement(present, a, b);
    var c :| c in present && c != a && c != b;
    assert c in ranks;
    CountThree(ranks, a, b, c);
  }

  /** A set of other than two elements that holds two different ones holds a third. */
  lemma ThirdElement<T>(present: set<T>, a: T, b: T)
    requires a in present && b in present && a != b && |present| != 2
    ensures exists c :: c in present && c != a && c != b
  {
    assert |{a, b}| == 2;
    SubsetCard({a, b}, present);
    if present <= {a, b} {
      SubsetCard(present, {a, b});
    }
  }

  /** Ten to ace of one suit is no straight here: its character-largest rank is 'T' and its
      character-smallest is 'A', values 10 and 14. It is reported "Flush". */
  lemma TenToAceSuitedIsFlush(hand: string)
    requires var cards := Split(hand, ' ');
      IsValidCards(cards) && |cards| == 5 && IsFlush(HandSuits(cards)) &&
      ToSet(HandRanks(cards)) == {'T', 'J', 'Q', 'K', 'A'}
    ensures DetermineHandRank(hand) == "Flush"
  {
    TenToAceCards(Split(hand, ' '));
    ClassifyValidCards(hand);
    TextNames();
  }

  lemma TenToAceCards(cards: seq<string>)
    requires IsValidCards(cards) && |cards| == 5 && IsFlush(HandSuits(cards))
    requires ToSet(HandRanks(cards)) == {'T', 'J', 'Q', 'K', 'A'}
    ensures Ladder(SortedRanks(cards), HandSuits(cards)) == Flush
  {
    var ranks := SortedRanks(cards);
    TenToAceIsNoStraight(ranks);
    CountsOfDifferentRanks(ranks);
    FirstTrueBranch(ranks, HandSuits(cards));
  }

  lemma TenToAceIsNoStraight(ranks: seq<char>)
    requires ToSet(ranks) == {'T', 'J', 'Q', 'K', 'A'}
    ensures |ranks| > 0 && forall r :: r in ranks ==> r in CardValue
    ensures !IsStraigth(ranks) && |ToSet(ranks)| == 5
  {
    assert 'T' in ToSet(ranks) && 'A' in ToSet(ranks);
    assert forall r :: r in ranks ==> r in ToSet(ranks);
    assert MaxChar(ranks) == 'T' by {
      assert MaxChar(ranks) in ToSet(ranks);
    }
    assert MinChar(ranks) == 'A' by {
      assert MinChar(ranks) in ToSet(ranks);
    }
    assert !IsLowStraight(ranks) by {
      var i :| 0 <= i < |ranks| && ranks[i] == 'T';
      assert i >= |LowStraight| || LowStraight[i] != 'T';
    }
  }
}
